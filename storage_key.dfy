/** The hash-set key of a state: the decimal renderings of its entries joined with no separator. */
module StorageKey {
  import opened Ducci

  function DigitChar(d: nat): (c: char)
    requires d < 10
    ensures c as int == 48 + d
  {
    (48 + d) as char
  }

  predicate IsDigitChar(c: char)
  {
    48 <= c as int <= 57
  }

  /** Decimal rendering of a natural, most significant digit first (`to_string`). */
  function Decimal(x: nat): (r: string)
    ensures |r| >= 1 && forall i :: 0 <= i < |r| ==> IsDigitChar(r[i])
  {
    if x < 10 then [DigitChar(x)] else Decimal(x / 10) + [DigitChar(x % 10)]
  }

  /** The value of a string of decimal digits, most significant first. */
  function DecimalValue(s: string): nat
    requires forall i :: 0 <= i < |s| ==> IsDigitChar(s[i])
  {
    if s == [] then 0
    else
      assert IsDigitChar(s[|s| - 1]);
      10 * DecimalValue(s[..|s| - 1]) + (s[|s| - 1] as int - 48)
  }

  /** Reading the rendering back gives the number: `Decimal` loses nothing on its own. */
  lemma {:induction false} DecimalRoundTrip(x: nat)
    ensures DecimalValue(Decimal(x)) == x
    decreases x
  {
    if x >= 10 {
      DecimalRoundTrip(x / 10);
      var s := Decimal(x);
      assert s[..|s| - 1] == Decimal(x / 10);
    }
  }

  /** `get_storage_str`: the entries' decimal renderings concatenated in order. */
  function Key(values: seq<nat>): (r: string)
    ensures |r| >= |values|
  {
    if values == [] then "" else Decimal(values[0]) + Key(values[1..])
  }

  /** On entries below ten every rendering is a single digit, so the key spells the vector out. */
  lemma {:induction false} KeyOfDigits(values: seq<nat>)
    requires Bounded(values, 9)
    ensures |Key(values)| == |values|
    ensures forall i :: 0 <= i < |values| ==> Key(values)[i] == DigitChar(values[i])
  {
    if values != [] {
      KeyOfDigits(values[1..]);
    }
  }

  /** Hence the key tells apart any two vectors whose entries are all below ten; in particular it
      never aliases two 0/1 vectors. */
  lemma KeyInjectiveOnDigits(u: seq<nat>, v: seq<nat>)
    requires Bounded(u, 9) && Bounded(v, 9)
    requires Key(u) == Key(v)
    ensures u == v
  {
    KeyOfDigits(u);
    KeyOfDigits(v);
    forall i | 0 <= i < |u|
      ensures u[i] == v[i]
    {
      assert DigitChar(u[i]) == DigitChar(v[i]);
    }
  }

  /** With larger entries the missing separator makes distinct vectors share a key. */
  lemma KeyAliases()
    ensures Key([1, 23]) == Key([12, 3]) == "123"
  {
    assert Decimal(23) == Decimal(2) + [DigitChar(3)];
    assert Decimal(12) == Decimal(1) + [DigitChar(2)];
    assert Key([23]) == Decimal(23) + Key([]);
    assert Key([3]) == Decimal(3) + Key([]);
  }
}
