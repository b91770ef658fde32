/** `fill_array_binary`: decoding a counter into a zero-padded, most-significant-bit-first 0/1 vector. */
module BinaryFill {
  import opened Numeric
  import opened Ducci

  function BitChar(b: nat): char
    requires b < 2
  {
    if b == 0 then '0' else '1'
  }

  predicate IsBitChar(c: char)
  {
    c == '0' || c == '1'
  }

  /** `format!("{count:b}")`: binary digits, most significant first, no leading zeros ("0" for zero). */
  function BinaryString(c: nat): (s: string)
    ensures |s| >= 1 && forall i :: 0 <= i < |s| ==> IsBitChar(s[i])
  {
    if c < 2 then [BitChar(c)] else BinaryString(c / 2) + [BitChar(c % 2)]
  }

  /** The number a bit character stands for: its code minus 48, the code of '0'. */
  function BitOf(c: char): (b: nat)
    requires IsBitChar(c)
    ensures b < 2 && b == c as int - 48
  {
    if c == '0' then 0 else 1
  }

  /** The numbers a string of bit characters stands for, one per character. */
  function CharsToBits(s: string): (r: seq<nat>)
    requires forall i :: 0 <= i < |s| ==> IsBitChar(s[i])
    ensures |r| == |s| && Bounded(r, 1)
  {
    if s == [] then [] else CharsToBits(s[..|s| - 1]) + [BitOf(s[|s| - 1])]
  }

  /** `"0".repeat(n)`. */
  function ZeroPadding(n: nat): (s: string)
    ensures |s| == n && forall i :: 0 <= i < n ==> s[i] == '0'
  {
    seq(n, _ => '0')
  }

  /** Value of a most-significant-first bit vector. */
  function BitsValue(bits: seq<nat>): nat
  {
    if bits == [] then 0 else 2 * BitsValue(bits[..|bits| - 1]) + bits[|bits| - 1]
  }

  predicate IsBinary(s: seq<nat>)
  {
    Bounded(s, 1)
  }

  /** `fill_array_binary`: for a counter whose binary form fits in `nSize` digits, the result has
      exactly `nSize` entries, each 0 or 1, and read most significant bit first it is the counter. */
  method FillArrayBinary(count: nat, nSize: nat) returns (values: seq<u64>)
    requires |BinaryString(count)| <= nSize
    ensures |values| == nSize && IsBinary(values) && BitsValue(values) == count
  {
    var str := BinaryString(count);
    var signExtend := nSize - |str|;
    // The source pads only when `sign_extend > 0`; padding with zero characters adds nothing,
    // so one concatenation covers both branches.
    var signExtendedString := ZeroPadding(signExtend) + str;
    assert forall i :: 0 <= i < |signExtendedString| ==> IsBitChar(signExtendedString[i]);
    ghost var bits := CharsToBits(signExtendedString);
    CharsToBitsAt(signExtendedString);
    values := [];
    for k := 0 to |signExtendedString|
      invariant values == bits[..k]
    {
      var bit: u64 := signExtendedString[k] as u64 - 48;
      assert bits[..k + 1] == bits[..k] + [bits[k]];
      values := values + [bit];
    }
    assert bits[..|bits|] == bits;
    PaddedValue(count, signExtend);
  }

  /** Character `j` of a bit string converts to entry `j`. */
  lemma {:induction false} CharsToBitsAt(s: string)
    requires forall i :: 0 <= i < |s| ==> IsBitChar(s[i])
    ensures forall j :: 0 <= j < |s| ==> CharsToBits(s)[j] == BitOf(s[j])
  {
    if s != [] {
      var init := s[..|s| - 1];
      CharsToBitsAt(init);
      assert forall j :: 0 <= j < |init| ==> init[j] == s[j];
    }
  }

  /** Left-padding the binary rendering of `c` with '0' characters keeps its value `c`. */
  lemma PaddedValue(c: nat, pad: nat)
    ensures BitsValue(CharsToBits(ZeroPadding(pad) + BinaryString(c))) == c
  {
    var zeros := ZeroPadding(pad);
    CharsToBitsAppend(zeros, BinaryString(c));
    ZeroCharsToBits(pad);
    LeadingZeros(CharsToBits(zeros), CharsToBits(BinaryString(c)));
    BinaryStringValue(c);
  }

  lemma {:induction false} ZeroCharsToBits(n: nat)
    ensures AllZero(CharsToBits(ZeroPadding(n)))
  {
    if n > 0 {
      ZeroCharsToBits(n - 1);
      assert ZeroPadding(n)[..n - 1] == ZeroPadding(n - 1);
    }
  }

  lemma {:induction false} CharsToBitsAppend(a: string, b: string)
    requires forall i :: 0 <= i < |a| ==> IsBitChar(a[i])
    requires forall i :: 0 <= i < |b| ==> IsBitChar(b[i])
    ensures CharsToBits(a + b) == CharsToBits(a) + CharsToBits(b)
    decreases |b|
  {
    if b != [] {
      var b' := b[..|b| - 1];
      assert (a + b)[..|a + b| - 1] == a + b';
      CharsToBitsAppend(a, b');
    } else {
      assert a + b == a;
    }
  }

  /** Zero padding on the left does not change the value. */
  lemma {:induction false} LeadingZeros(z: seq<nat>, b: seq<nat>)
    requires AllZero(z)
    ensures BitsValue(z + b) == BitsValue(b)
    decreases |z| + |b|
  {
    if b == [] {
      assert z + b == z;
      if z != [] {
        LeadingZeros(z[..|z| - 1], []);
        assert z[..|z| - 1] + [] == z[..|z| - 1];
      }
    } else {
      assert (z + b)[..|z + b| - 1] == z + b[..|b| - 1];
      LeadingZeros(z, b[..|b| - 1]);
    }
  }

  /** The binary rendering read back is the counter. */
  lemma {:induction false} BinaryStringValue(c: nat)
    ensures BitsValue(CharsToBits(BinaryString(c))) == c
    decreases c
  {
    if c >= 2 {
      BinaryStringValue(c / 2);
      var s := BinaryString(c);
      var bits := CharsToBits(s);
      assert s[..|s| - 1] == BinaryString(c / 2);
      assert bits == CharsToBits(BinaryString(c / 2)) + [c % 2];
      assert bits[..|bits| - 1] == CharsToBits(BinaryString(c / 2));
    }
  }

  /** The guard of `fill_array_binary`: the binary form fits in `n` digits exactly when `n >= 1`
      and the counter is below `2^n` (so the padding length `n - len` never underflows). */
  lemma {:induction false} BinaryStringFits(c: nat, n: nat)
    ensures |BinaryString(c)| <= n <==> 1 <= n && c < Pow2(n)
    decreases c
  {
    if c >= 2 && n >= 1 {
      BinaryStringFits(c / 2, n - 1);
    }
  }

  /** Every 0/1 vector of length `n` is the decoding of a counter below `2^n`. */
  lemma {:induction false} BitsValueBound(s: seq<nat>)
    requires IsBinary(s)
    ensures BitsValue(s) < Pow2(|s|)
    decreases |s|
  {
    if s != [] {
      BitsValueBound(s[..|s| - 1]);
    }
  }

  /** Equal-length 0/1 vectors with the same value are equal: distinct counters decode to distinct
      vectors. */
  lemma {:induction false} BitsInjective(u: seq<nat>, v: seq<nat>)
    requires |u| == |v| && IsBinary(u) && IsBinary(v)
    requires BitsValue(u) == BitsValue(v)
    ensures u == v
    decreases |u|
  {
    if u != [] {
      var n := |u|;
      BitsInjective(u[..n - 1], v[..n - 1]);
      assert u == u[..n - 1] + [u[n - 1]];
      assert v == v[..n - 1] + [v[n - 1]];
    }
  }
}
