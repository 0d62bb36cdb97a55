/**
 * Little-endian bit strings and their two's complement reading: the `bits`
 * vector of a signed integer gadget, least significant bit first and the sign
 * bit last.
 */
module Bits {

  function Pow2(n: nat): (p: nat)
    ensures p >= 1
  {
    if n == 0 then 1 else 2 * Pow2(n - 1)
  }

  lemma Pow2Monotone(m: nat, n: nat)
    requires m <= n
    ensures Pow2(m) <= Pow2(n)
  {
    if m < n {
      Pow2Monotone(m, n - 1);
    }
  }

  function BitValue(b: bool): nat {
    if b then 1 else 0
  }

  /** The unsigned number a little-endian bit string stands for. */
  function Unsigned(s: seq<bool>): nat {
    if s == [] then 0 else BitValue(s[0]) + 2 * Unsigned(s[1..])
  }

  lemma {:induction false} UnsignedBound(s: seq<bool>)
    ensures Unsigned(s) < Pow2(|s|)
  {
    if s != [] {
      UnsignedBound(s[1..]);
    }
  }

  /** Splitting off the most significant bit. */
  lemma {:induction false} UnsignedSplitLast(s: seq<bool>)
    requires |s| > 0
    ensures Unsigned(s) == Unsigned(s[..|s| - 1]) + BitValue(s[|s| - 1]) * Pow2(|s| - 1)
  {
    if |s| > 1 {
      UnsignedSplitLast(s[1..]);
      assert s[1..][..|s| - 2] == s[..|s| - 1][1..];
    }
  }

  /** Reading one more bit below a slice doubles its value and adds the bit. */
  lemma UnsignedExtendBelow(s: seq<bool>, lo: nat, hi: nat)
    requires 0 < lo <= hi <= |s|
    ensures Unsigned(s[lo - 1..hi]) == BitValue(s[lo - 1]) + 2 * Unsigned(s[lo..hi])
  {
    assert s[lo - 1..hi][1..] == s[lo..hi];
  }

  /** Setting a clear bit `i` adds `2^i`. */
  lemma {:induction false} UnsignedSetBit(s: seq<bool>, i: nat)
    requires i < |s| && !s[i]
    ensures Unsigned(s[i := true]) == Unsigned(s) + Pow2(i)
  {
    if i > 0 {
      assert s[i := true][1..] == s[1..][i - 1 := true];
      UnsignedSetBit(s[1..], i - 1);
    }
  }

  /** The `n` low bits of `u`, least significant first. */
  function UnsignedBits(n: nat, u: nat): (s: seq<bool>)
    ensures |s| == n
  {
    if n == 0 then [] else [u % 2 == 1] + UnsignedBits(n - 1, u / 2)
  }

  /** Zero has no bit set. */
  lemma {:induction false} ZeroBits(n: nat)
    ensures forall j :: 0 <= j < n ==> !UnsignedBits(n, 0)[j]
  {
    if n > 0 {
      ZeroBits(n - 1);
      assert forall j :: 0 < j < n ==> UnsignedBits(n, 0)[j] == UnsignedBits(n - 1, 0)[j - 1];
    }
  }

  lemma {:induction false} UnsignedOfBits(n: nat, u: nat)
    requires u < Pow2(n)
    ensures Unsigned(UnsignedBits(n, u)) == u
  {
    if n > 0 {
      UnsignedOfBits(n - 1, u / 2);
      assert UnsignedBits(n, u)[1..] == UnsignedBits(n - 1, u / 2);
    }
  }

  lemma {:induction false} BitsOfUnsigned(s: seq<bool>)
    ensures UnsignedBits(|s|, Unsigned(s)) == s
  {
    if s != [] {
      BitsOfUnsigned(s[1..]);
      assert Unsigned(s) / 2 == Unsigned(s[1..]);
    }
  }

  // Two's complement range of a width.

  function Min(w: nat): int
    requires w >= 1
  {
    -(Pow2(w - 1) as int)
  }

  function Max(w: nat): int
    requires w >= 1
  {
    Pow2(w - 1) - 1
  }

  predicate InRange(w: nat, v: int)
    requires w >= 1
  {
    Min(w) <= v <= Max(w)
  }

  /** Reduces `v` into the range of width `w`, as w-bit hardware arithmetic does. */
  function Wrap(w: nat, v: int): (r: int)
    requires w >= 1
    ensures InRange(w, r)
    ensures InRange(w, v) ==> r == v
  {
    assert Pow2(w) == 2 * Pow2(w - 1);
    assert InRange(w, v) ==> (v - Min(w)) % Pow2(w) + Min(w) == v by {
      if InRange(w, v) {
        ModOfSmall(v - Min(w), Pow2(w));
      }
    }
    (v - Min(w)) % Pow2(w) + Min(w)
  }

  lemma ModOfSmall(x: int, p: int)
    requires 0 <= x < p
    ensures x % p == x
  {
  }

  /** The two's complement bits of an in-range value. */
  function Encode(w: nat, v: int): (s: seq<bool>)
    requires w >= 1 && InRange(w, v)
    ensures |s| == w
  {
    UnsignedBits(w, if v < 0 then v + Pow2(w) else v)
  }

  /** The signed number a two's complement bit string stands for. */
  function Decode(s: seq<bool>): int
    requires |s| >= 1
  {
    Unsigned(s) - (if s[|s| - 1] then Pow2(|s|) else 0)
  }

  /** The sign bit is set exactly for negative numbers, and every decoding is in range. */
  lemma SignBit(s: seq<bool>)
    requires |s| >= 1
    ensures s[|s| - 1] <==> Decode(s) < 0
    ensures InRange(|s|, Decode(s))
  {
    UnsignedSplitLast(s);
    UnsignedBound(s[..|s| - 1]);
  }

  lemma DecodeEncode(w: nat, v: int)
    requires w >= 1 && InRange(w, v)
    ensures Decode(Encode(w, v)) == v
  {
    var u := if v < 0 then v + Pow2(w) else v;
    UnsignedOfBits(w, u);
    SignBit(Encode(w, v));
  }

  /** A bit string is determined by the number it decodes to. */
  lemma EncodeDecode(s: seq<bool>)
    requires |s| >= 1
    ensures InRange(|s|, Decode(s)) && Encode(|s|, Decode(s)) == s
  {
    SignBit(s);
    BitsOfUnsigned(s);
    UnsignedSplitLast(s);
  }

  lemma DecodeInjective(s: seq<bool>, t: seq<bool>)
    requires |s| == |t| >= 1
    ensures s == t <==> Decode(s) == Decode(t)
  {
    EncodeDecode(s);
    EncodeDecode(t);
  }
}
