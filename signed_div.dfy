/**
 * The signed division gadget of gadgets/src/signed_integer/arithmetic/div.rs:
 * restoring long division on the magnitudes of the operands, followed by a
 * sign fix and three patches (a `MIN` divisor, `MIN / MIN`, a zero dividend).
 *
 * `Div` models the gadget as written. Its result is characterised by the
 * function `DivAsWritten`, which agrees with Rust's truncating `/` except when
 * the dividend is `MIN`: the gadget replaces `MIN` by `MIN + 1` before taking
 * the magnitude. `DivCorrected` is the gadget with the missing remainder carry
 * restored; it divides exactly as `/` does and overflows on `MIN / -1`.
 */
module SignedDiv {
  import opened Wrappers
  import opened Bits
  import opened SignedInteger

  function Abs(x: int): nat {
    if x < 0 then -x else x
  }

  /** Integer division rounding toward zero, as Rust's `/` on signed integers. */
  function TruncDiv(n: int, d: int): int
    requires d != 0
  {
    var q := Abs(n) / Abs(d);
    if (n < 0) == (d < 0) then q else -q
  }

  /** Euclidean division is determined by its quotient-remainder equation. */
  lemma DivUnique(a: int, b: int, q: int, r: int)
    requires b > 0 && q * b + r == a && 0 <= r < b
    ensures q == a / b && r == a % b
  {
    var k := q - a / b;
    assert k * b == a % b - r;
  }

  /** The defining property of truncating division: the remainder is smaller than the divisor and has the sign of the dividend. */
  lemma TruncDivRemainder(n: int, d: int)
    requires d != 0
    ensures var rem := n - TruncDiv(n, d) * d;
      Abs(rem) < Abs(d) && (rem == 0 || (rem < 0) == (n < 0))
  {
    var q := Abs(n) / Abs(d);
    var r := Abs(n) % Abs(d);
    assert Abs(n) == q * Abs(d) + r;
    if n >= 0 && d > 0 {
      assert n - TruncDiv(n, d) * d == r;
    } else if n >= 0 {
      assert TruncDiv(n, d) * d == q * Abs(d);
    } else if d > 0 {
      assert TruncDiv(n, d) * d == -(q * Abs(d));
    } else {
      assert TruncDiv(n, d) * d == -(q * Abs(d));
    }
  }

  /** One more unit of dividend raises the quotient exactly when the remainder was one short of the divisor. */
  lemma SuccessorQuotient(a: nat, b: nat)
    requires b > 0
    ensures (a + 1) / b == a / b + (if a % b == b - 1 then 1 else 0)
    ensures (a + 1) % b == (if a % b == b - 1 then 0 else a % b + 1)
  {
    if a % b == b - 1 {
      DivUnique(a + 1, b, a / b + 1, 0);
    } else {
      DivUnique(a + 1, b, a / b, a % b + 1);
    }
  }

  /**
   * The value the gadget computes for the dividend `n` and the non-zero divisor
   * `d`: the magnitude of a `MIN` dividend is taken as `MAX`, a `MIN` divisor
   * gives 0, and `MIN / MIN` gives 1.
   */
  function DivAsWritten(w: Width, n: int, d: int): int
    requires InRange(w, n) && InRange(w, d) && d != 0
  {
    var magnitude := (if n == Min(w) then Max(w) else Abs(n)) / (if d == Min(w) then 1 else Abs(d));
    var signed := if (n < 0) == (d < 0) then magnitude else -magnitude;
    if d == Min(w) then (if n == Min(w) then 1 else 0) else signed
  }

  /** `DivAsWritten` read as the gadget's last steps: the magnitude quotient, its sign, the `MIN` patches. */
  lemma DivAsWrittenCases(w: Width, n: int, d: int, a: int, b: int, magnitude: int)
    requires InRange(w, n) && InRange(w, d) && d != 0
    requires a == (if n == Min(w) then Max(w) else Abs(n))
    requires b == (if d == Min(w) then 1 else Abs(d))
    requires magnitude == a / b
    ensures DivAsWritten(w, n, d) ==
      if d == Min(w) then (if n == Min(w) then 1 else 0)
      else if (n < 0) == (d < 0) then magnitude else -magnitude
    ensures n == 0 ==> DivAsWritten(w, n, d) == 0
  {
  }

  /** For every dividend except `MIN`, and for `MIN / MIN`, the gadget divides as `/` does. */
  lemma DivAsWrittenTruncates(w: Width, n: int, d: int)
    requires InRange(w, n) && InRange(w, d) && d != 0
    requires n != Min(w) || d == Min(w)
    ensures DivAsWritten(w, n, d) == TruncDiv(n, d)
  {
    var m := Min(w);
    if d == m && n == m {
      assert TruncDiv(n, d) == Abs(m) / Abs(m) == 1;
    } else if d == m {
      DivUnique(Abs(n), Abs(d), 0, Abs(n));
    }
  }

  /**
   * With `MIN` as dividend the gadget divides `MAX` instead of `|MIN|`: it is
   * wrong exactly when `|d|` divides `2^(w-1)`, which includes every power of
   * two, 1 and -1.
   */
  lemma DivAsWrittenMinDividend(w: Width, d: int)
    requires InRange(w, d) && d != 0 && d != Min(w)
    ensures DivAsWritten(w, Min(w), d) == TruncDiv(Min(w), d) <==> Pow2(w - 1) % Abs(d) != 0
  {
    SuccessorQuotient(Max(w), Abs(d));
    assert Max(w) + 1 == Abs(Min(w)) == Pow2(w - 1);
  }

  /** A concrete case of the discrepancy: in `i8`, `-128 / 2` gives -63. */
  lemma DivMinByTwo()
    ensures DivAsWritten(8, -128, 2) == -63
    ensures TruncDiv(-128, 2) == -64
  {
    assert Pow2(7) == 128 by {
      assert Pow2(1) == 2;
      assert Pow2(2) == 4;
      assert Pow2(3) == 8;
      assert Pow2(4) == 16;
      assert Pow2(5) == 32;
      assert Pow2(6) == 64;
    }
  }

  /** One step of restoring division keeps the quotient-remainder equation for the extended numerator. */
  lemma RemainderStep(q: nat, b: nat, r: int, bit: nat, p: nat) returns (q2: nat, r2: int)
    requires q * b + r == p && 0 <= r && (b > 0 ==> r < b) && bit <= 1
    ensures r <= p
    ensures q2 == (if 2 * r + bit >= b then 2 * q + 1 else 2 * q)
    ensures r2 == (if 2 * r + bit >= b then 2 * r + bit - b else 2 * r + bit)
    ensures q2 * b + r2 == bit + 2 * p && 0 <= r2 && (b > 0 ==> r2 < b)
  {
    var r1 := 2 * r + bit;
    assert q * b >= 0;
    if r1 >= b {
      q2, r2 := 2 * q + 1, r1 - b;
      assert (2 * q + 1) * b == 2 * (q * b) + b;
    } else {
      q2, r2 := 2 * q, r1;
      assert (2 * q) * b == 2 * (q * b);
    }
  }

  /** The doubled remainder plus one numerator bit still fits below `MAX`. */
  lemma ShiftFits(w: Width, i: nat, r: int, p: nat)
    requires 1 <= i < w && 0 <= r <= p < Pow2(i - 1)
    ensures 2 * r + 1 <= Max(w)
  {
    Pow2Monotone(i, w - 1);
  }

  /** Bringing down numerator bit `w - 1 - i` extends the processed prefix of the magnitude. */
  lemma NumeratorStep(s: seq<bool>, w: nat, i: nat)
    requires 1 <= i < w == |s|
    ensures Unsigned(s[w - (i + 1)..w - 1]) == BitValue(s[w - 1 - i]) + 2 * Unsigned(s[w - i..w - 1])
    ensures Unsigned(s[w - (i + 1)..w - 1]) < Pow2(i)
  {
    UnsignedExtendBelow(s, w - i, w - 1);
    UnsignedBound(s[w - (i + 1)..w - 1]);
  }

  /** The quotient bits from `index` up read as the earlier bits shifted by one, plus the new bit. */
  lemma QuotientStep(s: seq<bool>, t: seq<bool>, index: nat)
    requires index < |s| == |t| && (t == s || t == s[index := true])
    ensures Unsigned(t[index..]) == BitValue(t[index]) + 2 * Unsigned(s[index + 1..])
  {
    UnsignedExtendBelow(t, index + 1, |t|);
    assert t[index + 1..|t|] == s[index + 1..];
    assert t[index..|t|] == t[index..];
  }

  /** Setting a clear bit below the sign bit of a known gadget adds its weight to the value. */
  lemma SetQuotientBit(w: Width, q: Int, index: nat)
    requires Valid(w, q) && Known(q) && index < w - 1 && !q.bits[index] && !q.bits[w - 1]
    ensures Valid(w, Int(q.bits[index := true], Some(q.value.value + Pow2(index))))
  {
    UnsignedSetBit(q.bits, index);
  }

  /** What one pass of the loop needs: a remainder that can be doubled and incremented, and a clear quotient bit `index` worth `bitValue`. */
  ghost predicate StepReady(w: Width, b: Int, one: Int, q: Int, r: Int, index: nat, bitValue: nat)
  {
    Valid(w, b) && Valid(w, q) && Valid(w, r) && Known(q) && one == Constant(w, 1)
    && 0 <= Witness(w, b) && 0 <= Witness(w, r) && 2 * Witness(w, r) + 1 <= Max(w)
    && index < w - 1 && !q.bits[index] && !q.bits[w - 1] && bitValue == Pow2(index)
  }

  /**
   * What one pass of the loop does: with `r1` the doubled remainder plus the
   * numerator bit, the divisor is subtracted and quotient bit `index` set
   * exactly when `r1` has reached the divisor.
   */
  ghost predicate StepDone(w: Width, b: Int, bit: bool, q: Int, r: Int, index: nat, q': Int, r': Int)
  {
    Valid(w, b) && Valid(w, r) && index < |q.bits|
    && Valid(w, q') && Valid(w, r') && Known(q')
    && var r1 := 2 * Witness(w, r) + BitValue(bit);
       if r1 >= Witness(w, b) then Witness(w, r') == r1 - Witness(w, b) && q'.bits == q.bits[index := true]
       else Witness(w, r') == r1 && q'.bits == q.bits
  }

  /**
   * The body of the loop: shift the remainder left, bring down the numerator
   * bit, and subtract the divisor when the remainder has reached it, setting
   * quotient bit `index` (worth `bitValue`) in that case.
   */
  method DivideStep(w: Width, b: Int, one: Int, bit: bool, q: Int, r: Int, index: nat, bitValue: nat)
    returns (q': Int, r': Int)
    requires StepReady(w, b, one, q, r, index, bitValue)
    ensures StepDone(w, b, bit, q, r, index, q', r')
  {
    var rr := r;
    // Left shift remainder by 1
    var shifted := Add(w, rr, rr);
    assert shifted.Success?;
    rr := shifted.value;

    // Set the least significant bit of the remainder to the numerator bit
    var rNew := Add(w, rr, one);
    assert rNew.Success?;
    rr := Select(bit, rNew.value, rr);

    ghost var r1 := Witness(w, rr);
    assert r1 == 2 * Witness(w, r) + BitValue(bit);
    var canSub := GreaterOrEqual(w, rr, b);
    WitnessInRange(w, b);
    assert InRange(w, r1 - Witness(w, b));
    var sub := Sub(w, rr, b);
    assert sub.Success? && Witness(w, sub.value) == r1 - Witness(w, b);
    r' := Select(canSub, sub.value, rr);

    SetQuotientBit(w, q, index);
    var qNew := Int(q.bits[index := true], if q.value.Some? then Some(q.value.value + bitValue) else None);
    q' := Select(canSub, qNew, q);
  }

  /** The quotient bits set so far: none below `w - i`, never the sign bit, and `quotient` above. */
  ghost predicate QuotientProgress(w: Width, q: Int, i: nat, quotient: nat)
  {
    1 <= i <= w && Valid(w, q) && Known(q)
    && (forall j :: 0 <= j < w - i ==> !q.bits[j]) && !q.bits[w - 1]
    && quotient == Unsigned(q.bits[w - i..])
  }

  /** The remainder after bringing down the `i - 1` numerator bits below the sign bit. */
  ghost predicate RemainderProgress(w: Width, a: Int, b: nat, r: Int, i: nat, quotient: nat, remainder: int, numerator: nat)
  {
    1 <= i <= w && |a.bits| == w && Valid(w, r) && remainder == Witness(w, r)
    && numerator == Unsigned(a.bits[w - i..w - 1]) < Pow2(i - 1)
    && quotient * b + remainder == numerator && 0 <= remainder && (b > 0 ==> remainder < b)
  }

  /** Before a step: the remainder can be doubled and incremented, and the quotient bit to set is clear. */
  lemma ProgressBounds(w: Width, a: Int, b: Int, one: Int, q: Int, r: Int, i: nat, index: nat, bitValue: nat,
                        quotient: nat, remainder: int, numerator: nat)
    requires Valid(w, b) && 0 <= Witness(w, b) && one == Constant(w, 1)
    requires QuotientProgress(w, q, i, quotient) && RemainderProgress(w, a, Witness(w, b), r, i, quotient, remainder, numerator)
    requires i < w && index == w - 1 - i && bitValue == Pow2(index)
    ensures StepReady(w, b, one, q, r, index, bitValue)
  {
    var _, _ := RemainderStep(quotient, Witness(w, b), remainder, 0, numerator);
    ShiftFits(w, i, remainder, numerator);
  }

  /** The loop starts with nothing brought down and an all-zero quotient and remainder. */
  lemma ProgressStart(w: Width, a: Int, b: nat)
    requires |a.bits| == w
    ensures QuotientProgress(w, Constant(w, 0), 1, 0)
    ensures RemainderProgress(w, a, b, Constant(w, 0), 1, 0, 0, 0)
  {
    ZeroBits(w);
    assert a.bits[w - 1..w - 1] == [];
    assert Constant(w, 0).bits[w - 1..] == [false];
  }

  /** A step of the loop, as `DivideStep` performs it, extends the remainder by one numerator bit. */
  lemma RemainderProgressStep(w: Width, a: Int, b: nat, r: Int, r': Int, i: nat,
                              quotient: nat, remainder: int, numerator: nat)
    returns (quotient': nat, remainder': int, numerator': nat)
    requires RemainderProgress(w, a, b, r, i, quotient, remainder, numerator) && i < w
    requires Valid(w, r')
    requires var r1 := 2 * Witness(w, r) + BitValue(a.bits[w - 1 - i]);
      Witness(w, r') == if r1 >= b then r1 - b else r1
    ensures RemainderProgress(w, a, b, r', i + 1, quotient', remainder', numerator')
    ensures quotient' == 2 * quotient + (if 2 * remainder + BitValue(a.bits[w - 1 - i]) >= b then 1 else 0)
  {
    var bit := a.bits[w - 1 - i];
    quotient', remainder' := RemainderStep(quotient, b, remainder, BitValue(bit), numerator);
    NumeratorStep(a.bits, w, i);
    numerator' := BitValue(bit) + 2 * numerator;
  }

  /** A step of the loop that sets quotient bit `w - 1 - i` or leaves the quotient alone. */
  lemma QuotientProgressStep(w: Width, q: Int, q': Int, i: nat, quotient: nat, bitSet: bool)
    requires QuotientProgress(w, q, i, quotient) && i < w
    requires Valid(w, q') && Known(q')
    requires q'.bits == if bitSet then q.bits[w - 1 - i := true] else q.bits
    ensures QuotientProgress(w, q', i + 1, 2 * quotient + BitValue(bitSet))
  {
    QuotientStep(q.bits, q'.bits, w - 1 - i);
  }

  /** One pass of the loop, as `DivideStep` performs it, re-establishes both halves of the progress for one more bit. */
  lemma Advance(w: Width, a: Int, b: Int, bit: bool, q: Int, r: Int, q': Int, r': Int, i: nat, index: nat,
                quotient: nat, remainder: int, numerator: nat)
    returns (quotient': nat, remainder': int, numerator': nat)
    requires Valid(w, b) && 0 <= Witness(w, b) && i < w && index == w - 1 - i
    requires QuotientProgress(w, q, i, quotient)
    requires RemainderProgress(w, a, Witness(w, b), r, i, quotient, remainder, numerator)
    requires bit == a.bits[index]
    requires StepDone(w, b, bit, q, r, index, q', r')
    ensures QuotientProgress(w, q', i + 1, quotient')
    ensures RemainderProgress(w, a, Witness(w, b), r', i + 1, quotient', remainder', numerator')
  {
    var bitSet := 2 * Witness(w, r) + BitValue(a.bits[w - 1 - i]) >= Witness(w, b);
    QuotientProgressStep(w, q, q', i, quotient, bitSet);
    quotient', remainder', numerator' :=
      RemainderProgressStep(w, a, Witness(w, b), r, r', i, quotient, remainder, numerator);
  }

  /** After the last step the processed prefix is the whole magnitude: the quotient and remainder of the division. */
  lemma DivisionExit(w: Width, a: Int, b: Int, q: Int, r: Int, quotient: nat, remainder: int, numerator: nat)
    requires Valid(w, a) && Valid(w, b) && Witness(w, a) >= 0 && Witness(w, b) >= 0
    requires QuotientProgress(w, q, w, quotient)
    requires RemainderProgress(w, a, Witness(w, b), r, w, quotient, remainder, numerator)
    ensures Valid(w, q) && Valid(w, r) && Known(q) && Witness(w, q) >= 0 && Witness(w, r) >= 0
    ensures Witness(w, b) > 0 ==>
              Witness(w, q) == Witness(w, a) / Witness(w, b) && Witness(w, r) == Witness(w, a) % Witness(w, b)
  {
    WitnessInRange(w, a);
    UnsignedSplitLast(a.bits);
    assert a.bits[0..w - 1] == a.bits[..w - 1];
    assert q.bits[0..] == q.bits;
    UnsignedSplitLast(q.bits);
    if Witness(w, b) > 0 {
      DivUnique(Witness(w, a), Witness(w, b), quotient, remainder);
    }
  }

  /**
   * The loop of the gadget: restoring long division of the magnitude `a` by the
   * magnitude `b`, one numerator bit at a time from the bit below the sign bit
   * down to bit 0. The quotient is known (it is built from known constants);
   * for `b > 0` the results are the quotient and the remainder of `a / b`.
   */
  method RestoringDivide(w: Width, a: Int, b: Int) returns (q: Int, r: Int)
    requires Valid(w, a) && Valid(w, b)
    requires Witness(w, a) >= 0 && Witness(w, b) >= 0
    ensures Valid(w, q) && Valid(w, r) && Known(q) && Witness(w, q) >= 0 && Witness(w, r) >= 0
    ensures Witness(w, b) > 0 ==>
              Witness(w, q) == Witness(w, a) / Witness(w, b) && Witness(w, r) == Witness(w, a) % Witness(w, b)
  {
    var one := Constant(w, 1);
    q := Constant(w, 0);
    r := Constant(w, 0);
    var index: nat := w - 1;
    var bitValue: nat := Pow2(index - 1);
    ghost var quotient: nat := 0;
    ghost var remainder: int := 0;
    ghost var numerator: nat := 0;
    ProgressStart(w, a, Witness(w, b));
    for i := 1 to w
      invariant index == w - i
      invariant bitValue == Pow2(index) / 2
      invariant QuotientProgress(w, q, i, quotient)
      invariant RemainderProgress(w, a, Witness(w, b), r, i, quotient, remainder, numerator)
    {
      var bit := a.bits[w - 1 - i];
      index := index - 1;
      assert Pow2(index + 1) == 2 * Pow2(index);
      ProgressBounds(w, a, b, one, q, r, i, index, bitValue, quotient, remainder, numerator);
      ghost var q0, r0 := q, r;
      q, r := DivideStep(w, b, one, bit, q, r, index, bitValue);
      bitValue := bitValue / 2;
      quotient, remainder, numerator := Advance(w, a, b, bit, q0, r0, q, r, i, index, quotient, remainder, numerator);
    }
    DivisionExit(w, a, b, q, r, quotient, remainder, numerator);
  }

  /**
   * The magnitudes the gadget divides: a negative dividend is negated after
   * `MIN` has been replaced by `MIN + 1`, a negative divisor after `MIN` has
   * been replaced by -1.
   */
  method Magnitudes(w: Width, dividend: Int, divisor: Int, one: Int, min: Int) returns (a: Int, b: Int)
    requires Valid(w, dividend) && Valid(w, divisor) && one == Constant(w, 1) && min == Constant(w, Min(w))
    ensures Valid(w, a) && Valid(w, b)
    ensures var n := Witness(w, dividend);
      Witness(w, a) == if n == Min(w) then Max(w) else Abs(n)
    ensures var d := Witness(w, divisor);
      Witness(w, b) == if d == Min(w) then 1 else Abs(d)
  {
    WitnessInRange(w, dividend);
    WitnessInRange(w, divisor);
    SameBitsSameWitness(w, divisor, min);
    SameBitsSameWitness(w, dividend, min);
    var divisorIsMin := EvaluateEqual(divisor, min);
    var dividendIsMin := EvaluateEqual(dividend, min);

    // A MIN divisor is replaced by -1, and a MIN dividend by MIN + 1, so that negation cannot fail
    var negativeOne := Neg(w, one);
    var aValid := Add(w, min, one);
    assert aValid.Success?;
    var aSet := Select(dividendIsMin, aValid.value, dividend);
    assert negativeOne.Success?;
    var bSet := Select(divisorIsMin, negativeOne.value, divisor);

    var bMsb := divisor.bits[w - 1];
    var aMsb := dividend.bits[w - 1];

    // The absolute value of each operand
    var aComp := Neg(w, aSet);
    assert aComp.Success?;
    a := Select(aMsb, aComp.value, dividend);
    var bComp := Neg(w, bSet);
    assert bComp.Success?;
    b := Select(bMsb, bComp.value, bSet);
  }

  /**
   * The division gadget as written. It fails only for a divisor known to be
   * zero; otherwise its result is known and is the value `DivAsWritten`
   * describes, and a dividend known to be zero is returned unchanged.
   */
  method Div(w: Width, dividend: Int, divisor: Int) returns (res: Result<Int, SignedIntegerError>)
    requires Valid(w, dividend) && Valid(w, divisor)
    ensures res.Failure? <==> divisor.value == Some(0)
    ensures res.Failure? ==> res.error == DivisionByZero
    ensures res.Success? ==> Valid(w, res.value) && Known(res.value)
    ensures res.Success? && dividend.value == Some(0) ==> res.value == dividend
    ensures res.Success? && Witness(w, divisor) != 0 ==>
              Witness(w, res.value) == DivAsWritten(w, Witness(w, dividend), Witness(w, divisor))
  {
    EqualsConstant(w, divisor, 0);
    EqualsConstant(w, dividend, 0);
    if divisor == Constant(w, 0) {
      return Failure(DivisionByZero);
    }
    var one := Constant(w, 1);
    var zero := Constant(w, 0);

    // A zero dividend is returned as it is
    var dividendIsZero := dividend == Constant(w, 0);

    // A MIN divisor gives 0, or 1 when the dividend is MIN as well
    var min := Constant(w, Min(w));
    var divisorIsMin := EvaluateEqual(divisor, min);
    var dividendIsMin := EvaluateEqual(dividend, min);
    var bothMin := divisorIsMin && dividendIsMin;

    // Equal sign bits give a non-negative quotient
    var positive := dividend.bits[w - 1] == divisor.bits[w - 1];

    var a, b := Magnitudes(w, dividend, divisor, one, min);
    var q, _ := RestoringDivide(w, a, b);
    ghost var magnitude := Witness(w, q);

    var qNeg := Neg(w, q);
    assert qNeg.Success?;
    q := Select(positive, q, qNeg.value);
    assert Witness(w, q) == if positive then magnitude else -magnitude;
    q := Select(divisorIsMin, zero, q);
    q := Select(bothMin, one, q);
    res := Success(Select(dividendIsZero, dividend, q));

    ghost var n, d := Witness(w, dividend), Witness(w, divisor);
    if d != 0 {
      WitnessInRange(w, dividend);
      WitnessInRange(w, divisor);
      SameBitsSameWitness(w, divisor, min);
      SameBitsSameWitness(w, dividend, min);
      DivAsWrittenCases(w, n, d, Witness(w, a), Witness(w, b), magnitude);
    }
  }

  /**
   * The quotient of the corrected gadget: the magnitude quotient, plus one
   * when the dividend is `MIN` and the remainder of `MAX / |d|` is one short of
   * `|d|`. This is the magnitude of the truncating quotient, and it exceeds
   * `MAX` only for `MIN / -1` and `MIN / 1` (where the sign makes it fit).
   */
  lemma CorrectedCases(w: Width, n: int, d: int, a: int, b: int, magnitude: int, remainder: int)
    requires InRange(w, n) && InRange(w, d) && d != 0 && d != Min(w)
    requires a == (if n == Min(w) then Max(w) else Abs(n))
    requires b == Abs(d)
    requires magnitude == a / b && remainder == a % b
    ensures var m := magnitude + (if n == Min(w) && remainder == b - 1 then 1 else 0);
      TruncDiv(n, d) == (if (n < 0) == (d < 0) then m else -m)
      && (m > Max(w) <==> n == Min(w) && Abs(d) == 1)
      && m <= Max(w) + 1
  {
    var m := magnitude + (if n == Min(w) && remainder == b - 1 then 1 else 0);
    if n == Min(w) {
      var p := Max(w) + 1;
      assert p == Pow2(w - 1) == 2 * Pow2(w - 2);
      SuccessorQuotient(Max(w), b);
      assert m == p / b && Abs(n) == p;
      if b > 1 {
        HalfBound(p, b);
      } else {
        DivUnique(p, 1, p, 0);
      }
    } else {
      QuotientAtMost(a, b);
    }
  }

  lemma QuotientAtMost(x: nat, b: nat)
    requires b >= 1
    ensures x / b <= x
  {
    var k := x / b;
    assert x == k * b + x % b;
    MulAtLeast(k, b);
  }

  lemma {:induction false} MulAtLeast(k: nat, b: nat)
    requires b >= 1
    ensures k <= k * b
  {
    if b > 1 {
      MulAtLeast(k, b - 1);
      assert k * b == k * (b - 1) + k;
    }
  }

  /** Dividing by at least two at most halves. */
  lemma HalfBound(x: nat, b: nat)
    requires b >= 2
    ensures x / b <= x / 2
  {
    var k := x / b;
    assert k * b <= x;
    assert k * 2 <= k * b;
    DivUnique(x, 2, x / 2, x % 2);
  }

  /**
   * The unit a `MIN` dividend lost when its magnitude was taken as `MAX`: one
   * when the remainder is one short of the divisor, so that the unit completes
   * a further quotient step.
   */
  method RemainderCarry(w: Width, r: Int, b: Int, one: Int, zero: Int, dividendIsMin: bool, divisorIsMin: bool)
    returns (carryBit: Int)
    requires Valid(w, r) && Valid(w, b) && one == Constant(w, 1) && zero == Constant(w, 0)
    requires 0 <= Witness(w, r) && 0 <= Witness(w, b)
    ensures Valid(w, carryBit) && Known(carryBit)
    ensures Witness(w, carryBit) ==
      if dividendIsMin && !divisorIsMin && Witness(w, r) == Witness(w, b) - 1 then 1 else 0
  {
    var bMinusOne := Sub(w, b, one);
    assert bMinusOne.Success?;
    SameBitsSameWitness(w, r, bMinusOne.value);
    var carry := dividendIsMin && !divisorIsMin && EvaluateEqual(r, bMinusOne.value);
    carryBit := Select(carry, one, zero);
  }

  /**
   * Gives the non-negative quotient `q` plus the carry the sign of the result:
   * `q + carry` when the operands' signs agree, `-q - carry` otherwise. Only the
   * positive sum can leave the range.
   */
  method ApplySign(w: Width, q: Int, carryBit: Int, positive: bool) returns (res: Result<Int, SignedIntegerError>)
    requires Valid(w, q) && Valid(w, carryBit) && Known(q) && Known(carryBit)
    requires 0 <= Witness(w, q) && 0 <= Witness(w, carryBit) <= 1
    ensures res.Failure? <==> positive && Witness(w, q) + Witness(w, carryBit) > Max(w)
    ensures res.Failure? ==> res.error == Overflow
    ensures res.Success? ==> Valid(w, res.value) && Known(res.value)
    ensures res.Success? ==>
              Witness(w, res.value) ==
                (if positive then Witness(w, q) + Witness(w, carryBit) else -Witness(w, q) - Witness(w, carryBit))
  {
    if positive {
      res := Add(w, q, carryBit);
    } else {
      var qNeg := Neg(w, q);
      assert qNeg.Success?;
      res := Sub(w, qNeg.value, carryBit);
      assert res.Success?;
    }
  }

  /**
   * The division gadget with the lost remainder unit restored: it divides as
   * Rust's `/` does, failing with `DivisionByZero` on a divisor known to be
   * zero and with `Overflow` on `MIN / -1`.
   */
  method DivCorrected(w: Width, dividend: Int, divisor: Int) returns (res: Result<Int, SignedIntegerError>)
    requires Valid(w, dividend) && Valid(w, divisor)
    ensures res.Failure? <==>
      divisor.value == Some(0) || (Witness(w, dividend) == Min(w) && Witness(w, divisor) == -1)
    ensures res.Failure? ==> res.error == if divisor.value == Some(0) then DivisionByZero else Overflow
    ensures res.Success? ==> Valid(w, res.value) && Known(res.value)
    ensures res.Success? && dividend.value == Some(0) ==> res.value == dividend
    ensures res.Success? && Witness(w, divisor) != 0 ==>
              Witness(w, res.value) == TruncDiv(Witness(w, dividend), Witness(w, divisor))
  {
    EqualsConstant(w, divisor, 0);
    EqualsConstant(w, dividend, 0);
    if divisor == Constant(w, 0) {
      return Failure(DivisionByZero);
    }
    var one := Constant(w, 1);
    var zero := Constant(w, 0);
    var dividendIsZero := dividend == Constant(w, 0);
    var min := Constant(w, Min(w));
    var divisorIsMin := EvaluateEqual(divisor, min);
    var dividendIsMin := EvaluateEqual(dividend, min);
    var bothMin := divisorIsMin && dividendIsMin;
    var positive := dividend.bits[w - 1] == divisor.bits[w - 1];

    var a, b := Magnitudes(w, dividend, divisor, one, min);
    var q, r := RestoringDivide(w, a, b);
    var carryBit := RemainderCarry(w, r, b, one, zero, dividendIsMin, divisorIsMin);
    var signed := ApplySign(w, q, carryBit, positive);
    ghost var n, d := Witness(w, dividend), Witness(w, divisor);
    CorrectedValue(w, dividend, divisor, min, a, b, q, r, carryBit, positive);
    SameBitsSameWitness(w, divisor, min);
    SameBitsSameWitness(w, dividend, min);
    assert Witness(w, q) <= Max(w);
    if signed.Failure? {
      // MIN / -1: the quotient |MIN| does not fit
      return signed;
    }
    q := Select(divisorIsMin, zero, signed.value);
    q := Select(bothMin, one, q);
    res := Success(Select(dividendIsZero, dividend, q));
  }

  /** The value reasoning of `DivCorrected`, from the witnesses of its intermediate gadgets. */
  lemma CorrectedValue(w: Width, dividend: Int, divisor: Int, min: Int, a: Int, b: Int, q: Int, r: Int,
                       carryBit: Int, positive: bool)
    requires Valid(w, dividend) && Valid(w, divisor) && min == Constant(w, Min(w))
    requires Valid(w, a) && Valid(w, b) && Valid(w, q) && Valid(w, r) && Valid(w, carryBit)
    requires 0 <= Witness(w, r)
    requires var n := Witness(w, dividend); Witness(w, a) == if n == Min(w) then Max(w) else Abs(n)
    requires var d := Witness(w, divisor); Witness(w, b) == if d == Min(w) then 1 else Abs(d)
    requires Witness(w, b) > 0 ==>
      Witness(w, q) == Witness(w, a) / Witness(w, b) && Witness(w, r) == Witness(w, a) % Witness(w, b)
    requires Witness(w, carryBit) ==
      if dividend.bits == min.bits && divisor.bits != min.bits && Witness(w, r) == Witness(w, b) - 1 then 1 else 0
    requires positive <==> dividend.bits[w - 1] == divisor.bits[w - 1]
    ensures var n, d := Witness(w, dividend), Witness(w, divisor);
      d != 0 && d != Min(w) ==>
        (positive && Witness(w, q) + Witness(w, carryBit) > Max(w) <==> n == Min(w) && d == -1)
        && TruncDiv(n, d) ==
             if positive then Witness(w, q) + Witness(w, carryBit) else -Witness(w, q) - Witness(w, carryBit)
    ensures var n, d := Witness(w, dividend), Witness(w, divisor);
      d == Min(w) ==> TruncDiv(n, d) == if n == Min(w) then 1 else 0
    ensures var n, d := Witness(w, dividend), Witness(w, divisor);
      n == 0 && d != 0 ==> TruncDiv(n, d) == 0
    ensures Witness(w, divisor) == 0 || Witness(w, divisor) == Min(w) ==> Witness(w, carryBit) == 0
  {
    var n, d := Witness(w, dividend), Witness(w, divisor);
    WitnessInRange(w, dividend);
    WitnessInRange(w, divisor);
    SameBitsSameWitness(w, divisor, min);
    SameBitsSameWitness(w, dividend, min);
    if d != 0 && d != Min(w) {
      CorrectedCases(w, n, d, Witness(w, a), Witness(w, b), Witness(w, q), Witness(w, r));
    }
    if d == Min(w) {
      DivAsWrittenTruncates(w, n, d);
      DivAsWrittenCases(w, n, d, Witness(w, a), Witness(w, b), Witness(w, q));
    }
    if n == 0 && d != 0 {
      DivUnique(0, Abs(d), 0, 0);
    }
  }
}
