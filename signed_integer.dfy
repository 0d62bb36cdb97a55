/**
 * The signed integer gadgets Int8 … Int128 at the level of witness values,
 * and the subtraction gadget built from them.
 *
 * A gadget carries a vector of bits (least significant first, sign bit last)
 * and, when it is known, the integer value. Here a bit is its witness boolean:
 * the difference between a constant bit and an allocated one does not exist at
 * this level. The arithmetic gadgets that this model does not contain (negation,
 * addition, comparison, selection) appear as bounded-arithmetic contracts:
 * like the gadgets, they report overflow only when the values of their operands
 * are known.
 */
module SignedInteger {
  import opened Wrappers
  import opened Bits

  /**
   * A gadget width. The macros instantiate Int8, Int16, Int32, Int64 and
   * Int128; everything here holds for every width of at least two bits.
   */
  type Width = w: nat | 2 <= w witness 8

  datatype SignedIntegerError = DivisionByZero | Overflow

  datatype Int = Int(bits: seq<bool>, value: Option<int>)

  /** The bits have the width, and a known value is the one the bits encode. */
  predicate Valid(w: Width, x: Int) {
    |x.bits| == w && (x.value.Some? ==> x.value.value == Decode(x.bits))
  }

  predicate Known(x: Int) {
    x.value.Some?
  }

  /** The number the witness bits of a gadget stand for. */
  function Witness(w: Width, x: Int): (v: int)
    requires Valid(w, x)
    ensures InRange(w, v)
  {
    SignBit(x.bits);
    Decode(x.bits)
  }

  lemma WitnessInRange(w: Width, x: Int)
    requires Valid(w, x)
    ensures x.bits[w - 1] <==> Witness(w, x) < 0
  {
    SignBit(x.bits);
  }

  /** Two gadgets of one width have equal bits exactly when they stand for the same number. */
  lemma SameBitsSameWitness(w: Width, x: Int, y: Int)
    requires Valid(w, x) && Valid(w, y)
    ensures x.bits == y.bits <==> Witness(w, x) == Witness(w, y)
  {
    DecodeInjective(x.bits, y.bits);
  }

  /** `Self::constant(v)`. */
  function Constant(w: Width, v: int): (x: Int)
    requires InRange(w, v)
    ensures Valid(w, x) && x.value == Some(v) && Witness(w, x) == v
  {
    DecodeEncode(w, v);
    Int(Encode(w, v), Some(v))
  }

  /** A valid gadget equals the constant `v` exactly when its value is known to be `v`. */
  lemma EqualsConstant(w: Width, x: Int, v: int)
    requires Valid(w, x) && InRange(w, v)
    ensures x == Constant(w, v) <==> x.value == Some(v)
  {
    if x.value == Some(v) {
      EncodeDecode(x.bits);
    }
  }

  /** What an arithmetic gadget outputs for the exact result `v`. */
  function Output(w: Width, v: int, known: bool): (x: Int)
    ensures Valid(w, x) && Witness(w, x) == Wrap(w, v) && Known(x) == known
  {
    var r := Wrap(w, v);
    DecodeEncode(w, r);
    Int(Encode(w, r), if known then Some(r) else None)
  }

  /** The negation gadget: fails exactly when a known operand is `MIN`. */
  method Neg(w: Width, x: Int) returns (r: Result<Int, SignedIntegerError>)
    requires Valid(w, x)
    ensures r.Failure? <==> Known(x) && Witness(w, x) == Min(w)
    ensures r.Failure? ==> r.error == Overflow
    ensures r.Success? ==> Valid(w, r.value) && Known(r.value) == Known(x)
    ensures r.Success? && Witness(w, x) != Min(w) ==> Witness(w, r.value) == -Witness(w, x)
  {
    WitnessInRange(w, x);
    var v := -Witness(w, x);
    if Known(x) && !InRange(w, v) {
      return Failure(Overflow);
    }
    return Success(Output(w, v, Known(x)));
  }

  /** The addition gadget: fails exactly when both values are known and their sum leaves the range. */
  method Add(w: Width, x: Int, y: Int) returns (r: Result<Int, SignedIntegerError>)
    requires Valid(w, x) && Valid(w, y)
    ensures r.Failure? <==> Known(x) && Known(y) && !InRange(w, Witness(w, x) + Witness(w, y))
    ensures r.Failure? ==> r.error == Overflow
    ensures r.Success? ==> Valid(w, r.value) && (Known(r.value) <==> Known(x) && Known(y))
    ensures r.Success? && InRange(w, Witness(w, x) + Witness(w, y)) ==>
              Witness(w, r.value) == Witness(w, x) + Witness(w, y)
  {
    var v := Witness(w, x) + Witness(w, y);
    if Known(x) && Known(y) && !InRange(w, v) {
      return Failure(Overflow);
    }
    return Success(Output(w, v, Known(x) && Known(y)));
  }

  /** `conditionally_select(c, x, y)` at the level of witnesses. */
  function Select(c: bool, x: Int, y: Int): Int {
    if c then x else y
  }

  /** `greater_than_or_equal`: the signed comparison of the witnesses. */
  function GreaterOrEqual(w: Width, x: Int, y: Int): bool
    requires Valid(w, x) && Valid(w, y)
  {
    Witness(w, x) >= Witness(w, y)
  }

  /** `evaluate_equal`: bitwise equality of the witnesses. */
  function EvaluateEqual(x: Int, y: Int): bool {
    x.bits == y.bits
  }

  /**
   * The subtraction gadget: `a + (-b)`. The negation comes first, and its
   * error is returned without attempting the addition, so subtracting a known
   * `MIN` always fails, even when `a - MIN` itself is in range (`-1 - MIN`
   * is `MAX`).
   */
  method Sub(w: Width, a: Int, b: Int) returns (r: Result<Int, SignedIntegerError>)
    requires Valid(w, a) && Valid(w, b)
    ensures Known(b) && Witness(w, b) == Min(w) ==> r == Failure(Overflow)
    ensures Known(a) && Known(b) && Witness(w, b) != Min(w) ==>
              (r.Success? <==> InRange(w, Witness(w, a) - Witness(w, b)))
    ensures r.Failure? ==> r.error == Overflow
    ensures r.Failure? ==> Known(b) && (Witness(w, b) == Min(w) || Known(a))
    ensures r.Success? ==> Valid(w, r.value) && (Known(r.value) <==> Known(a) && Known(b))
    ensures r.Success? && Witness(w, b) != Min(w) && InRange(w, Witness(w, a) - Witness(w, b)) ==>
              Witness(w, r.value) == Witness(w, a) - Witness(w, b)
  {
    var negated :- Neg(w, b);
    r := Add(w, a, negated);
  }
}
