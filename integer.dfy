/**
 * The compiler's `Integer` value: one variant per integer type of the
 * language, each holding a gadget of that width. At this level a gadget is its
 * optional value (`None` for a program input whose value is not known while
 * the circuit is built), and the per-width gadget operations are bounded
 * arithmetic: they fail when known operands give a result outside the range of
 * the type, and give an unknown result when an operand is unknown.
 */
module IntegerValue {
  import opened Wrappers
  import opened Bits
  import SignedInteger
  import SignedDiv

  datatype IntegerType = U8 | U16 | U32 | U64 | U128 | I8 | I16 | I32 | I64 | I128

  /**
   * `Integer` has one variant per integer type, each holding a gadget of that
   * width. The variant is the tag `ty` (what `get_type` returns), and `value` is
   * the gadget's `get_value()` as a number.
   */
  datatype Integer = Integer(ty: IntegerType, value: Option<int>)

  /** A constant of the language, as the type checker hands it over. */
  datatype ConstInt = ConstInt(ty: IntegerType, value: int)

  /** A value of the program's input file; `text` is how it prints. */
  datatype InputValue =
    | IntegerInput(ty: IntegerType, number: string)
    | OtherInput(text: string)

  /** Errors of the per-width gadgets that the wrapper passes on. */
  type GadgetError = SignedInteger.SignedIntegerError

  datatype IntegerError =
    | InvalidIndex
    | InvalidInteger(text: string)
    | MissingInteger(text: string)
    | NegateOperation
    | BinaryOperation(operation: string)
    | Gadget(cause: GadgetError)

  /** How building a value can end badly: a returned error, or a panic carrying the error that was unwrapped. */
  datatype Halt = Returned(error: IntegerError) | Panic(cause: IntegerError)

  datatype SynthesisError = Unsatisfiable

  // The integer types.

  function Width(ty: IntegerType): (w: nat)
    ensures w >= 8
  {
    match ty
    case U8 | I8 => 8
    case U16 | I16 => 16
    case U32 | I32 => 32
    case U64 | I64 => 64
    case U128 | I128 => 128
  }

  predicate IsSigned(ty: IntegerType) {
    ty.I8? || ty.I16? || ty.I32? || ty.I64? || ty.I128?
  }

  function TypeMin(ty: IntegerType): int {
    if IsSigned(ty) then Min(Width(ty)) else 0
  }

  function TypeMax(ty: IntegerType): int {
    if IsSigned(ty) then Max(Width(ty)) else Pow2(Width(ty)) - 1
  }

  predicate InTypeRange(ty: IntegerType, v: int) {
    TypeMin(ty) <= v <= TypeMax(ty)
  }

  /** The name of a type, as `missing_integer` and `Display` print it. */
  function TypeName(ty: IntegerType): string {
    match ty
    case U8 => "u8"
    case U16 => "u16"
    case U32 => "u32"
    case U64 => "u64"
    case U128 => "u128"
    case I8 => "i8"
    case I16 => "i16"
    case I32 => "i32"
    case I64 => "i64"
    case I128 => "i128"
  }

  /** The variant of `ty` holding `v`. */
  function Make(ty: IntegerType, v: Option<int>): Integer {
    Integer(ty, v)
  }

  /** `get_type`: the tag of the variant. */
  function GetType(x: Integer): IntegerType {
    x.ty
  }

  /** A gadget of a width holds a value of that width. */
  predicate Valid(x: Integer) {
    x.value.Some? ==> InTypeRange(GetType(x), x.value.value)
  }

  // Decimal text, as Rust's `Display` writes and `str::parse` reads integers.

  predicate IsDigit(c: char) {
    '0' <= c <= '9'
  }

  function DigitChar(d: nat): (c: char)
    requires d < 10
    ensures IsDigit(c) && c as int - '0' as int == d
  {
    ('0' as int + d) as char
  }

  /** The number a non-empty run of decimal digits stands for; `None` for anything else. */
  function Digits(s: string): Option<nat> {
    if |s| == 0 || !IsDigit(s[|s| - 1]) then None
    else if |s| == 1 then Some(s[0] as int - '0' as int)
    else
      var high :- Digits(s[..|s| - 1]);
      Some(10 * high + (s[|s| - 1] as int - '0' as int))
  }

  /** The decimal digits of `n`, most significant first, without leading zeros. */
  function NaturalText(n: nat): (s: string)
    ensures |s| >= 1 && IsDigit(s[0])
  {
    if n < 10 then [DigitChar(n)] else NaturalText(n / 10) + [DigitChar(n % 10)]
  }

  /** How an integer prints: a minus sign for negative numbers, then the digits. */
  function DecimalText(v: int): string {
    if v < 0 then "-" + NaturalText(-v) else NaturalText(v)
  }

  /**
   * The number an optionally signed run of digits stands for: one `+`, or one
   * `-` when `signed`, then at least one digit.
   */
  function SignedDigits(s: string, signed: bool): Option<int> {
    if |s| == 0 || ((s[0] == '+' || s[0] == '-') && |s| == 1) then None
    else if s[0] == '+' then Digits(s[1..])
    else if s[0] == '-' && signed then
      var d := Digits(s[1..]);
      if d.Some? then Some(-(d.value as int)) else None
    else Digits(s)
  }

  /**
   * `str::parse` at an integer type of the given signedness and range. Each
   * failure of Rust's parser (empty, invalid digit, too large, too small) is
   * `None`.
   */
  function Parse(s: string, signed: bool, lo: int, hi: int): (r: Option<int>)
    ensures r.Some? ==> lo <= r.value <= hi
  {
    var v :- SignedDigits(s, signed);
    if lo <= v <= hi then Some(v) else None
  }

  /** `parse::<T>()` for the Rust type behind the integer type `ty`. */
  function ParseAt(ty: IntegerType, s: string): Option<int> {
    Parse(s, IsSigned(ty), TypeMin(ty), TypeMax(ty))
  }

  /** Reading the digits of `n` gives back `n`. */
  lemma {:induction false} DigitsOfText(n: nat)
    ensures Digits(NaturalText(n)) == Some(n)
  {
    if n >= 10 {
      DigitsOfText(n / 10);
      var s := NaturalText(n);
      assert s[..|s| - 1] == NaturalText(n / 10);
    }
  }

  /** Printing a number and parsing it back gives the number, when it is in range. */
  lemma ParseText(v: int, signed: bool, lo: int, hi: int)
    requires v < 0 ==> signed
    ensures SignedDigits(DecimalText(v), signed) == Some(v)
    ensures Parse(DecimalText(v), signed, lo, hi) == if lo <= v <= hi then Some(v) else None
  {
    DigitsOfText(if v < 0 then -v else v);
    if v < 0 {
      assert DecimalText(v)[1..] == NaturalText(-v);
    }
  }

  /** A `+` or `-` on its own is not a number. */
  lemma SignAloneFails(s: string, signed: bool, lo: int, hi: int)
    requires s == "+" || s == "-"
    ensures Parse(s, signed, lo, hi) == None
  {
  }

  /** An unsigned type rejects every negative literal. */
  lemma UnsignedRejectsMinus(s: string, lo: int, hi: int)
    requires |s| >= 1 && s[0] == '-'
    ensures Parse(s, false, lo, hi) == None
  {
    assert !IsDigit(s[0]);
    DigitsNoSign(s);
  }

  lemma {:induction false} DigitsNoSign(s: string)
    requires |s| >= 1 && !IsDigit(s[0])
    ensures Digits(s) == None
  {
    if |s| > 1 {
      DigitsNoSign(s[..|s| - 1]);
    }
  }

  // The operations of `Integer`.

  /** `Integer::new`: the constant of the same type holding the same value. */
  function New(c: ConstInt): (x: Integer)
    requires InTypeRange(c.ty, c.value)
    ensures GetType(x) == c.ty && x.value == Some(c.value) && Valid(x)
  {
    Make(c.ty, Some(c.value))
  }

  /** `get_value`: the decimal text of a known value. */
  function GetValue(x: Integer): (r: Option<string>)
    ensures r.Some? <==> x.value.Some?
  {
    if x.value.Some? then Some(DecimalText(x.value.value)) else None
  }

  /** `Display`: the number when it is known, `[input]` and the type name otherwise. */
  function Display(x: Integer): (s: string)
    ensures x.value.None? ==> s == "[input]" + TypeName(GetType(x))
  {
    match GetValue(x)
    case Some(number) => number
    case None => "[input]" + TypeName(GetType(x))
  }

  /** The text of a known valid value parses back at its type; the text of an unknown one never does. */
  lemma DisplayParses(x: Integer)
    requires Valid(x)
    ensures x.value.Some? ==> ParseAt(GetType(x), Display(x)) == x.value
    ensures x.value.None? ==> ParseAt(GetType(x), Display(x)) == None
  {
    var ty := GetType(x);
    if x.value.Some? {
      ParseText(x.value.value, IsSigned(ty), TypeMin(ty), TypeMax(ty));
    } else {
      var s := Display(x);
      assert s[0] == '[' && s[0] != '+' && s[0] != '-';
      DigitsNoSign(s);
    }
  }

  /** `usize` on the 64-bit targets the compiler runs on. */
  const UsizeMax: int := Pow2(64) - 1

  /**
   * `to_usize`: only unsigned variants are read as indices; an unknown value
   * (or a signed variant) is an invalid index, and a number that does not fit
   * `usize` is an invalid integer carrying its text.
   */
  function ToUsize(x: Integer): (r: Result<nat, IntegerError>)
    requires Valid(x)
    ensures r.Success? <==> !IsSigned(GetType(x)) && x.value.Some? && x.value.value <= UsizeMax
    ensures r.Success? ==> x.value == Some(r.value)
    ensures r == Failure(InvalidIndex) <==> IsSigned(GetType(x)) || x.value.None?
    ensures r.Failure? && r != Failure(InvalidIndex) ==> r == Failure(InvalidInteger(GetValue(x).value))
  {
    var text := if IsSigned(GetType(x)) then None else GetValue(x);
    if text.None? then Failure(InvalidIndex)
    else
      ParseText(x.value.value, false, 0, UsizeMax);
      var parsed := Parse(text.value, false, 0, UsizeMax);
      if parsed.Some? then Success(parsed.value) else Failure(InvalidInteger(text.value))
  }

  /**
   * `allocate_type`: the optional text is parsed at the declared type, and a
   * text that does not parse makes `unwrap` panic. Allocating a variable whose
   * value is missing fails when the constraint system needs the value
   * (`needsValue`: it is computing a witness rather than only the shape of the
   * circuit).
   */
  function AllocateType(ty: IntegerType, name: string, option: Option<string>, needsValue: bool): (r: Result<Integer, Halt>)
    ensures r.Success? ==> GetType(r.value) == ty && Valid(r.value)
    ensures option.Some? ==>
              (r.Success? <==> ParseAt(ty, option.value).Some?) &&
              (r.Success? ==> r.value.value == ParseAt(ty, option.value)) &&
              (r.Failure? ==> r.error == Panic(InvalidInteger(option.value)))
    ensures option.None? ==>
              (r.Success? <==> !needsValue) &&
              (r.Success? ==> r.value.value.None?) &&
              (r.Failure? ==> r.error == Returned(MissingInteger(name + ": " + TypeName(ty))))
  {
    match option
    case Some(s) =>
      (match ParseAt(ty, s)
       case None => Failure(Panic(InvalidInteger(s)))
       case Some(v) => Success(Make(ty, Some(v))))
    case None =>
      if needsValue then Failure(Returned(MissingInteger(name + ": " + TypeName(ty))))
      else Success(Make(ty, None))
  }

  /**
   * `from_input`: an integer input's text is allocated at the declared type,
   * whatever type the input itself names; any other input is an invalid
   * integer; no input at all is an unknown value.
   */
  function FromInput(ty: IntegerType, name: string, input: Option<InputValue>, needsValue: bool): (r: Result<Integer, Halt>)
    ensures input.Some? && input.value.OtherInput? ==> r == Failure(Returned(InvalidInteger(input.value.text)))
    ensures input.Some? && input.value.IntegerInput? ==> r == AllocateType(ty, name, Some(input.value.number), needsValue)
    ensures input.None? ==> r == AllocateType(ty, name, None, needsValue)
  {
    var option :- match input
                  case Some(IntegerInput(_, number)) => Success(Some(number))
                  case Some(OtherInput(text)) => Failure(Returned(InvalidInteger(text)))
                  case None => Success(None);
    AllocateType(ty, name, option, needsValue)
  }

  /** The declared type wins: two integer inputs with the same text give the same value. */
  lemma FromInputIgnoresInputType(ty: IntegerType, name: string, t1: IntegerType, t2: IntegerType, number: string, needsValue: bool)
    ensures FromInput(ty, name, Some(IntegerInput(t1, number)), needsValue)
         == FromInput(ty, name, Some(IntegerInput(t2, number)), needsValue)
    ensures FromInput(ty, name, Some(IntegerInput(t1, number)), needsValue).Success? ==>
              GetType(FromInput(ty, name, Some(IntegerInput(t1, number)), needsValue).value) == ty
  {
  }

  // Bounded arithmetic of the per-width gadgets.

  /**
   * The result value of a gadget operation whose exact result on known operands
   * is `exact`: out of range is an overflow, and an unknown operand gives an
   * unknown result.
   */
  function Bounded(ty: IntegerType, known: bool, exact: int): (r: Result<Option<int>, IntegerError>)
    ensures r.Failure? <==> known && !InTypeRange(ty, exact)
    ensures r.Failure? ==> r.error == Gadget(SignedInteger.Overflow)
    ensures r.Success? ==> r.value == if known then Some(exact) else None
  {
    if !known then Success(None)
    else if InTypeRange(ty, exact) then Success(Some(exact))
    else Failure(Gadget(SignedInteger.Overflow))
  }

  /** `negate`: only the signed variants negate; negating a known `MIN` overflows. */
  function Negate(x: Integer): (r: Result<Integer, IntegerError>)
    requires Valid(x)
    ensures !IsSigned(GetType(x)) ==> r == Failure(NegateOperation)
    ensures IsSigned(GetType(x)) ==>
              (r.Failure? <==> x.value == Some(TypeMin(GetType(x)))) &&
              (r.Failure? ==> r.error == Gadget(SignedInteger.Overflow))
    ensures r.Success? ==> GetType(r.value) == GetType(x) && Valid(r.value) &&
                           r.value.value == if x.value.Some? then Some(-x.value.value) else None
  {
    var ty := GetType(x);
    if !IsSigned(ty) then Failure(NegateOperation)
    else if x.value.None? then Success(Make(ty, None))
    else
      SignedTypeRange(ty, x.value.value);
      SignedTypeRange(ty, -x.value.value);
      NegationRange(Width(ty), x.value.value);
      var v :- Bounded(ty, true, -x.value.value);
      Success(Make(ty, v))
  }

  /** Of the values of a width, only the minimum has no negation of that width. */
  lemma NegationRange(w: nat, v: int)
    requires w >= 1 && InRange(w, v)
    ensures InRange(w, -v) <==> v != Min(w)
  {
  }

  /** The operand values, when both are known. */
  function BothKnown(x: Integer, y: Integer): bool {
    x.value.Some? && y.value.Some?
  }

  /** `add`: operands of one type; the sum, bounded by that type. */
  function Add(x: Integer, y: Integer): (r: Result<Integer, IntegerError>)
    requires Valid(x) && Valid(y)
    ensures GetType(x) != GetType(y) ==> r == Failure(BinaryOperation("+"))
    ensures GetType(x) == GetType(y) ==>
              (r.Failure? <==> BothKnown(x, y) && !InTypeRange(GetType(x), x.value.value + y.value.value))
    ensures r.Success? ==> GetType(r.value) == GetType(x) && Valid(r.value) &&
                           r.value.value == if BothKnown(x, y) then Some(x.value.value + y.value.value) else None
  {
    if GetType(x) != GetType(y) then Failure(BinaryOperation("+"))
    else
      var v :- Bounded(GetType(x), BothKnown(x, y), if BothKnown(x, y) then x.value.value + y.value.value else 0);
      Success(Make(GetType(x), v))
  }

  /**
   * `sub`: operands of one type. A signed subtraction is the addition of the
   * negated subtrahend, so a known `MIN` subtrahend fails whatever the other
   * operand is; an unsigned one fails below zero.
   */
  function Sub(x: Integer, y: Integer): (r: Result<Integer, IntegerError>)
    requires Valid(x) && Valid(y)
    ensures GetType(x) != GetType(y) ==> r == Failure(BinaryOperation("-"))
    ensures GetType(x) == GetType(y) && IsSigned(GetType(x)) && y.value == Some(TypeMin(GetType(x))) ==>
              r == Failure(Gadget(SignedInteger.Overflow))
    ensures GetType(x) == GetType(y) && BothKnown(x, y) && y.value != Some(TypeMin(GetType(x))) ==>
              (r.Success? <==> InTypeRange(GetType(x), x.value.value - y.value.value))
    ensures r.Success? ==> GetType(r.value) == GetType(x) && Valid(r.value) &&
                           r.value.value == if BothKnown(x, y) then Some(x.value.value - y.value.value) else None
  {
    var ty := GetType(x);
    if ty != GetType(y) then Failure(BinaryOperation("-"))
    else if IsSigned(ty) && y.value == Some(TypeMin(ty)) then Failure(Gadget(SignedInteger.Overflow))
    else
      var v :- Bounded(ty, BothKnown(x, y), if BothKnown(x, y) then x.value.value - y.value.value else 0);
      Success(Make(ty, v))
  }

  /** `mul`: operands of one type; the product, bounded by that type. */
  function Mul(x: Integer, y: Integer): (r: Result<Integer, IntegerError>)
    requires Valid(x) && Valid(y)
    ensures GetType(x) != GetType(y) ==> r == Failure(BinaryOperation("*"))
    ensures GetType(x) == GetType(y) ==>
              (r.Failure? <==> BothKnown(x, y) && !InTypeRange(GetType(x), x.value.value * y.value.value))
    ensures r.Success? ==> GetType(r.value) == GetType(x) && Valid(r.value) &&
                           r.value.value == if BothKnown(x, y) then Some(x.value.value * y.value.value) else None
  {
    if GetType(x) != GetType(y) then Failure(BinaryOperation("*"))
    else
      var v :- Bounded(GetType(x), BothKnown(x, y), if BothKnown(x, y) then x.value.value * y.value.value else 0);
      Success(Make(GetType(x), v))
  }

  /**
   * The quotient a division gadget computes: truncation toward zero, which for
   * the unsigned types is ordinary integer division. For the signed types this
   * is the corrected division gadget (`MIN / -1` overflows).
   */
  function Quotient(n: int, d: int): int
    requires d != 0
  {
    SignedDiv.TruncDiv(n, d)
  }

  /** `div`: operands of one type; a divisor known to be zero fails first. */
  function Div(x: Integer, y: Integer): (r: Result<Integer, IntegerError>)
    requires Valid(x) && Valid(y)
    ensures GetType(x) != GetType(y) ==> r == Failure(BinaryOperation("÷"))
    ensures GetType(x) == GetType(y) && y.value == Some(0) ==> r == Failure(Gadget(SignedInteger.DivisionByZero))
    ensures GetType(x) == GetType(y) && BothKnown(x, y) && y.value != Some(0) ==>
              (r.Failure? <==> IsSigned(GetType(x)) && x.value == Some(TypeMin(GetType(x))) && y.value == Some(-1))
    ensures r.Success? && BothKnown(x, y) ==>
              r.value.value.Some? && TruncatedQuotient(r.value.value.value, x.value.value, y.value.value)
    ensures GetType(x) == GetType(y) && IsSigned(GetType(x)) && x.value == Some(0) && y.value != Some(0) ==>
              r == Success(x)
    ensures r.Success? ==> GetType(r.value) == GetType(x) && Valid(r.value) &&
                           (r.value.value.Some? <==> BothKnown(x, y) || (IsSigned(GetType(x)) && x.value == Some(0)))
  {
    var ty := GetType(x);
    if ty != GetType(y) then Failure(BinaryOperation("÷"))
    else if y.value == Some(0) then Failure(Gadget(SignedInteger.DivisionByZero))
    else if IsSigned(ty) && x.value == Some(0) then
      // The signed gadget returns a dividend known to be zero as it is.
      Success(x)
    else
      var known := BothKnown(x, y);
      if known then
        QuotientRange(ty, x.value.value, y.value.value);
        QuotientTruncates(x.value.value, y.value.value);
        var v :- Bounded(ty, true, Quotient(x.value.value, y.value.value));
        Success(Make(ty, v))
      else
        Success(Make(ty, None))
  }

  /**
   * `q` is `n / d` rounded toward zero: its sign is the sign of the exact
   * quotient, and its magnitude is the largest whose multiple of `|d|` does not
   * exceed `|n|`.
   */
  predicate TruncatedQuotient(q: int, n: int, d: int) {
    (q == 0 || (q < 0 <==> (n < 0) != (d < 0))) &&
    SignedDiv.Abs(q) * SignedDiv.Abs(d) <= SignedDiv.Abs(n) < (SignedDiv.Abs(q) + 1) * SignedDiv.Abs(d)
  }

  /** A truncated quotient of in-range operands is in range, except `MIN / -1`. */
  lemma QuotientRange(ty: IntegerType, n: int, d: int)
    requires InTypeRange(ty, n) && InTypeRange(ty, d) && d != 0
    ensures InTypeRange(ty, Quotient(n, d)) <==> !(IsSigned(ty) && n == TypeMin(ty) && d == -1)
  {
    var q := Quotient(n, d);
    if IsSigned(ty) {
      SignedTypeRange(ty, n);
      SignedTypeRange(ty, d);
      SignedTypeRange(ty, q);
      SignedQuotientRange(Width(ty), n, d);
    } else {
      UnsignedTypeRange(ty, n);
      UnsignedTypeRange(ty, d);
      UnsignedTypeRange(ty, q);
      UnsignedQuotientRange(n, d);
    }
  }

  /** The range of a signed type is the two's-complement range of its width. */
  lemma SignedTypeRange(ty: IntegerType, v: int)
    requires IsSigned(ty)
    ensures Width(ty) >= 2 && TypeMin(ty) == Min(Width(ty))
    ensures InTypeRange(ty, v) <==> InRange(Width(ty), v)
  {
    assert TypeMin(ty) == Min(Width(ty)) && TypeMax(ty) == Max(Width(ty));
  }

  /** The range of an unsigned type starts at zero. */
  lemma UnsignedTypeRange(ty: IntegerType, v: int)
    requires !IsSigned(ty)
    ensures TypeMin(ty) == 0 && TypeMax(ty) >= 0
    ensures InTypeRange(ty, v) <==> 0 <= v <= TypeMax(ty)
  {
    assert TypeMax(ty) == Pow2(Width(ty)) - 1;
  }

  /** The unsigned part of `QuotientRange`: the quotient lies between zero and the dividend. */
  lemma UnsignedQuotientRange(n: int, d: int)
    requires 0 <= n && 0 < d
    ensures 0 <= Quotient(n, d) <= n
  {
    QuotientMagnitude(n, d);
    SignedDiv.QuotientAtMost(n, d);
  }

  lemma QuotientTruncates(n: int, d: int)
    requires d != 0
    ensures TruncatedQuotient(Quotient(n, d), n, d)
  {
    QuotientMagnitude(n, d);
    DivBounds(SignedDiv.Abs(n), SignedDiv.Abs(d));
  }

  /** The signed part of `QuotientRange`: only `MIN / -1` leaves the range. */
  lemma SignedQuotientRange(w: nat, n: int, d: int)
    requires w >= 2 && InRange(w, n) && InRange(w, d) && d != 0
    ensures InRange(w, Quotient(n, d)) <==> !(n == Min(w) && d == -1)
  {
    var a, b := SignedDiv.Abs(n), SignedDiv.Abs(d);
    var q := Quotient(n, d);
    QuotientMagnitude(n, d);
    assert SignedDiv.Abs(q) == a / b;
    if b == 1 {
      SignedDiv.DivUnique(a, 1, a, 0);
      assert SignedDiv.Abs(q) == a;
    } else {
      SignedDiv.HalfBound(a, b);
      SignedDiv.DivUnique(Pow2(w - 1), 2, Pow2(w - 2), 0);
      assert SignedDiv.Abs(q) <= Max(w);
    }
  }

  lemma QuotientMagnitude(n: int, d: int)
    requires d != 0
    ensures SignedDiv.Abs(Quotient(n, d)) == SignedDiv.Abs(n) / SignedDiv.Abs(d)
    ensures Quotient(n, d) == 0 || (Quotient(n, d) < 0 <==> (n < 0) != (d < 0))
  {
    var a, b := SignedDiv.Abs(n), SignedDiv.Abs(d);
    DivNonNegative(a, b);
    var m: int := a / b;
    if (n < 0) == (d < 0) {
      assert Quotient(n, d) == m;
    } else {
      assert Quotient(n, d) == -m;
      assert SignedDiv.Abs(-m) == m;
    }
  }

  lemma DivNonNegative(a: nat, b: nat)
    requires b > 0
    ensures a / b >= 0
  {
  }

  lemma DivBounds(a: nat, b: nat)
    requires b > 0
    ensures (a / b) * b <= a < (a / b + 1) * b
  {
    assert a == (a / b) * b + a % b;
  }

  /** The power `b^e` for a non-negative exponent. */
  function Power(b: int, e: nat): int {
    if e == 0 then 1 else b * Power(b, e - 1)
  }

  /**
   * `pow`: operands of one type; the power, bounded by that type. A negative
   * exponent is treated as an overflow.
   */
  function Pow(x: Integer, y: Integer): (r: Result<Integer, IntegerError>)
    requires Valid(x) && Valid(y)
    ensures GetType(x) != GetType(y) ==> r == Failure(BinaryOperation("**"))
    ensures GetType(x) == GetType(y) && BothKnown(x, y) && y.value.value >= 0 ==>
              (r.Failure? <==> !InTypeRange(GetType(x), Power(x.value.value, y.value.value)))
    ensures r.Success? ==> GetType(r.value) == GetType(x) && Valid(r.value) &&
                           (r.value.value.Some? <==> BothKnown(x, y)) &&
                           (BothKnown(x, y) ==> y.value.value >= 0 &&
                                                r.value.value == Some(Power(x.value.value, y.value.value)))
  {
    var ty := GetType(x);
    if ty != GetType(y) then Failure(BinaryOperation("**"))
    else if BothKnown(x, y) && y.value.value < 0 then Failure(Gadget(SignedInteger.Overflow))
    else
      var v :- Bounded(ty, BothKnown(x, y), if BothKnown(x, y) then Power(x.value.value, y.value.value) else 0);
      Success(Make(ty, v))
  }

  /** Subtracting is adding the negation, with the negation's error first (for a signed type). */
  lemma SubIsAddOfNegation(x: Integer, y: Integer)
    requires Valid(x) && Valid(y) && GetType(x) == GetType(y) && IsSigned(GetType(x))
    ensures Negate(y).Failure? ==> Sub(x, y) == Failure(Negate(y).error)
    ensures Negate(y).Success? ==> Sub(x, y) == Add(x, Negate(y).value)
  {
    var ty := GetType(x);
    if y.value.None? {
      assert Negate(y) == Success(Make(ty, None));
    } else if y.value.value != TypeMin(ty) {
      assert Negate(y) == Success(Make(ty, Some(-y.value.value)));
      if x.value.Some? {
        assert x.value.value + -y.value.value == x.value.value - y.value.value;
      }
    }
  }

  // Comparison and selection, defined only for operands of one type.

  /** `evaluate_equal`: a boolean whose value is known when both operands are. */
  function EvaluateEqual(x: Integer, y: Integer): (r: Result<Option<bool>, SynthesisError>)
    ensures r.Failure? <==> GetType(x) != GetType(y)
    ensures r.Success? ==> (r.value.Some? <==> BothKnown(x, y))
    ensures r.Success? && BothKnown(x, y) ==> (r.value.value <==> x == y)
  {
    if GetType(x) != GetType(y) then Failure(Unsatisfiable)
    else if BothKnown(x, y) then Success(Some(x.value == y.value))
    else Success(None)
  }

  /** `less_than`: a boolean whose value is known when both operands are. */
  function LessThan(x: Integer, y: Integer): (r: Result<Option<bool>, SynthesisError>)
    ensures r.Failure? <==> GetType(x) != GetType(y)
    ensures r.Success? ==> (r.value.Some? <==> BothKnown(x, y))
    ensures r.Success? && BothKnown(x, y) ==> (r.value.value <==> x.value.value < y.value.value)
  {
    if GetType(x) != GetType(y) then Failure(Unsatisfiable)
    else if BothKnown(x, y) then Success(Some(x.value.value < y.value.value))
    else Success(None)
  }

  /**
   * `conditional_enforce_equal`: the constraint "if `condition` then equal".
   * The result says whether the known values satisfy it.
   */
  function ConditionalEnforceEqual(x: Integer, y: Integer, condition: bool): (r: Result<Option<bool>, SynthesisError>)
    ensures r.Failure? <==> GetType(x) != GetType(y)
    ensures r.Success? ==> (r.value.Some? <==> BothKnown(x, y))
    ensures r.Success? && BothKnown(x, y) ==> (r.value.value <==> !condition || x == y)
  {
    if GetType(x) != GetType(y) then Failure(Unsatisfiable)
    else if BothKnown(x, y) then Success(Some(!condition || x.value == y.value))
    else Success(None)
  }

  /** `conditionally_select`: the chosen operand, when both have the same variant. */
  function ConditionallySelect(condition: bool, first: Integer, second: Integer): (r: Result<Integer, SynthesisError>)
    ensures r.Failure? <==> GetType(first) != GetType(second)
    ensures r.Success? ==> GetType(r.value) == GetType(first) &&
                           r.value == (if condition then first else second)
  {
    if GetType(first) != GetType(second) then Failure(Unsatisfiable)
    else Success(if condition then first else second)
  }
}
