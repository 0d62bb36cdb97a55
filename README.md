# Leo: signed division and subtraction gadgets, the `Integer` value, the reconstructing director

This project models four pieces of the Leo compiler in Dafny and proves
properties of them.

- **The signed division gadget** (`Div::div` for `Int8` … `Int128`). It performs
  restoring long division on the magnitudes of two two's-complement integers.
  It then fixes the sign and patches three cases: a `MIN` divisor, `MIN / MIN`
  and a zero dividend.
  - A gadget is its little-endian witness bits (sign bit last) plus an optional
    known value. Each `conditionally_select(c, x, y)` is `if c then x else y`.
  - The loop over the magnitude bits is a `for` loop. Its invariants carry
    two facts: the processed numerator prefix equals `q·b + r` with
    `0 <= r < b`, and the quotient's bits agree with its value.
  - The gadget is modelled as written (`SignedDiv.Div`) and with its `MIN`
    dividend corrected (`SignedDiv.DivCorrected`); see "Findings".
- **The signed subtraction gadget** (`Sub::sub`): negate the subtrahend, then add.
  The negation and addition gadgets appear as bounded-arithmetic contracts.
  They fail with `Overflow` only when the operands' values are known and the
  exact result leaves `[MIN, MAX]`.
- **The compiler's `Integer` value** (`integer.rs`). It is an enum with one
  variant per integer type, and each variant holds a gadget of that width.
  - It is modelled as the pair `Integer(ty, value)`. The tag `ty` is the
    variant, which is what `get_type` returns; `value` is the gadget's
    optional value.
  - The per-width gadget operations are bounded arithmetic over the type's
    range.
  - Decimal text (`Display`, `str::parse`) is modelled character by character,
    so parsing a printed value back can be proved.
- **The reconstructing AST director** (`ReconstructingDirector`). It rebuilds
  every node of a cut-down AST from its reduced children and hands the result
  to a reducer hook.
  - The hooks are function-valued fields of a `Reducer` record.
  - The walk is specified by pure functions over the reducer and the
    `in_circuit` flag (module `Reconstruction`).
  - The class `Director.ReconstructingDirector` has the mutable `inCircuit`
    field. Its loop methods are proved to compute those functions, and the
    flag's final value is stated exactly.

Modules: `Wrappers` (Option/Result), `Bits` (two's complement bit strings),
`SignedInteger`, `SignedDiv`, `IntegerValue`, `Ast`, `Reconstruction`,
`ReconstructionProperties`, `Director`.

Two behaviours of the code deserve a note:
- the pseudocode comment in div.rs promises truncating division for every
  dividend, but the code divides `MAX` instead of `abs(MIN)`. The gadget
  model (`SignedDiv.Div`) follows the code; `IntegerValue.Div` uses the
  corrected division instead (see "Findings" and "Left out");
- `sub.rs` negates the subtrahend before adding, so by the code's own rule
  a `MIN` subtrahend fails even when `a - MIN` is in range. The model keeps
  that rule.

## Model

| member | source | states |
|---|---|---|
| SignedDiv.Div | gadgets/src/signed_integer/arithmetic/div.rs:62-246 | Fails exactly on a divisor known to be 0, with `DivisionByZero`. Otherwise its value equals `DivAsWritten` of the operands. A known-zero dividend is returned unchanged. |
| SignedDiv.DivAsWrittenTruncates | gadgets/src/signed_integer/arithmetic/div.rs:39-60 | For every dividend other than `MIN` (and for `MIN / MIN`) the gadget's value is division truncated toward zero, as the pseudocode promises. |
| SignedDiv.DivAsWrittenMinDividend | gadgets/src/signed_integer/arithmetic/div.rs:114-122 | With dividend `MIN` the result equals truncated division exactly when `abs(d)` does not divide `2^(w-1)`. |
| SignedDiv.DivMinByTwo | gadgets/src/signed_integer/arithmetic/div.rs:114-143 | In `i8`, `-128 / 2` gives -63, while truncated division gives -64. |
| SignedDiv.RestoringDivide | gadgets/src/signed_integer/arithmetic/div.rs:153-214 | The loop over the `SIZE-1` magnitude bits, most significant first: the quotient is known and non-negative; for a positive divisor, quotient and remainder are `a / b` and `a % b`. |
| SignedDiv.DivideStep | gadgets/src/signed_integer/arithmetic/div.rs:159-212 | One loop pass doubles the remainder and adds the numerator bit. It subtracts the divisor and sets quotient bit `index` (adding `bit_value` to the value) exactly when the remainder has reached the divisor. |
| SignedDiv.RemainderStep | gadgets/src/signed_integer/arithmetic/div.rs:48-55 | One restoring step keeps `q·b + r = prefix` and `0 <= r < b` for the prefix extended by one bit, and `r` never exceeds the prefix. |
| SignedDiv.ShiftFits | gadgets/src/signed_integer/arithmetic/div.rs:162-171 | The doubled remainder plus one stays within `MAX`, so the loop's additions never overflow. |
| SignedDiv.NumeratorStep | gadgets/src/signed_integer/arithmetic/div.rs:159-178 | Bringing down the next numerator bit doubles the processed prefix and adds the bit. |
| SignedDiv.QuotientStep | gadgets/src/signed_integer/arithmetic/div.rs:197-212 | The quotient bits from `index` up read as the earlier quotient doubled plus the new bit. |
| SignedDiv.SetQuotientBit | gadgets/src/signed_integer/arithmetic/div.rs:199-203 | Setting a clear bit below the sign bit adds `2^index` to the value and keeps bits and value consistent. |
| SignedDiv.ProgressStart | gadgets/src/signed_integer/arithmetic/div.rs:153-157 | The loop starts with zero quotient and remainder and nothing brought down. |
| SignedDiv.ProgressBounds | gadgets/src/signed_integer/arithmetic/div.rs:156-157 | Before each pass the quotient bit `index` is clear and `bit_value` is `2^index`. |
| SignedDiv.RemainderProgressStep | gadgets/src/signed_integer/arithmetic/div.rs:159-195 | A pass extends the remainder invariant by one numerator bit, and the quotient doubles plus the comparison bit. |
| SignedDiv.QuotientProgressStep | gadgets/src/signed_integer/arithmetic/div.rs:197-212 | A pass that sets quotient bit `w-1-i`, or leaves the quotient alone, keeps the quotient invariant. |
| SignedDiv.Advance | gadgets/src/signed_integer/arithmetic/div.rs:159-214 | One pass re-establishes both loop invariants for one more bit. |
| SignedDiv.DivisionExit | gadgets/src/signed_integer/arithmetic/div.rs:214 | At exit the processed prefix is the whole magnitude, so the quotient and remainder are those of `a / b`. |
| SignedDiv.Magnitudes | gadgets/src/signed_integer/arithmetic/div.rs:114-151 | The magnitudes are `MAX` for a `MIN` dividend and `abs(n)` otherwise, and 1 for a `MIN` divisor and `abs(d)` otherwise. |
| SignedDiv.TruncDivRemainder | gadgets/src/signed_integer/arithmetic/div.rs:39-60 | The reference truncating division leaves a remainder smaller than the divisor with the sign of the dividend. |
| SignedDiv.CorrectedCases | gadgets/src/signed_integer/arithmetic/div.rs:216-223 | The corrected magnitude (plus the lost unit for a `MIN` dividend) is the magnitude of the truncating quotient. |
| SignedDiv.RemainderCarry | gadgets/src/signed_integer/arithmetic/div.rs:114-122 | The corrected gadget's carry is 1 exactly for a `MIN` dividend whose remainder is one short of the divisor. |
| SignedDiv.ApplySign | gadgets/src/signed_integer/arithmetic/div.rs:216-223 | The quotient with its sign re-applied. It overflows only on the positive side above `MAX`. |
| SignedDiv.DivCorrected | gadgets/src/signed_integer/arithmetic/div.rs:39-64 | The corrected gadget divides as truncated division for all operands. It fails with `DivisionByZero` on 0 and `Overflow` on `MIN / -1`. |
| SignedDiv.CorrectedValue | gadgets/src/signed_integer/arithmetic/div.rs:216-246 | The value reasoning of the corrected gadget: sign fix, `MIN` patches, zero dividend. |
| SignedInteger.Neg | gadgets/src/signed_integer/arithmetic/sub.rs:29 | Negation fails exactly for a known `MIN`, with `Overflow`; otherwise the value is negated. |
| SignedInteger.Add | gadgets/src/signed_integer/arithmetic/sub.rs:32 | Addition fails exactly when both values are known and the sum leaves the range; otherwise the value is the sum. |
| SignedInteger.Sub | gadgets/src/signed_integer/arithmetic/sub.rs:27-33 | A known `MIN` subtrahend always fails with `Overflow`. Otherwise known operands succeed exactly when `a - b` is in range, and the result is `a - b`. The result is known exactly when both operands are. |
| SignedInteger.Constant | gadgets/src/signed_integer/arithmetic/div.rs:62 | A constant's bits encode its value. |
| SignedInteger.EqualsConstant | gadgets/src/signed_integer/arithmetic/div.rs:62-64 | A valid gadget equals the constant `v` exactly when its value is known to be `v` (the divide-by-zero test). |
| SignedInteger.SameBitsSameWitness | gadgets/src/signed_integer/arithmetic/div.rs:99-106 | Two gadgets have equal bits exactly when their witnesses are equal (the `MIN` tests). |
| SignedInteger.WitnessInRange | gadgets/src/signed_integer/arithmetic/div.rs:131-134 | The last bit is set exactly for a negative witness. |
| Bits.DecodeEncode | gadgets/src/signed_integer/arithmetic/div.rs:131-133 | Decoding the two's complement bits of an in-range value gives the value back. |
| Bits.EncodeDecode | gadgets/src/signed_integer/arithmetic/div.rs:131-133 | Every bit string is the encoding of the number it decodes to. |
| Bits.SignBit | gadgets/src/signed_integer/arithmetic/div.rs:131-134 | The sign bit is set exactly for negative numbers, and every decoding is in range. |
| IntegerValue.New | compiler/src/value/integer/integer.rs:72-85 | The constant has the constant's type (`get_type` of it is that type) and holds its value. |
| IntegerValue.GetValue | compiler/src/value/integer/integer.rs:112-115 | A text exactly when the value is known. |
| IntegerValue.Display | compiler/src/value/integer/integer.rs:55-63 | An unknown value prints as `[input]` followed by the type name. |
| IntegerValue.DisplayParses | compiler/src/value/integer/integer.rs:55-63 | A known value's text parses back to the value at its type; an unknown value's text never parses. |
| IntegerValue.ParseText | compiler/src/value/integer/integer.rs:117-126 | Printing a number and parsing it gives the number when it is in range, and fails otherwise. |
| IntegerValue.DigitsOfText | compiler/src/value/integer/integer.rs:112-115 | Reading the digits of `n` gives `n` back. |
| IntegerValue.SignAloneFails | compiler/src/value/integer/integer.rs:152-157 | A sign on its own does not parse. |
| IntegerValue.UnsignedRejectsMinus | compiler/src/value/integer/integer.rs:152-157 | An unsigned type rejects every text starting with `-`. |
| IntegerValue.ToUsize | compiler/src/value/integer/integer.rs:117-126 | Succeeds exactly for a known unsigned value up to the `usize` maximum, returning the value. Fails with `invalid_index` exactly for an unknown or signed value, and with `invalid_integer` carrying the decimal text otherwise. |
| IntegerValue.AllocateType | compiler/src/value/integer/integer.rs:144-295 | Text is parsed at the declared type; text that does not parse panics with `invalid_integer`. A missing value fails with `missing_integer("<name>: <type>")` exactly when the value is needed. A success has the declared type and is in range. |
| IntegerValue.FromInput | compiler/src/value/integer/integer.rs:297-317 | A non-integer input is `invalid_integer` with its text. An integer input's text, or no input, is allocated at the declared type. |
| IntegerValue.FromInputIgnoresInputType | compiler/src/value/integer/integer.rs:305-316 | The input's own type tag makes no difference; the result has the declared type. |
| IntegerValue.Negate | compiler/src/value/integer/integer.rs:319-331 | Unsigned types give `negate_operation`. A signed type fails with `Overflow` exactly for a known `MIN`; otherwise it returns the negated value of the same type. |
| IntegerValue.Add | compiler/src/value/integer/integer.rs:333-347 | Different types give `binary_operation("+")`. For one type it fails exactly when known operands overflow; otherwise the sum (or unknown) at that type. |
| IntegerValue.Sub | compiler/src/value/integer/integer.rs:349-363 | Different types give `binary_operation("-")`. A signed `MIN` subtrahend overflows; otherwise known operands succeed exactly in range; the result is the difference. |
| IntegerValue.Mul | compiler/src/value/integer/integer.rs:365-379 | Different types give `binary_operation("*")`. For one type it fails exactly when known operands overflow; otherwise the product. |
| IntegerValue.Div | compiler/src/value/integer/integer.rs:381-395 | Different types give `binary_operation("÷")`, and a known zero divisor gives `DivisionByZero`. Known operands fail exactly on signed `MIN / -1`. A known result is the truncated quotient. At a signed type, a dividend known to be 0 is returned unchanged, as the gadget's `self_is_zero` select does, so the result is known exactly when both operands are or the signed dividend is a known 0. |
| IntegerValue.Pow | compiler/src/value/integer/integer.rs:397-411 | Different types give `binary_operation("**")`. Known operands with a non-negative exponent fail exactly when the power leaves the range; a success is the power. |
| IntegerValue.SubIsAddOfNegation | gadgets/src/signed_integer/arithmetic/sub.rs:27-33 | At a signed type, subtraction is the addition of the negation, and the negation's error comes first. |
| IntegerValue.QuotientRange | compiler/src/value/integer/integer.rs:381-395 | The truncated quotient of in-range operands is in range, except signed `MIN / -1`. |
| IntegerValue.QuotientTruncates | compiler/src/value/integer/integer.rs:381-395 | The quotient has the sign of the exact quotient and the largest magnitude whose multiple of `abs(d)` does not exceed `abs(n)`. |
| IntegerValue.NegationRange | compiler/src/value/integer/integer.rs:319-331 | Of the values of a width, only `MIN` has no negation of that width. |
| IntegerValue.EvaluateEqual | compiler/src/value/integer/integer.rs:414-423 | `Unsatisfiable` exactly for different types. Otherwise the result is known exactly when both operands are, and is then their equality. |
| IntegerValue.LessThan | compiler/src/value/integer/integer.rs:425-433 | `Unsatisfiable` exactly for different types. Otherwise the result is known exactly when both operands are, and is then `x < y`. |
| IntegerValue.ConditionalEnforceEqual | compiler/src/value/integer/integer.rs:439-452 | `Unsatisfiable` exactly for different types. Known operands report whether "condition implies equal" holds. |
| IntegerValue.ConditionallySelect | compiler/src/value/integer/integer.rs:459-480 | `Unsatisfiable` exactly when the variants differ; otherwise the chosen operand, of that variant. |
| Ast.Insert | ast/src/reducer/reconstructing_director.rs:470-478 | `IndexMap::insert`: an existing key keeps its place; a new key goes at the end; other entries are untouched; the pair is present. |
| Ast.InsertDistinct | ast/src/reducer/reconstructing_director.rs:470-478 | Insertion keeps the keys distinct. |
| Reconstruction.RebuildType | ast/src/reducer/reconstructing_director.rs:36-52 | A reduced type keeps its kind, array dimensions and tuple arity; a scalar type is cloned. |
| Reconstruction.ReduceOptionalType | ast/src/reducer/reconstructing_director.rs:333-337 | An optional type keeps its presence. |
| Reconstruction.RebuildExpression | ast/src/reducer/reconstructing_director.rs:55-293 | The rebuilt expression has the same variant, operators, dimensions, tuple index, element counts, spread kinds and optional parts. |
| Reconstruction.ReduceExpressions | ast/src/reducer/reconstructing_director.rs:211-221 | A reduced list has the list's length. |
| Reconstruction.ReduceSpreads | ast/src/reducer/reconstructing_director.rs:149-169 | Inline-array elements keep their count and their spread or plain kind; content and order come from `SpreadsInOrder`. |
| Reconstruction.ReduceOptional | ast/src/reducer/reconstructing_director.rs:191-209 | Range bounds keep their presence. |
| Reconstruction.ReduceImpliedVariable | ast/src/reducer/reconstructing_director.rs:232-245 | A circuit member initializer keeps the presence of its expression. |
| Reconstruction.RebuildStatement | ast/src/reducer/reconstructing_director.rs:296-447 | The rebuilt statement has the same variant, declaration kind, operator, variable count and mutability, assignee access count, and presence of type and `next`. |
| Reconstruction.ReduceVariableNames | ast/src/reducer/reconstructing_director.rs:318-331 | Variable names keep their count and mutability; content and order come from `VariableNamesInOrder`. |
| Reconstruction.ReduceAssignee | ast/src/reducer/reconstructing_director.rs:345-371 | An assignee keeps its number of accesses. |
| Reconstruction.ReduceAssigneeAccess | ast/src/reducer/reconstructing_director.rs:345-359 | A tuple index access is cloned. |
| Reconstruction.ReduceConsole | ast/src/reducer/reconstructing_director.rs:409-438 | `debug`/`error`/`log` keep kind, parts and parameter count; `assert` stays `assert`. |
| Reconstruction.ReduceBlock | ast/src/reducer/reconstructing_director.rs:449-456 | A block keeps its number of statements. |
| Reconstruction.ReduceFunctionInput | ast/src/reducer/reconstructing_director.rs:484-504 | A keyword input is cloned; a variable keeps its `const` and `mut` flags. |
| Reconstruction.ReduceAnnotations | ast/src/reducer/reconstructing_director.rs:562-566 | Annotations keep their count and arguments. |
| Reconstruction.ReduceFunction | ast/src/reducer/reconstructing_director.rs:568-598 | A function keeps its number of annotations, inputs and statements, and the presence of its output. |
| Reconstruction.ReduceMemberInside | ast/src/reducer/reconstructing_director.rs:536-546 | A circuit member keeps its kind. |
| Reconstruction.ReduceCircuit | ast/src/reducer/reconstructing_director.rs:551-560 | A circuit keeps its number of members. |
| Reconstruction.ReduceImport | ast/src/reducer/reconstructing_director.rs:506-530 | An import keeps its package-or-packages kind. |
| Reconstruction.ReduceCircuitEntries | ast/src/reducer/reconstructing_director.rs:470-473 | Inserting the reduced circuits in iteration order keeps keys distinct. |
| Reconstruction.ReduceFunctionEntries | ast/src/reducer/reconstructing_director.rs:475-478 | Inserting the reduced functions in iteration order keeps keys distinct. |
| Reconstruction.ReduceProgram | ast/src/reducer/reconstructing_director.rs:459-482 | A program keeps its name and its numbers of inputs and imports, and has distinct circuit and function names. |
| Reconstruction.PrependStep | ast/src/reducer/reconstructing_director.rs:215-220 | Pushing one more reduced element onto the vector built so far. |
| ReconstructionProperties.TypeIdentity | ast/src/reducer/reconstructing_director.rs:36-52 | With hooks that accept the rebuilt node, every type is given back unchanged. |
| ReconstructionProperties.ExpressionIdentity | ast/src/reducer/reconstructing_director.rs:55-293 | With accepting hooks, every expression is given back unchanged. |
| ReconstructionProperties.StatementIdentity | ast/src/reducer/reconstructing_director.rs:296-447 | With accepting hooks, every statement is given back unchanged. |
| ReconstructionProperties.FunctionIdentity | ast/src/reducer/reconstructing_director.rs:568-598 | With accepting hooks, every function is given back unchanged. |
| ReconstructionProperties.CircuitIdentity | ast/src/reducer/reconstructing_director.rs:551-560 | With accepting hooks, every circuit is given back unchanged. |
| ReconstructionProperties.CircuitEntriesIdentity | ast/src/reducer/reconstructing_director.rs:470-473 | With accepting hooks and distinct keys, the circuit map is rebuilt in order. |
| ReconstructionProperties.FunctionEntriesIdentity | ast/src/reducer/reconstructing_director.rs:475-478 | With accepting hooks and distinct keys, the function map is rebuilt in order. |
| ReconstructionProperties.ProgramIdentity | ast/src/reducer/reconstructing_director.rs:459-482 | With accepting hooks and distinct names, the program is given back unchanged. |
| ReconstructionProperties.ExpressionsInOrder | ast/src/reducer/reconstructing_director.rs:284-293 | A list of expressions succeeds exactly when each element does, giving the elements' reductions in order. Otherwise the error is that of the first failing element. |
| ReconstructionProperties.StatementsInOrder | ast/src/reducer/reconstructing_director.rs:449-456 | The same rule for the statements of a block. |
| ReconstructionProperties.SpreadsInOrder | ast/src/reducer/reconstructing_director.rs:153-165 | The elements of an inline array succeed exactly when each does; element `i` of the result is the reduction of element `i`, and otherwise the first failing element's error is returned. |
| ReconstructionProperties.VariableNamesInOrder | ast/src/reducer/reconstructing_director.rs:328-331 | The names of a definition succeed exactly when each identifier does; name `i` of the result keeps name `i`'s mutability and carries its reduced identifier, and otherwise the first failing identifier's error is returned. |
| ReconstructionProperties.BinaryInOrder | ast/src/reducer/reconstructing_director.rs:118-124 | Left operand first, then right; the first error is the result; otherwise the node from both reductions. |
| ReconstructionProperties.TernaryInOrder | ast/src/reducer/reconstructing_director.rs:133-140 | Condition, then the true branch, then the false branch; the first error is the result. |
| ReconstructionProperties.IterationInOrder | ast/src/reducer/reconstructing_director.rs:396-407 | Variable, start, stop, then block; the first error is the result. |
| ReconstructionProperties.CircuitEntriesFlipOnlyOnFailure | ast/src/reducer/reconstructing_director.rs:536-546 | A flag left flipped by the circuits means their reduction failed. |
| ReconstructionProperties.ProgramKeepsFlag | ast/src/reducer/reconstructing_director.rs:459-482 | A successful program reduction leaves `in_circuit` where it started. |
| Director.ReconstructingDirector.constructor | ast/src/reducer/reconstructing_director.rs:29-34 | `in_circuit` starts false. |
| Director.ReconstructingDirector.ReduceType | ast/src/reducer/reconstructing_director.rs:36-52 | The recursive method with its tuple loop computes the type reduction. |
| Director.ReconstructingDirector.ReduceArrayInline | ast/src/reducer/reconstructing_director.rs:149-169 | The push loop computes the rebuilt inline array. |
| Director.ReconstructingDirector.ReduceTupleInit | ast/src/reducer/reconstructing_director.rs:211-221 | The push loop computes the rebuilt tuple. |
| Director.ReconstructingDirector.ReduceCircuitInit | ast/src/reducer/reconstructing_director.rs:247-260 | The name, then the member loop, compute the rebuilt circuit initializer. |
| Director.ReconstructingDirector.ReduceCall | ast/src/reducer/reconstructing_director.rs:284-293 | The function, then the argument loop, compute the rebuilt call. |
| Director.ReconstructingDirector.ReduceDefinition | ast/src/reducer/reconstructing_director.rs:324-343 | The name loop, the optional type and the value compute the rebuilt definition. |
| Director.ReconstructingDirector.ReduceAssignee | ast/src/reducer/reconstructing_director.rs:361-371 | The identifier and the access loop compute the reduced assignee. |
| Director.ReconstructingDirector.ReduceConsole | ast/src/reducer/reconstructing_director.rs:409-438 | The assertion or the parameter loop computes the reduced console call. |
| Director.ReconstructingDirector.ReduceBlock | ast/src/reducer/reconstructing_director.rs:449-456 | The statement loop computes the reduced block. |
| Director.ReconstructingDirector.ReduceFunction | ast/src/reducer/reconstructing_director.rs:568-598 | The annotation and input loops, the output and the block compute the reduced function. |
| Director.ReconstructingDirector.ReduceFunctionInputs | ast/src/reducer/reconstructing_director.rs:576-579 | The input loop computes the reduced inputs. |
| Director.ReconstructingDirector.ReduceImports | ast/src/reducer/reconstructing_director.rs:465-468 | The import loop computes the reduced imports. |
| Director.ReconstructingDirector.ReduceCircuitMember | ast/src/reducer/reconstructing_director.rs:532-549 | The member is reduced with the flag flipped. Afterwards `in_circuit` is back where it was on success and flipped on an error. |
| Director.ReconstructingDirector.ReduceCircuit | ast/src/reducer/reconstructing_director.rs:551-560 | The circuit reduction, with the flag left flipped exactly when the name succeeded and a member failed. |
| Director.ReconstructingDirector.ReduceCircuitEntries | ast/src/reducer/reconstructing_director.rs:470-473 | The insert loop computes the circuit map; the flag ends flipped exactly as `CircuitEntriesFlip` says. |
| Director.ReconstructingDirector.ReduceFunctionEntries | ast/src/reducer/reconstructing_director.rs:475-478 | The insert loop computes the function map. |
| Director.ReconstructingDirector.ReduceProgram | ast/src/reducer/reconstructing_director.rs:459-482 | The program reduction, with the flag flipped exactly when `ProgramFlips` holds, never after a success. |

## Left out

- The constraint system is not modelled: namespaces, `alloc` calls, constraints and the constant-or-allocated choice of `true`, `one` and `zero`. Only witness values are modelled.
- The per-width gadgets other than division and subtraction (unsigned arithmetic, negation, addition, multiplication, power, comparison, equality, selection) and the `match_integer!` macros are not part of this model. They appear as bounded-arithmetic contracts over the type's range.
- SignedDiv.Div: the selectors of the gadget (`evaluate_equal` against `MIN`, the sign-bit comparison, `greater_than_or_equal` in the loop) are evaluated on the witness bits, so the model's result always carries a known value. In the source these selectors have no value when the operands have none, and the quotient is then unknown; whether the result's value is known is not modelled. The same holds for SignedDiv.DivCorrected and SignedDiv.RestoringDivide.
- IntegerValue.Div: uses the corrected division for the signed types, not the as-written gadget (see Findings); the two differ only in the value of a known `MIN` dividend's quotient and in `MIN / -1`, which overflows here. A signed dividend known to be 0 is still returned as it is.
- IntegerValue.Pow: a negative exponent of a signed type is treated as an overflow; the per-width `pow` gadgets are not part of this model.
- IntegerValue.AllocateType: whether allocation needs the value is the parameter `needsValue`, since it depends on the constraint system's mode. A panic from `unwrap` is modelled as a `Panic` result.
- IntegerValue.ToUsize: takes `usize` as 64 bits.
- `get_bits` is not modelled: at this level bits are internal to the gadgets.
- Spans and error formatting are left out; errors keep their kind and text only.
- `reduce_value`, with the group-value and group-tuple reductions it calls, is one `value` hook over an opaque value expression.
- The per-node hooks of the reducer (`reduce_binary`, `reduce_block`, `reduce_function`, ...) are taken as their default, which packages the children. Only the category hooks (identifier, value, type, expression, statement) are parameters. The `ReconstructingReducer` trait itself is not part of this model.
- Director.ReconstructingDirector: the methods whose source is plain structural recursion (binary, unary, ternary, cast, accesses, conditional, iteration, ...) delegate to the `Reconstruction` functions instead of restating them as methods.
- The test files, the command-line driver and project scaffolding are not part of this model.

## Findings

| source | as written | input that shows it | evidently intended | confidence | as-written member | corrected member |
|---|---|---|---|---|---|---|
| gadgets/src/signed_integer/arithmetic/div.rs:114-143 | A `MIN` dividend is replaced by `MIN + 1` before its magnitude is taken, so the gadget divides `MAX` instead of `abs(MIN)` | `i8`: `-128 / 2` gives -63 (also `-128 / 1` gives -127, `-128 / -1` gives 127) | truncating division as the pseudocode states: `-128 / 2 = -64`, and `MIN / -1` overflows | not executed | SignedDiv.Div, SignedDiv.DivMinByTwo | SignedDiv.DivCorrected |
