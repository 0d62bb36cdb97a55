/**
 * The part of the Leo abstract syntax tree that the reconstructing director
 * walks: types, expressions, statements, blocks, functions, circuits, imports
 * and programs. Spans are not part of the model; literal values, operators and
 * keywords are kept as text.
 */
module Ast {
  import opened Wrappers

  datatype Identifier = Identifier(name: string)

  datatype Type =
    | Scalar(name: string)                              // address, bool, field, group, integer types, Self
    | Array(element: Type, dimensions: seq<nat>)
    | Tuple(types: seq<Type>)
    | CircuitType(identifier: Identifier)

  /** A literal, as written in the program. */
  datatype ValueExpression = ValueExpression(literal: string)

  datatype Expression =
    | Ident(identifier: Identifier)
    | Value(value: ValueExpression)
    | Binary(left: Expression, right: Expression, binaryOp: string)
    | Unary(inner: Expression, unaryOp: string)
    | Ternary(condition: Expression, ifTrue: Expression, ifFalse: Expression)
    | Cast(castInner: Expression, targetType: Type)
    | ArrayInline(inlineElements: seq<SpreadOrExpression>)
    | ArrayInit(element: Expression, initDimensions: seq<nat>)
    | ArrayAccess(array: Expression, index: Expression)
    | ArrayRangeAccess(rangeArray: Expression, rangeLeft: Option<Expression>, rangeRight: Option<Expression>)
    | TupleInit(tupleElements: seq<Expression>)
    | TupleAccess(tuple: Expression, tupleIndex: nat)
    | CircuitInit(circuitName: Identifier, members: seq<CircuitImpliedVariable>)
    | CircuitMemberAccess(circuit: Expression, memberName: Identifier)
    | CircuitStaticFunctionAccess(staticCircuit: Expression, functionName: Identifier)
    | Call(callee: Expression, arguments: seq<Expression>)

  datatype SpreadOrExpression = Spread(spread: Expression) | Plain(expression: Expression)

  /** A member of a circuit initializer: `x: e`, or `x` alone. */
  datatype CircuitImpliedVariable = CircuitImpliedVariable(identifier: Identifier, expression: Option<Expression>)

  datatype VariableName = VariableName(mutable: bool, identifier: Identifier)

  datatype AssigneeAccess =
    | ArrayRange(left: Option<Expression>, right: Option<Expression>)
    | ArrayIndex(index: Expression)
    | TupleIndex(position: nat)
    | Member(member: Identifier)

  datatype Assignee = Assignee(identifier: Identifier, accesses: seq<AssigneeAccess>)

  datatype FormatKind = Debug | Error | Log

  datatype FormatString = FormatString(parts: seq<string>, parameters: seq<Expression>)

  datatype ConsoleFunction = Assert(expression: Expression) | Format(kind: FormatKind, format: FormatString)

  datatype Statement =
    | Return(returned: Expression)
    | Definition(declaration: string, variableNames: seq<VariableName>, declaredType: Option<Type>, value: Expression)
    | Assign(assignee: Assignee, operation: string, assignedValue: Expression)
    | Conditional(condition: Expression, block: Block, next: Option<Statement>)
    | Iteration(variable: Identifier, start: Expression, stop: Expression, body: Block)
    | Console(consoleFunction: ConsoleFunction)
    | ExpressionStatement(expression: Expression)
    | BlockStatement(inner: Block)

  datatype Block = Block(statements: seq<Statement>)

  /** A function parameter: a keyword input (`input`, `self`, ...) or a typed variable. */
  datatype FunctionInput =
    | Keyword(keyword: string)
    | Variable(identifier: Identifier, isConst: bool, isMutable: bool, inputType: Type)

  datatype Annotation = Annotation(name: Identifier, arguments: seq<string>)

  datatype Function = Function(
    annotations: seq<Annotation>,
    identifier: Identifier,
    input: seq<FunctionInput>,
    output: Option<Type>,
    block: Block)

  datatype CircuitMember =
    | CircuitVariable(identifier: Identifier, memberType: Type)
    | CircuitFunction(memberFunction: Function)

  datatype Circuit = Circuit(circuitName: Identifier, members: seq<CircuitMember>)

  datatype PackageOrPackages =
    | Package(name: Identifier, access: string)
    | Packages(name: Identifier, accesses: seq<string>)

  datatype ImportStatement = ImportStatement(package: PackageOrPackages)

  /** An insertion-ordered map, as `IndexMap` keeps it: a sequence of entries. */
  type OrderedMap<V> = seq<(Identifier, V)>

  datatype Program = Program(
    name: string,
    expectedInput: seq<FunctionInput>,
    imports: seq<ImportStatement>,
    circuits: OrderedMap<Circuit>,
    functions: OrderedMap<Function>)

  /** The keys of an ordered map, in order. */
  function Keys<V>(m: OrderedMap<V>): (keys: seq<Identifier>)
    ensures |keys| == |m| && forall i :: 0 <= i < |m| ==> keys[i] == m[i].0
  {
    if m == [] then [] else [m[0].0] + Keys(m[1..])
  }

  predicate DistinctKeys<V>(m: OrderedMap<V>) {
    forall i, j :: 0 <= i < j < |m| ==> m[i].0 != m[j].0
  }

  /**
   * `IndexMap::insert`: a new key goes at the end; an existing key keeps its
   * place and takes the new value; every other entry is untouched.
   */
  function Insert<V>(m: OrderedMap<V>, k: Identifier, v: V): (r: OrderedMap<V>)
    ensures k in Keys(m) ==> Keys(r) == Keys(m)
    ensures k !in Keys(m) ==> r == m + [(k, v)]
    ensures forall i :: 0 <= i < |m| && m[i].0 != k ==> r[i] == m[i]
    ensures (k, v) in r
  {
    if m == [] then [(k, v)]
    else if m[0].0 == k then [(k, v)] + m[1..]
    else [m[0]] + Insert(m[1..], k, v)
  }

  /** Inserting into a map with distinct keys keeps them distinct. */
  lemma InsertDistinct<V>(m: OrderedMap<V>, k: Identifier, v: V)
    ensures DistinctKeys(m) ==> DistinctKeys(Insert(m, k, v))
  {
    var r := Insert(m, k, v);
    if k in Keys(m) {
      assert forall i :: 0 <= i < |r| ==> r[i].0 == Keys(r)[i] == Keys(m)[i] == m[i].0;
    } else {
      assert forall i :: 0 <= i < |m| ==> m[i].0 == Keys(m)[i];
    }
  }
}
