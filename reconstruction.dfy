/**
 * What the reconstructing director computes, as functions of the reducer and
 * of the `in_circuit` flag it hands to the hooks: every node is rebuilt from
 * its reduced children, left to right, the first error ends the walk, and the
 * rebuilt node goes to the reducer's hook for its category.
 *
 * The hooks for identifiers, values, types, expressions and statements are
 * parameters. The per-node hooks (`reduce_binary`, `reduce_block`,
 * `reduce_function`, ...) are taken as they are by default: they package the
 * reduced children into a node of the same kind and never fail.
 */
module Reconstruction {
  import opened Wrappers
  import opened Ast

  datatype CanonicalizeError = CanonicalizeError(message: string)

  type Reduced<T> = Result<T, CanonicalizeError>

  /** The hooks of a `ReconstructingReducer`; each receives the original node, the rebuilt one and the flag. */
  datatype Reducer = Reducer(
    identifier: Identifier -> Reduced<Identifier>,
    value: ValueExpression -> Reduced<ValueExpression>,
    reduceType: (Type, Type, bool) -> Reduced<Type>,
    expression: (Expression, Expression, bool) -> Reduced<Expression>,
    statement: (Statement, Statement, bool) -> Reduced<Statement>)

  /** The reducer whose hooks accept the rebuilt node as it is. */
  function Identity(): Reducer {
    Reducer(
      i => Success(i),
      v => Success(v),
      (original, rebuilt, inCircuit) => Success(rebuilt),
      (original, rebuilt, inCircuit) => Success(rebuilt),
      (original, rebuilt, inCircuit) => Success(rebuilt))
  }

  /** The rest of a list reduction, after the reduced prefix `done`. */
  function Prepend<T>(done: seq<T>, rest: Reduced<seq<T>>): Reduced<seq<T>> {
    if rest.Failure? then Failure(rest.error) else Success(done + rest.value)
  }

  lemma PrependEmpty<T>(rest: Reduced<seq<T>>)
    ensures Prepend([], rest) == rest
  {
    if rest.Success? {
      assert [] + rest.value == rest.value;
    }
  }

  lemma PrependNothing<T>(done: seq<T>)
    ensures Prepend(done, Success([])) == Success(done)
  {
    assert done + [] == done;
  }

  /** Reducing one more element moves it from the rest onto the prefix. */
  lemma PrependStep<T>(done: seq<T>, head: T, rest: Reduced<seq<T>>)
    ensures Prepend(done, Prepend([head], rest)) == Prepend(done + [head], rest)
  {
    if rest.Success? {
      assert done + ([head] + rest.value) == done + [head] + rest.value;
    }
  }

  // Types

  /** `t'` is `t` rebuilt: same kind, same dimensions, same arity, a scalar unchanged. */
  predicate TypeRebuilt(t: Type, t': Type) {
    match t
    case Scalar(_) => t' == t
    case Array(_, dimensions) => t'.Array? && t'.dimensions == dimensions
    case Tuple(types) => t'.Tuple? && |t'.types| == |types|
    case CircuitType(_) => t'.CircuitType?
  }

  /** The node `reduce_type` builds before calling the hook. */
  function RebuildType(r: Reducer, c: bool, t: Type): (res: Reduced<Type>)
    decreases t, 0
    ensures res.Success? ==> TypeRebuilt(t, res.value)
  {
    match t
    case Scalar(_) => Success(t)
    case Array(element, dimensions) =>
      var element' :- ReduceType(r, c, element);
      Success(Array(element', dimensions))
    case Tuple(types) =>
      var types' :- ReduceTypes(r, c, types);
      Success(Tuple(types'))
    case CircuitType(identifier) =>
      var identifier' :- r.identifier(identifier);
      Success(CircuitType(identifier'))
  }

  function ReduceType(r: Reducer, c: bool, t: Type): Reduced<Type>
    decreases t, 1
  {
    var rebuilt :- RebuildType(r, c, t);
    r.reduceType(t, rebuilt, c)
  }

  function ReduceTypes(r: Reducer, c: bool, ts: seq<Type>): (res: Reduced<seq<Type>>)
    decreases ts
    ensures res.Success? ==> |res.value| == |ts|
  {
    if ts == [] then Success([])
    else
      var head :- ReduceType(r, c, ts[0]);
      Prepend([head], ReduceTypes(r, c, ts[1..]))
  }

  /** An optional type maps `None` to `None` and `Some` to `Some`. */
  function ReduceOptionalType(r: Reducer, c: bool, t: Option<Type>): (res: Reduced<Option<Type>>)
    ensures res.Success? ==> (res.value.Some? <==> t.Some?)
    ensures t.None? ==> res == Success(None)
  {
    match t
    case None => Success(None)
    case Some(t0) =>
      var t' :- ReduceType(r, c, t0);
      Success(Some(t'))
  }

  // Expressions

  /**
   * `e'` is `e` rebuilt: the same variant, with the same operators, dimensions
   * and indices, and as many elements, arguments and members, each spread
   * element still a spread and each optional part present exactly when it was.
   */
  predicate ExpressionRebuilt(e: Expression, e': Expression) {
    match e
    case Ident(_) => e'.Ident?
    case Value(_) => e'.Value?
    case Binary(_, _, op) => e'.Binary? && e'.binaryOp == op
    case Unary(_, op) => e'.Unary? && e'.unaryOp == op
    case Ternary(_, _, _) => e'.Ternary?
    case Cast(_, _) => e'.Cast?
    case ArrayInline(elements) =>
      e'.ArrayInline? && |e'.inlineElements| == |elements| &&
      forall i :: 0 <= i < |elements| ==> (e'.inlineElements[i].Spread? <==> elements[i].Spread?)
    case ArrayInit(_, dimensions) => e'.ArrayInit? && e'.initDimensions == dimensions
    case ArrayAccess(_, _) => e'.ArrayAccess?
    case ArrayRangeAccess(_, left, right) =>
      e'.ArrayRangeAccess? && (e'.rangeLeft.Some? <==> left.Some?) && (e'.rangeRight.Some? <==> right.Some?)
    case TupleInit(elements) => e'.TupleInit? && |e'.tupleElements| == |elements|
    case TupleAccess(_, index) => e'.TupleAccess? && e'.tupleIndex == index
    case CircuitInit(_, members) => e'.CircuitInit? && |e'.members| == |members|
    case CircuitMemberAccess(_, _) => e'.CircuitMemberAccess?
    case CircuitStaticFunctionAccess(_, _) => e'.CircuitStaticFunctionAccess?
    case Call(_, arguments) => e'.Call? && |e'.arguments| == |arguments|
  }

  /** The node `reduce_expression` builds, through the per-node helpers, before calling the hook. */
  function RebuildExpression(r: Reducer, c: bool, e: Expression): (res: Reduced<Expression>)
    decreases e, 0
    ensures res.Success? ==> ExpressionRebuilt(e, res.value)
  {
    match e
    case Ident(identifier) =>
      var identifier' :- r.identifier(identifier);
      Success(Ident(identifier'))
    case Value(value) =>
      var value' :- r.value(value);
      Success(Value(value'))
    case Binary(left, right, op) =>
      var left' :- ReduceExpression(r, c, left);
      var right' :- ReduceExpression(r, c, right);
      Success(Binary(left', right', op))
    case Unary(inner, op) =>
      var inner' :- ReduceExpression(r, c, inner);
      Success(Unary(inner', op))
    case Ternary(condition, ifTrue, ifFalse) =>
      var condition' :- ReduceExpression(r, c, condition);
      var ifTrue' :- ReduceExpression(r, c, ifTrue);
      var ifFalse' :- ReduceExpression(r, c, ifFalse);
      Success(Ternary(condition', ifTrue', ifFalse'))
    case Cast(inner, targetType) =>
      var inner' :- ReduceExpression(r, c, inner);
      var targetType' :- ReduceType(r, c, targetType);
      Success(Cast(inner', targetType'))
    case ArrayInline(elements) =>
      var elements' :- ReduceSpreads(r, c, elements);
      Success(ArrayInline(elements'))
    case ArrayInit(element, dimensions) =>
      var element' :- ReduceExpression(r, c, element);
      Success(ArrayInit(element', dimensions))
    case ArrayAccess(arr, index) =>
      var arr' :- ReduceExpression(r, c, arr);
      var index' :- ReduceExpression(r, c, index);
      Success(ArrayAccess(arr', index'))
    case ArrayRangeAccess(arr, left, right) =>
      var arr' :- ReduceExpression(r, c, arr);
      var left' :- ReduceOptional(r, c, left);
      var right' :- ReduceOptional(r, c, right);
      Success(ArrayRangeAccess(arr', left', right'))
    case TupleInit(elements) =>
      var elements' :- ReduceExpressions(r, c, elements);
      Success(TupleInit(elements'))
    case TupleAccess(tuple, index) =>
      var tuple' :- ReduceExpression(r, c, tuple);
      Success(TupleAccess(tuple', index))
    case CircuitInit(name, members) =>
      var name' :- r.identifier(name);
      var members' :- ReduceImpliedVariables(r, c, members);
      Success(CircuitInit(name', members'))
    case CircuitMemberAccess(circuit, name) =>
      var circuit' :- ReduceExpression(r, c, circuit);
      var name' :- r.identifier(name);
      Success(CircuitMemberAccess(circuit', name'))
    case CircuitStaticFunctionAccess(circuit, name) =>
      var circuit' :- ReduceExpression(r, c, circuit);
      var name' :- r.identifier(name);
      Success(CircuitStaticFunctionAccess(circuit', name'))
    case Call(callee, arguments) =>
      var callee' :- ReduceExpression(r, c, callee);
      var arguments' :- ReduceExpressions(r, c, arguments);
      Success(Call(callee', arguments'))
  }

  function ReduceExpression(r: Reducer, c: bool, e: Expression): Reduced<Expression>
    decreases e, 1
  {
    var rebuilt :- RebuildExpression(r, c, e);
    r.expression(e, rebuilt, c)
  }

  /** A list of expressions, reduced left to right; the first failure is the result. */
  function ReduceExpressions(r: Reducer, c: bool, es: seq<Expression>): (res: Reduced<seq<Expression>>)
    decreases es
    ensures res.Success? ==> |res.value| == |es|
  {
    if es == [] then Success([])
    else
      var head :- ReduceExpression(r, c, es[0]);
      Prepend([head], ReduceExpressions(r, c, es[1..]))
  }

  function ReduceOptional(r: Reducer, c: bool, e: Option<Expression>): (res: Reduced<Option<Expression>>)
    decreases e
    ensures res.Success? ==> (res.value.Some? <==> e.Some?)
  {
    match e
    case None => Success(None)
    case Some(e0) =>
      var e' :- ReduceExpression(r, c, e0);
      Success(Some(e'))
  }

  function ReduceSpread(r: Reducer, c: bool, x: SpreadOrExpression): (res: Reduced<SpreadOrExpression>)
    decreases x
    ensures res.Success? ==> (res.value.Spread? <==> x.Spread?)
  {
    match x
    case Spread(e) =>
      var e' :- ReduceExpression(r, c, e);
      Success(Spread(e'))
    case Plain(e) =>
      var e' :- ReduceExpression(r, c, e);
      Success(Plain(e'))
  }

  /** The elements of an inline array: each keeps its spread or plain kind. */
  function ReduceSpreads(r: Reducer, c: bool, xs: seq<SpreadOrExpression>): (res: Reduced<seq<SpreadOrExpression>>)
    decreases xs
    ensures res.Success? ==> |res.value| == |xs| && forall i :: 0 <= i < |xs| ==> (res.value[i].Spread? <==> xs[i].Spread?)
  {
    if xs == [] then Success([])
    else
      var head :- ReduceSpread(r, c, xs[0]);
      Prepend([head], ReduceSpreads(r, c, xs[1..]))
  }

  /** `reduce_circuit_implied_variable_definition`: the identifier, then the optional expression. */
  function ReduceImpliedVariable(r: Reducer, c: bool, m: CircuitImpliedVariable): (res: Reduced<CircuitImpliedVariable>)
    decreases m
    ensures res.Success? ==> (res.value.expression.Some? <==> m.expression.Some?)
  {
    var identifier' :- r.identifier(m.identifier);
    var expression' :- ReduceOptional(r, c, m.expression);
    Success(CircuitImpliedVariable(identifier', expression'))
  }

  function ReduceImpliedVariables(r: Reducer, c: bool, ms: seq<CircuitImpliedVariable>): (res: Reduced<seq<CircuitImpliedVariable>>)
    decreases ms
    ensures res.Success? ==> |res.value| == |ms|
  {
    if ms == [] then Success([])
    else
      var head :- ReduceImpliedVariable(r, c, ms[0]);
      Prepend([head], ReduceImpliedVariables(r, c, ms[1..]))
  }

  // Statements

  /** `s'` is `s` rebuilt: the same variant with its fixed parts (declaration, operator, console kind and parts) kept. */
  predicate StatementRebuilt(s: Statement, s': Statement) {
    match s
    case Return(_) => s'.Return?
    case Definition(declaration, names, declaredType, _) =>
      s'.Definition? && s'.declaration == declaration && |s'.variableNames| == |names| &&
      (forall i :: 0 <= i < |names| ==> s'.variableNames[i].mutable == names[i].mutable) &&
      (s'.declaredType.Some? <==> declaredType.Some?)
    case Assign(assignee, operation, _) =>
      s'.Assign? && s'.operation == operation && |s'.assignee.accesses| == |assignee.accesses|
    case Conditional(_, _, next) => s'.Conditional? && (s'.next.Some? <==> next.Some?)
    case Iteration(_, _, _, _) => s'.Iteration?
    case Console(console) => s'.Console? && ConsoleRebuilt(console, s'.consoleFunction)
    case ExpressionStatement(_) => s'.ExpressionStatement?
    case BlockStatement(_) => s'.BlockStatement?
  }

  /** Console `debug`/`error`/`log` keep their kind and parts and their number of parameters. */
  predicate ConsoleRebuilt(f: ConsoleFunction, f': ConsoleFunction) {
    match f
    case Assert(_) => f'.Assert?
    case Format(kind, format) =>
      f'.Format? && f'.kind == kind && f'.format.parts == format.parts &&
      |f'.format.parameters| == |format.parameters|
  }

  /** The node `reduce_statement` builds, through the per-node helpers, before calling the hook. */
  function RebuildStatement(r: Reducer, c: bool, s: Statement): (res: Reduced<Statement>)
    decreases s, 0
    ensures res.Success? ==> StatementRebuilt(s, res.value)
  {
    match s
    case Return(e) =>
      var e' :- ReduceExpression(r, c, e);
      Success(Return(e'))
    case Definition(declaration, names, declaredType, value) =>
      var names' :- ReduceVariableNames(r, names);
      var declaredType' :- ReduceOptionalType(r, c, declaredType);
      var value' :- ReduceExpression(r, c, value);
      Success(Definition(declaration, names', declaredType', value'))
    case Assign(assignee, operation, value) =>
      var assignee' :- ReduceAssignee(r, c, assignee);
      var value' :- ReduceExpression(r, c, value);
      Success(Assign(assignee', operation, value'))
    case Conditional(condition, block, next) =>
      var condition' :- ReduceExpression(r, c, condition);
      var block' :- ReduceBlock(r, c, block);
      var next' :- ReduceOptionalStatement(r, c, next);
      Success(Conditional(condition', block', next'))
    case Iteration(variable, start, stop, body) =>
      var variable' :- r.identifier(variable);
      var start' :- ReduceExpression(r, c, start);
      var stop' :- ReduceExpression(r, c, stop);
      var body' :- ReduceBlock(r, c, body);
      Success(Iteration(variable', start', stop', body'))
    case Console(console) =>
      var console' :- ReduceConsole(r, c, console);
      Success(Console(console'))
    case ExpressionStatement(e) =>
      var e' :- ReduceExpression(r, c, e);
      Success(ExpressionStatement(e'))
    case BlockStatement(block) =>
      var block' :- ReduceBlock(r, c, block);
      Success(BlockStatement(block'))
  }

  function ReduceStatement(r: Reducer, c: bool, s: Statement): Reduced<Statement>
    decreases s, 1
  {
    var rebuilt :- RebuildStatement(r, c, s);
    r.statement(s, rebuilt, c)
  }

  function ReduceOptionalStatement(r: Reducer, c: bool, s: Option<Statement>): (res: Reduced<Option<Statement>>)
    decreases s
    ensures res.Success? ==> (res.value.Some? <==> s.Some?)
  {
    match s
    case None => Success(None)
    case Some(s0) =>
      var s' :- ReduceStatement(r, c, s0);
      Success(Some(s'))
  }

  /** `reduce_block`: the statements, in order; the block hook packages them. */
  function ReduceBlock(r: Reducer, c: bool, b: Block): (res: Reduced<Block>)
    decreases b
    ensures res.Success? ==> |res.value.statements| == |b.statements|
  {
    var statements :- ReduceStatements(r, c, b.statements);
    Success(Block(statements))
  }

  function ReduceStatements(r: Reducer, c: bool, ss: seq<Statement>): (res: Reduced<seq<Statement>>)
    decreases ss
    ensures res.Success? ==> |res.value| == |ss|
  {
    if ss == [] then Success([])
    else
      var head :- ReduceStatement(r, c, ss[0]);
      Prepend([head], ReduceStatements(r, c, ss[1..]))
  }

  /** `reduce_variable_name`: the identifier is reduced, mutability kept. */
  function ReduceVariableNames(r: Reducer, names: seq<VariableName>): (res: Reduced<seq<VariableName>>)
    ensures res.Success? ==> |res.value| == |names| &&
                             forall i :: 0 <= i < |names| ==> res.value[i].mutable == names[i].mutable
  {
    if names == [] then Success([])
    else
      var identifier' :- r.identifier(names[0].identifier);
      Prepend([VariableName(names[0].mutable, identifier')], ReduceVariableNames(r, names[1..]))
  }

  function ReduceAssigneeAccess(r: Reducer, c: bool, a: AssigneeAccess): (res: Reduced<AssigneeAccess>)
    ensures res.Success? ==> (a.TupleIndex? ==> res.value == a)
  {
    match a
    case ArrayRange(left, right) =>
      var left' :- ReduceOptional(r, c, left);
      var right' :- ReduceOptional(r, c, right);
      Success(ArrayRange(left', right'))
    case ArrayIndex(index) =>
      var index' :- ReduceExpression(r, c, index);
      Success(ArrayIndex(index'))
    case Member(identifier) =>
      var identifier' :- r.identifier(identifier);
      Success(Member(identifier'))
    case TupleIndex(_) => Success(a)
  }

  /** `reduce_assignee`: the identifier, then each access in order. */
  function ReduceAssignee(r: Reducer, c: bool, a: Assignee): (res: Reduced<Assignee>)
    ensures res.Success? ==> |res.value.accesses| == |a.accesses|
  {
    var identifier' :- r.identifier(a.identifier);
    var accesses' :- ReduceAccesses(r, c, a.accesses);
    Success(Assignee(identifier', accesses'))
  }

  function ReduceAccesses(r: Reducer, c: bool, accesses: seq<AssigneeAccess>): (res: Reduced<seq<AssigneeAccess>>)
    ensures res.Success? ==> |res.value| == |accesses|
  {
    if accesses == [] then Success([])
    else
      var head :- ReduceAssigneeAccess(r, c, accesses[0]);
      Prepend([head], ReduceAccesses(r, c, accesses[1..]))
  }

  /** `reduce_console`: an assertion reduces its expression; a format keeps kind and parts, reducing only its parameters. */
  function ReduceConsole(r: Reducer, c: bool, f: ConsoleFunction): (res: Reduced<ConsoleFunction>)
    ensures res.Success? ==> ConsoleRebuilt(f, res.value)
  {
    match f
    case Assert(e) =>
      var e' :- ReduceExpression(r, c, e);
      Success(Assert(e'))
    case Format(kind, format) =>
      var parameters :- ReduceExpressions(r, c, format.parameters);
      Success(Format(kind, FormatString(format.parts, parameters)))
  }

  // Functions, circuits, imports and programs

  /** `reduce_function_input`: a variable reduces its identifier and type; a keyword is cloned. */
  function ReduceFunctionInput(r: Reducer, c: bool, input: FunctionInput): (res: Reduced<FunctionInput>)
    ensures res.Success? ==> (input.Keyword? ==> res.value == input)
    ensures res.Success? && input.Variable? ==>
              res.value.Variable? && res.value.isConst == input.isConst && res.value.isMutable == input.isMutable
  {
    match input
    case Keyword(_) => Success(input)
    case Variable(identifier, isConst, isMutable, inputType) =>
      var identifier' :- r.identifier(identifier);
      var inputType' :- ReduceType(r, c, inputType);
      Success(Variable(identifier', isConst, isMutable, inputType'))
  }

  function ReduceFunctionInputs(r: Reducer, c: bool, inputs: seq<FunctionInput>): (res: Reduced<seq<FunctionInput>>)
    ensures res.Success? ==> |res.value| == |inputs|
  {
    if inputs == [] then Success([])
    else
      var head :- ReduceFunctionInput(r, c, inputs[0]);
      Prepend([head], ReduceFunctionInputs(r, c, inputs[1..]))
  }

  /** `reduce_annotation`: the name is reduced, the arguments kept. */
  function ReduceAnnotations(r: Reducer, annotations: seq<Annotation>): (res: Reduced<seq<Annotation>>)
    ensures res.Success? ==> |res.value| == |annotations| &&
                             forall i :: 0 <= i < |annotations| ==> res.value[i].arguments == annotations[i].arguments
  {
    if annotations == [] then Success([])
    else
      var name' :- r.identifier(annotations[0].name);
      Prepend([Annotation(name', annotations[0].arguments)], ReduceAnnotations(r, annotations[1..]))
  }

  /** `reduce_function`: identifier, annotations, inputs, optional output, block. */
  function ReduceFunction(r: Reducer, c: bool, f: Function): (res: Reduced<Function>)
    ensures res.Success? ==>
              |res.value.annotations| == |f.annotations| && |res.value.input| == |f.input| &&
              (res.value.output.Some? <==> f.output.Some?) &&
              |res.value.block.statements| == |f.block.statements|
  {
    var identifier' :- r.identifier(f.identifier);
    var annotations' :- ReduceAnnotations(r, f.annotations);
    var inputs' :- ReduceFunctionInputs(r, c, f.input);
    var output' :- ReduceOptionalType(r, c, f.output);
    var block' :- ReduceBlock(r, c, f.block);
    Success(Function(annotations', identifier', inputs', output', block'))
  }

  /** The body of `reduce_circuit_member`, run with the flag `c` it has there. */
  function ReduceMemberInside(r: Reducer, c: bool, m: CircuitMember): (res: Reduced<CircuitMember>)
    ensures res.Success? ==> (res.value.CircuitVariable? <==> m.CircuitVariable?)
  {
    match m
    case CircuitVariable(identifier, memberType) =>
      var identifier' :- r.identifier(identifier);
      var memberType' :- ReduceType(r, c, memberType);
      Success(CircuitVariable(identifier', memberType'))
    case CircuitFunction(f) =>
      var f' :- ReduceFunction(r, c, f);
      Success(CircuitFunction(f'))
  }

  /** `reduce_circuit_member` called with the flag `c`: the member is reduced with the flag flipped. */
  function ReduceCircuitMember(r: Reducer, c: bool, m: CircuitMember): Reduced<CircuitMember> {
    ReduceMemberInside(r, !c, m)
  }

  function ReduceCircuitMembers(r: Reducer, c: bool, ms: seq<CircuitMember>): (res: Reduced<seq<CircuitMember>>)
    ensures res.Success? ==> |res.value| == |ms|
  {
    if ms == [] then Success([])
    else
      var head :- ReduceCircuitMember(r, c, ms[0]);
      Prepend([head], ReduceCircuitMembers(r, c, ms[1..]))
  }

  /** `reduce_circuit`: the name, then the members in order. */
  function ReduceCircuit(r: Reducer, c: bool, circuit: Circuit): (res: Reduced<Circuit>)
    ensures res.Success? ==> |res.value.members| == |circuit.members|
  {
    var name' :- r.identifier(circuit.circuitName);
    var members' :- ReduceCircuitMembers(r, c, circuit.members);
    Success(Circuit(name', members'))
  }

  /** `reduce_import`: the package name is reduced, its accesses kept. */
  function ReduceImport(r: Reducer, i: ImportStatement): (res: Reduced<ImportStatement>)
    ensures res.Success? ==> (res.value.package.Package? <==> i.package.Package?)
  {
    match i.package
    case Package(name, access) =>
      var name' :- r.identifier(name);
      Success(ImportStatement(Package(name', access)))
    case Packages(name, accesses) =>
      var name' :- r.identifier(name);
      Success(ImportStatement(Packages(name', accesses)))
  }

  function ReduceImports(r: Reducer, imports: seq<ImportStatement>): (res: Reduced<seq<ImportStatement>>)
    ensures res.Success? ==> |res.value| == |imports|
  {
    if imports == [] then Success([])
    else
      var head :- ReduceImport(r, imports[0]);
      Prepend([head], ReduceImports(r, imports[1..]))
  }

  /** The circuit entries from the first on, inserted into `done` in iteration order: key first, then circuit. */
  function ReduceCircuitEntries(r: Reducer, c: bool, entries: OrderedMap<Circuit>, done: OrderedMap<Circuit>)
    : (res: Reduced<OrderedMap<Circuit>>)
    decreases |entries|
    ensures res.Success? && DistinctKeys(done) ==> DistinctKeys(res.value)
  {
    if entries == [] then Success(done)
    else
      var key :- r.identifier(entries[0].0);
      var circuit :- ReduceCircuit(r, c, entries[0].1);
      InsertDistinct(done, key, circuit);
      ReduceCircuitEntries(r, c, entries[1..], Insert(done, key, circuit))
  }

  function ReduceFunctionEntries(r: Reducer, c: bool, entries: OrderedMap<Function>, done: OrderedMap<Function>)
    : (res: Reduced<OrderedMap<Function>>)
    decreases |entries|
    ensures res.Success? && DistinctKeys(done) ==> DistinctKeys(res.value)
  {
    if entries == [] then Success(done)
    else
      var key :- r.identifier(entries[0].0);
      var f :- ReduceFunction(r, c, entries[0].1);
      InsertDistinct(done, key, f);
      ReduceFunctionEntries(r, c, entries[1..], Insert(done, key, f))
  }

  /** `reduce_program`: inputs, imports, circuits, functions, in that order. */
  function ReduceProgram(r: Reducer, c: bool, p: Program): (res: Reduced<Program>)
    ensures res.Success? ==>
              res.value.name == p.name && |res.value.expectedInput| == |p.expectedInput| &&
              |res.value.imports| == |p.imports| &&
              DistinctKeys(res.value.circuits) && DistinctKeys(res.value.functions)
  {
    var inputs :- ReduceFunctionInputs(r, c, p.expectedInput);
    var imports :- ReduceImports(r, p.imports);
    var circuits :- ReduceCircuitEntries(r, c, p.circuits, []);
    var functions :- ReduceFunctionEntries(r, c, p.functions, []);
    Success(Program(p.name, inputs, imports, circuits, functions))
  }

  // The `in_circuit` flag

  /**
   * Whether reducing the circuit entries stops inside a circuit member, the
   * one place where an error leaves `in_circuit` flipped.
   */
  predicate CircuitEntriesFlip(r: Reducer, c: bool, entries: OrderedMap<Circuit>)
    decreases |entries|
  {
    entries != [] && r.identifier(entries[0].0).Success? &&
    r.identifier(entries[0].1.circuitName).Success? &&
    (ReduceCircuitMembers(r, c, entries[0].1.members).Failure? || CircuitEntriesFlip(r, c, entries[1..]))
  }

  /** Whether `reduce_program` leaves `in_circuit` flipped. */
  predicate ProgramFlips(r: Reducer, c: bool, p: Program) {
    ReduceFunctionInputs(r, c, p.expectedInput).Success? && ReduceImports(r, p.imports).Success? &&
    CircuitEntriesFlip(r, c, p.circuits)
  }
}
