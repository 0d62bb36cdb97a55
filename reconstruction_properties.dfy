/**
 * Properties of the reconstruction: the reducer whose hooks accept every
 * rebuilt node gives back the tree it was given, list reductions go left to
 * right and stop at the first error, and `in_circuit` ends where it started
 * whenever the program reduces successfully.
 */
module ReconstructionProperties {
  import opened Wrappers
  import opened Ast
  import opened Reconstruction

  // The identity reducer rebuilds every node unchanged.

  lemma {:induction false} TypeIdentity(c: bool, t: Type)
    ensures ReduceType(Identity(), c, t) == Success(t)
    decreases t
  {
    match t
    case Scalar(_) =>
    case Array(element, _) => TypeIdentity(c, element);
    case Tuple(types) => TypesIdentity(c, types);
    case CircuitType(_) =>
  }

  lemma {:induction false} TypesIdentity(c: bool, ts: seq<Type>)
    ensures ReduceTypes(Identity(), c, ts) == Success(ts)
    decreases ts
  {
    if ts != [] {
      TypeIdentity(c, ts[0]);
      TypesIdentity(c, ts[1..]);
      assert [ts[0]] + ts[1..] == ts;
    }
  }

  lemma OptionalTypeIdentity(c: bool, t: Option<Type>)
    ensures ReduceOptionalType(Identity(), c, t) == Success(t)
  {
    if t.Some? {
      TypeIdentity(c, t.value);
    }
  }

  lemma {:induction false} ExpressionIdentity(c: bool, e: Expression)
    ensures ReduceExpression(Identity(), c, e) == Success(e)
    decreases e
  {
    match e
    case Ident(_) =>
    case Value(_) =>
    case Binary(left, right, _) =>
      ExpressionIdentity(c, left);
      ExpressionIdentity(c, right);
    case Unary(inner, _) => ExpressionIdentity(c, inner);
    case Ternary(condition, ifTrue, ifFalse) =>
      ExpressionIdentity(c, condition);
      ExpressionIdentity(c, ifTrue);
      ExpressionIdentity(c, ifFalse);
    case Cast(inner, targetType) =>
      ExpressionIdentity(c, inner);
      TypeIdentity(c, targetType);
    case ArrayInline(elements) => SpreadsIdentity(c, elements);
    case ArrayInit(element, _) => ExpressionIdentity(c, element);
    case ArrayAccess(arr, index) =>
      ExpressionIdentity(c, arr);
      ExpressionIdentity(c, index);
    case ArrayRangeAccess(arr, left, right) =>
      ExpressionIdentity(c, arr);
      OptionalIdentity(c, left);
      OptionalIdentity(c, right);
    case TupleInit(elements) => ExpressionsIdentity(c, elements);
    case TupleAccess(tuple, _) => ExpressionIdentity(c, tuple);
    case CircuitInit(_, members) => ImpliedVariablesIdentity(c, members);
    case CircuitMemberAccess(circuit, _) => ExpressionIdentity(c, circuit);
    case CircuitStaticFunctionAccess(circuit, _) => ExpressionIdentity(c, circuit);
    case Call(callee, arguments) =>
      ExpressionIdentity(c, callee);
      ExpressionsIdentity(c, arguments);
  }

  lemma {:induction false} ExpressionsIdentity(c: bool, es: seq<Expression>)
    ensures ReduceExpressions(Identity(), c, es) == Success(es)
    decreases es
  {
    if es != [] {
      ExpressionIdentity(c, es[0]);
      ExpressionsIdentity(c, es[1..]);
      assert [es[0]] + es[1..] == es;
    }
  }

  lemma {:induction false} OptionalIdentity(c: bool, e: Option<Expression>)
    ensures ReduceOptional(Identity(), c, e) == Success(e)
    decreases e
  {
    if e.Some? {
      ExpressionIdentity(c, e.value);
    }
  }

  lemma {:induction false} SpreadIdentity(c: bool, x: SpreadOrExpression)
    ensures ReduceSpread(Identity(), c, x) == Success(x)
    decreases x
  {
    match x
    case Spread(e) => ExpressionIdentity(c, e);
    case Plain(e) => ExpressionIdentity(c, e);
  }

  lemma {:induction false} SpreadsIdentity(c: bool, xs: seq<SpreadOrExpression>)
    ensures ReduceSpreads(Identity(), c, xs) == Success(xs)
    decreases xs
  {
    if xs != [] {
      SpreadIdentity(c, xs[0]);
      SpreadsIdentity(c, xs[1..]);
      assert [xs[0]] + xs[1..] == xs;
    }
  }

  lemma {:induction false} ImpliedVariableIdentity(c: bool, m: CircuitImpliedVariable)
    ensures ReduceImpliedVariable(Identity(), c, m) == Success(m)
    decreases m
  {
    OptionalIdentity(c, m.expression);
  }

  lemma {:induction false} ImpliedVariablesIdentity(c: bool, ms: seq<CircuitImpliedVariable>)
    ensures ReduceImpliedVariables(Identity(), c, ms) == Success(ms)
    decreases ms
  {
    if ms != [] {
      ImpliedVariableIdentity(c, ms[0]);
      ImpliedVariablesIdentity(c, ms[1..]);
      assert [ms[0]] + ms[1..] == ms;
    }
  }

  lemma {:induction false} StatementIdentity(c: bool, s: Statement)
    ensures ReduceStatement(Identity(), c, s) == Success(s)
    decreases s
  {
    match s
    case Return(e) => ExpressionIdentity(c, e);
    case Definition(_, names, declaredType, value) =>
      VariableNamesIdentity(names);
      OptionalTypeIdentity(c, declaredType);
      ExpressionIdentity(c, value);
    case Assign(assignee, _, value) =>
      AccessesIdentity(c, assignee.accesses);
      ExpressionIdentity(c, value);
    case Conditional(condition, block, next) =>
      ExpressionIdentity(c, condition);
      BlockIdentity(c, block);
      OptionalStatementIdentity(c, next);
    case Iteration(_, start, stop, body) =>
      ExpressionIdentity(c, start);
      ExpressionIdentity(c, stop);
      BlockIdentity(c, body);
    case Console(console) =>
      match console {
        case Assert(e) => ExpressionIdentity(c, e);
        case Format(_, format) => ExpressionsIdentity(c, format.parameters);
      }
    case ExpressionStatement(e) => ExpressionIdentity(c, e);
    case BlockStatement(block) => BlockIdentity(c, block);
  }

  lemma {:induction false} OptionalStatementIdentity(c: bool, s: Option<Statement>)
    ensures ReduceOptionalStatement(Identity(), c, s) == Success(s)
    decreases s
  {
    if s.Some? {
      StatementIdentity(c, s.value);
    }
  }

  lemma {:induction false} BlockIdentity(c: bool, b: Block)
    ensures ReduceBlock(Identity(), c, b) == Success(b)
    decreases b
  {
    StatementsIdentity(c, b.statements);
  }

  lemma {:induction false} StatementsIdentity(c: bool, ss: seq<Statement>)
    ensures ReduceStatements(Identity(), c, ss) == Success(ss)
    decreases ss
  {
    if ss != [] {
      StatementIdentity(c, ss[0]);
      StatementsIdentity(c, ss[1..]);
      assert [ss[0]] + ss[1..] == ss;
    }
  }

  lemma {:induction false} VariableNamesIdentity(names: seq<VariableName>)
    ensures ReduceVariableNames(Identity(), names) == Success(names)
  {
    if names != [] {
      VariableNamesIdentity(names[1..]);
      assert [names[0]] + names[1..] == names;
    }
  }

  lemma {:induction false} AccessesIdentity(c: bool, accesses: seq<AssigneeAccess>)
    ensures ReduceAccesses(Identity(), c, accesses) == Success(accesses)
  {
    if accesses != [] {
      match accesses[0] {
        case ArrayRange(left, right) =>
          OptionalIdentity(c, left);
          OptionalIdentity(c, right);
        case ArrayIndex(index) => ExpressionIdentity(c, index);
        case TupleIndex(_) =>
        case Member(_) =>
      }
      AccessesIdentity(c, accesses[1..]);
      assert [accesses[0]] + accesses[1..] == accesses;
    }
  }

  lemma {:induction false} FunctionInputsIdentity(c: bool, inputs: seq<FunctionInput>)
    ensures ReduceFunctionInputs(Identity(), c, inputs) == Success(inputs)
  {
    if inputs != [] {
      if inputs[0].Variable? {
        TypeIdentity(c, inputs[0].inputType);
      }
      FunctionInputsIdentity(c, inputs[1..]);
      assert [inputs[0]] + inputs[1..] == inputs;
    }
  }

  lemma {:induction false} AnnotationsIdentity(annotations: seq<Annotation>)
    ensures ReduceAnnotations(Identity(), annotations) == Success(annotations)
  {
    if annotations != [] {
      AnnotationsIdentity(annotations[1..]);
      assert [annotations[0]] + annotations[1..] == annotations;
    }
  }

  lemma FunctionIdentity(c: bool, f: Function)
    ensures ReduceFunction(Identity(), c, f) == Success(f)
  {
    AnnotationsIdentity(f.annotations);
    FunctionInputsIdentity(c, f.input);
    OptionalTypeIdentity(c, f.output);
    BlockIdentity(c, f.block);
  }

  lemma {:induction false} CircuitMembersIdentity(c: bool, ms: seq<CircuitMember>)
    ensures ReduceCircuitMembers(Identity(), c, ms) == Success(ms)
  {
    if ms != [] {
      match ms[0] {
        case CircuitVariable(_, memberType) => TypeIdentity(!c, memberType);
        case CircuitFunction(f) => FunctionIdentity(!c, f);
      }
      CircuitMembersIdentity(c, ms[1..]);
      assert [ms[0]] + ms[1..] == ms;
    }
  }

  lemma CircuitIdentity(c: bool, circuit: Circuit)
    ensures ReduceCircuit(Identity(), c, circuit) == Success(circuit)
  {
    CircuitMembersIdentity(c, circuit.members);
  }

  lemma {:induction false} ImportsIdentity(imports: seq<ImportStatement>)
    ensures ReduceImports(Identity(), imports) == Success(imports)
  {
    if imports != [] {
      ImportsIdentity(imports[1..]);
      assert [imports[0]] + imports[1..] == imports;
    }
  }

  /** Re-inserting distinct keys, in order, after the entries already done rebuilds the map. */
  lemma {:induction false} CircuitEntriesIdentity(c: bool, entries: OrderedMap<Circuit>, done: OrderedMap<Circuit>)
    requires DistinctKeys(done + entries)
    ensures ReduceCircuitEntries(Identity(), c, entries, done) == Success(done + entries)
    decreases |entries|
  {
    if entries != [] {
      CircuitIdentity(c, entries[0].1);
      var k := entries[0].0;
      assert forall i :: 0 <= i < |done| ==> done[i].0 != k by {
        forall i | 0 <= i < |done|
          ensures done[i].0 != k
        {
          assert (done + entries)[i] == done[i] && (done + entries)[|done|] == entries[0];
        }
      }
      assert k !in Keys(done);
      assert Insert(done, k, entries[0].1) == done + [entries[0]];
      assert done + [entries[0]] + entries[1..] == done + entries;
      CircuitEntriesIdentity(c, entries[1..], done + [entries[0]]);
      assert Identity().identifier(k) == Success(k);
      assert ReduceCircuitEntries(Identity(), c, entries, done) == ReduceCircuitEntries(Identity(), c, entries[1..], Insert(done, k, entries[0].1));
    } else {
      assert done + entries == done;
    }
  }

  lemma {:induction false} FunctionEntriesIdentity(c: bool, entries: OrderedMap<Function>, done: OrderedMap<Function>)
    requires DistinctKeys(done + entries)
    ensures ReduceFunctionEntries(Identity(), c, entries, done) == Success(done + entries)
    decreases |entries|
  {
    if entries != [] {
      FunctionIdentity(c, entries[0].1);
      var k := entries[0].0;
      assert forall i :: 0 <= i < |done| ==> done[i].0 != k by {
        forall i | 0 <= i < |done|
          ensures done[i].0 != k
        {
          assert (done + entries)[i] == done[i] && (done + entries)[|done|] == entries[0];
        }
      }
      assert k !in Keys(done);
      assert Insert(done, k, entries[0].1) == done + [entries[0]];
      assert done + [entries[0]] + entries[1..] == done + entries;
      FunctionEntriesIdentity(c, entries[1..], done + [entries[0]]);
      assert Identity().identifier(k) == Success(k);
      assert ReduceFunctionEntries(Identity(), c, entries, done) == ReduceFunctionEntries(Identity(), c, entries[1..], Insert(done, k, entries[0].1));
    } else {
      assert done + entries == done;
    }
  }

  /** With distinct circuit and function names, the identity reducer gives back the program. */
  lemma ProgramIdentity(c: bool, p: Program)
    requires DistinctKeys(p.circuits) && DistinctKeys(p.functions)
    ensures ReduceProgram(Identity(), c, p) == Success(p)
  {
    FunctionInputsIdentity(c, p.expectedInput);
    ImportsIdentity(p.imports);
    assert [] + p.circuits == p.circuits;
    assert [] + p.functions == p.functions;
    CircuitEntriesIdentity(c, p.circuits, []);
    FunctionEntriesIdentity(c, p.functions, []);
  }

  // Left to right, first error wins.

  /**
   * A list of expressions reduces exactly when every element does, to the
   * elements' reductions in order; otherwise its error is that of the first
   * element that fails.
   */
  lemma {:induction false} ExpressionsInOrder(r: Reducer, c: bool, es: seq<Expression>)
    ensures ReduceExpressions(r, c, es).Success? <==>
              forall i :: 0 <= i < |es| ==> ReduceExpression(r, c, es[i]).Success?
    ensures ReduceExpressions(r, c, es).Success? ==>
              forall i :: 0 <= i < |es| ==> ReduceExpressions(r, c, es).value[i] == ReduceExpression(r, c, es[i]).value
    ensures ReduceExpressions(r, c, es).Failure? ==>
              exists i :: 0 <= i < |es| && (forall j :: 0 <= j < i ==> ReduceExpression(r, c, es[j]).Success?) &&
                          ReduceExpression(r, c, es[i]) == Failure(ReduceExpressions(r, c, es).error)
    decreases es
  {
    if es != [] {
      ExpressionsInOrder(r, c, es[1..]);
      var head := ReduceExpression(r, c, es[0]);
      var tail := ReduceExpressions(r, c, es[1..]);
      if head.Success? && tail.Failure? {
        var i :| 0 <= i < |es[1..]| && (forall j :: 0 <= j < i ==> ReduceExpression(r, c, es[1..][j]).Success?) &&
                 ReduceExpression(r, c, es[1..][i]) == Failure(tail.error);
        assert forall j :: 0 <= j < i + 1 ==> ReduceExpression(r, c, es[j]).Success? by {
          forall j | 0 <= j < i + 1
            ensures ReduceExpression(r, c, es[j]).Success?
          {
            if j > 0 {
              assert es[j] == es[1..][j - 1];
            }
          }
        }
        assert es[i + 1] == es[1..][i];
      }
      if head.Success? && tail.Success? {
        assert forall i :: 1 <= i < |es| ==> es[i] == es[1..][i - 1];
      }
      if (forall i :: 0 <= i < |es| ==> ReduceExpression(r, c, es[i]).Success?) {
        assert forall i :: 0 <= i < |es[1..]| ==> es[1..][i] == es[i + 1];
      }
    }
  }

  /** The same rule for the statements of a block. */
  lemma {:induction false} StatementsInOrder(r: Reducer, c: bool, ss: seq<Statement>)
    ensures ReduceStatements(r, c, ss).Success? <==>
              forall i :: 0 <= i < |ss| ==> ReduceStatement(r, c, ss[i]).Success?
    ensures ReduceStatements(r, c, ss).Success? ==>
              forall i :: 0 <= i < |ss| ==> ReduceStatements(r, c, ss).value[i] == ReduceStatement(r, c, ss[i]).value
    ensures ReduceStatements(r, c, ss).Failure? ==>
              exists i :: 0 <= i < |ss| && (forall j :: 0 <= j < i ==> ReduceStatement(r, c, ss[j]).Success?) &&
                          ReduceStatement(r, c, ss[i]) == Failure(ReduceStatements(r, c, ss).error)
    decreases ss
  {
    if ss != [] {
      StatementsInOrder(r, c, ss[1..]);
      var head := ReduceStatement(r, c, ss[0]);
      var tail := ReduceStatements(r, c, ss[1..]);
      if head.Success? && tail.Failure? {
        var i :| 0 <= i < |ss[1..]| && (forall j :: 0 <= j < i ==> ReduceStatement(r, c, ss[1..][j]).Success?) &&
                 ReduceStatement(r, c, ss[1..][i]) == Failure(tail.error);
        assert forall j :: 0 <= j < i + 1 ==> ReduceStatement(r, c, ss[j]).Success? by {
          forall j | 0 <= j < i + 1
            ensures ReduceStatement(r, c, ss[j]).Success?
          {
            if j > 0 {
              assert ss[j] == ss[1..][j - 1];
            }
          }
        }
        assert ss[i + 1] == ss[1..][i];
      }
      if head.Success? && tail.Success? {
        assert forall i :: 1 <= i < |ss| ==> ss[i] == ss[1..][i - 1];
      }
      if (forall i :: 0 <= i < |ss| ==> ReduceStatement(r, c, ss[i]).Success?) {
        assert forall i :: 0 <= i < |ss[1..]| ==> ss[1..][i] == ss[i + 1];
      }
    }
  }

  /** The same rule for the elements of an inline array, each spread or plain. */
  lemma {:induction false} SpreadsInOrder(r: Reducer, c: bool, xs: seq<SpreadOrExpression>)
    ensures ReduceSpreads(r, c, xs).Success? <==>
              forall i :: 0 <= i < |xs| ==> ReduceSpread(r, c, xs[i]).Success?
    ensures ReduceSpreads(r, c, xs).Success? ==>
              forall i :: 0 <= i < |xs| ==> ReduceSpreads(r, c, xs).value[i] == ReduceSpread(r, c, xs[i]).value
    ensures ReduceSpreads(r, c, xs).Failure? ==>
              exists i :: 0 <= i < |xs| && (forall j :: 0 <= j < i ==> ReduceSpread(r, c, xs[j]).Success?) &&
                          ReduceSpread(r, c, xs[i]) == Failure(ReduceSpreads(r, c, xs).error)
    decreases xs
  {
    if xs != [] {
      SpreadsInOrder(r, c, xs[1..]);
      var head := ReduceSpread(r, c, xs[0]);
      var tail := ReduceSpreads(r, c, xs[1..]);
      if head.Success? && tail.Failure? {
        var i :| 0 <= i < |xs[1..]| && (forall j :: 0 <= j < i ==> ReduceSpread(r, c, xs[1..][j]).Success?) &&
                 ReduceSpread(r, c, xs[1..][i]) == Failure(tail.error);
        assert forall j :: 0 <= j < i + 1 ==> ReduceSpread(r, c, xs[j]).Success? by {
          forall j | 0 <= j < i + 1
            ensures ReduceSpread(r, c, xs[j]).Success?
          {
            if j > 0 {
              assert xs[j] == xs[1..][j - 1];
            }
          }
        }
        assert xs[i + 1] == xs[1..][i];
      }
      if head.Success? && tail.Success? {
        assert forall i :: 1 <= i < |xs| ==> xs[i] == xs[1..][i - 1];
      }
      if (forall i :: 0 <= i < |xs| ==> ReduceSpread(r, c, xs[i]).Success?) {
        assert forall i :: 0 <= i < |xs[1..]| ==> xs[1..][i] == xs[i + 1];
      }
    }
  }

  /**
   * The names of a definition: name `i` of the result carries the reduced
   * identifier of name `i`, and the first identifier that fails gives the error.
   */
  lemma {:induction false} VariableNamesInOrder(r: Reducer, names: seq<VariableName>)
    ensures ReduceVariableNames(r, names).Success? <==>
              forall i :: 0 <= i < |names| ==> r.identifier(names[i].identifier).Success?
    ensures ReduceVariableNames(r, names).Success? ==>
              forall i :: 0 <= i < |names| ==>
                ReduceVariableNames(r, names).value[i] ==
                VariableName(names[i].mutable, r.identifier(names[i].identifier).value)
    ensures ReduceVariableNames(r, names).Failure? ==>
              exists i :: 0 <= i < |names| && (forall j :: 0 <= j < i ==> r.identifier(names[j].identifier).Success?) &&
                          r.identifier(names[i].identifier) == Failure(ReduceVariableNames(r, names).error)
    decreases names
  {
    if names != [] {
      VariableNamesInOrder(r, names[1..]);
      var head := r.identifier(names[0].identifier);
      var tail := ReduceVariableNames(r, names[1..]);
      if head.Success? && tail.Failure? {
        var i :| 0 <= i < |names[1..]| && (forall j :: 0 <= j < i ==> r.identifier(names[1..][j].identifier).Success?) &&
                 r.identifier(names[1..][i].identifier) == Failure(tail.error);
        assert forall j :: 0 <= j < i + 1 ==> r.identifier(names[j].identifier).Success? by {
          forall j | 0 <= j < i + 1
            ensures r.identifier(names[j].identifier).Success?
          {
            if j > 0 {
              assert names[j] == names[1..][j - 1];
            }
          }
        }
        assert names[i + 1] == names[1..][i];
      }
      if head.Success? && tail.Success? {
        assert forall i :: 1 <= i < |names| ==> names[i] == names[1..][i - 1];
      }
      if (forall i :: 0 <= i < |names| ==> r.identifier(names[i].identifier).Success?) {
        assert forall i :: 0 <= i < |names[1..]| ==> names[1..][i] == names[i + 1];
      }
    }
  }

  /** A binary node reduces its left operand, then its right one; the first error is the result. */
  lemma BinaryInOrder(r: Reducer, c: bool, left: Expression, right: Expression, op: string)
    ensures ReduceExpression(r, c, left).Failure? ==>
              RebuildExpression(r, c, Binary(left, right, op)) == Failure(ReduceExpression(r, c, left).error)
    ensures ReduceExpression(r, c, left).Success? && ReduceExpression(r, c, right).Failure? ==>
              RebuildExpression(r, c, Binary(left, right, op)) == Failure(ReduceExpression(r, c, right).error)
    ensures ReduceExpression(r, c, left).Success? && ReduceExpression(r, c, right).Success? ==>
              RebuildExpression(r, c, Binary(left, right, op)) ==
              Success(Binary(ReduceExpression(r, c, left).value, ReduceExpression(r, c, right).value, op))
  {
  }

  /** A ternary node reduces its condition, then the two branches in order; the first error is the result. */
  lemma TernaryInOrder(r: Reducer, c: bool, condition: Expression, ifTrue: Expression, ifFalse: Expression)
    ensures ReduceExpression(r, c, condition).Failure? ==>
              RebuildExpression(r, c, Ternary(condition, ifTrue, ifFalse)) == Failure(ReduceExpression(r, c, condition).error)
    ensures ReduceExpression(r, c, condition).Success? && ReduceExpression(r, c, ifTrue).Failure? ==>
              RebuildExpression(r, c, Ternary(condition, ifTrue, ifFalse)) == Failure(ReduceExpression(r, c, ifTrue).error)
    ensures ReduceExpression(r, c, condition).Success? && ReduceExpression(r, c, ifTrue).Success? &&
            ReduceExpression(r, c, ifFalse).Failure? ==>
              RebuildExpression(r, c, Ternary(condition, ifTrue, ifFalse)) == Failure(ReduceExpression(r, c, ifFalse).error)
  {
    var e := Ternary(condition, ifTrue, ifFalse);
    var a, b := ReduceExpression(r, c, condition), ReduceExpression(r, c, ifTrue);
    if a.Failure? {
      assert RebuildExpression(r, c, e) == Failure(a.error);
    } else if b.Failure? {
      assert RebuildExpression(r, c, e) == Failure(b.error);
    }
  }

  /** An iteration reduces its variable, start, stop and body in that order; the first error is the result. */
  lemma IterationInOrder(r: Reducer, c: bool, variable: Identifier, start: Expression, stop: Expression, body: Block)
    ensures r.identifier(variable).Failure? ==>
              RebuildStatement(r, c, Iteration(variable, start, stop, body)) == Failure(r.identifier(variable).error)
    ensures r.identifier(variable).Success? && ReduceExpression(r, c, start).Failure? ==>
              RebuildStatement(r, c, Iteration(variable, start, stop, body)) == Failure(ReduceExpression(r, c, start).error)
    ensures r.identifier(variable).Success? && ReduceExpression(r, c, start).Success? &&
            ReduceExpression(r, c, stop).Failure? ==>
              RebuildStatement(r, c, Iteration(variable, start, stop, body)) == Failure(ReduceExpression(r, c, stop).error)
    ensures r.identifier(variable).Success? && ReduceExpression(r, c, start).Success? &&
            ReduceExpression(r, c, stop).Success? && ReduceBlock(r, c, body).Failure? ==>
              RebuildStatement(r, c, Iteration(variable, start, stop, body)) == Failure(ReduceBlock(r, c, body).error)
  {
    var s := Iteration(variable, start, stop, body);
    var v, a, b := r.identifier(variable), ReduceExpression(r, c, start), ReduceExpression(r, c, stop);
    if v.Failure? {
      assert RebuildStatement(r, c, s) == Failure(v.error);
    } else if a.Failure? {
      assert RebuildStatement(r, c, s) == Failure(a.error);
    } else if b.Failure? {
      assert RebuildStatement(r, c, s) == Failure(b.error);
    }
  }

  // The `in_circuit` flag.

  /** Reducing the circuit entries leaves the flag flipped only when the reduction fails. */
  lemma {:induction false} CircuitEntriesFlipOnlyOnFailure(r: Reducer, c: bool, entries: OrderedMap<Circuit>, done: OrderedMap<Circuit>)
    ensures CircuitEntriesFlip(r, c, entries) ==> ReduceCircuitEntries(r, c, entries, done).Failure?
    decreases |entries|
  {
    if entries != [] && r.identifier(entries[0].0).Success? && ReduceCircuit(r, c, entries[0].1).Success? {
      var key := r.identifier(entries[0].0).value;
      CircuitEntriesFlipOnlyOnFailure(r, c, entries[1..], Insert(done, key, ReduceCircuit(r, c, entries[0].1).value));
    }
  }

  /** After a successful `reduce_program`, `in_circuit` is what it was before. */
  lemma ProgramKeepsFlag(r: Reducer, c: bool, p: Program)
    ensures ReduceProgram(r, c, p).Success? ==> !ProgramFlips(r, c, p)
  {
    CircuitEntriesFlipOnlyOnFailure(r, c, p.circuits, []);
  }
}
