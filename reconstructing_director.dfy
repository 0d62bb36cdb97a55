/**
 * The reconstructing director: an object holding a reducer and the
 * `in_circuit` flag, whose methods walk the tree the way the Rust director
 * does, with its loops. Each method is proved to compute what the
 * corresponding function of `Reconstruction` describes; children that the
 * method hands on to `reduce_expression` or `reduce_statement` are reduced
 * through those functions.
 */
module Director {
  import opened Wrappers
  import opened Ast
  import Spec = Reconstruction
  import ReconstructionProperties

  class ReconstructingDirector {
    const reducer: Spec.Reducer
    var inCircuit: bool

    constructor (reducer: Spec.Reducer)
      ensures this.reducer == reducer && !inCircuit
    {
      this.reducer := reducer;
      inCircuit := false;
    }

    /** `reduce_type`: an array reduces its element, a tuple each of its types in order, a circuit type its name. */
    method ReduceType(t: Type) returns (result: Spec.Reduced<Type>)
      decreases t
      ensures result == Spec.ReduceType(reducer, inCircuit, t)
    {
      var rebuilt: Type;
      match t {
        case Scalar(_) =>
          rebuilt := t;
        case Array(element, dimensions) =>
          var element' :- ReduceType(element);
          rebuilt := Array(element', dimensions);
        case Tuple(types) =>
          var reduced: seq<Type> := [];
          Spec.PrependEmpty(Spec.ReduceTypes(reducer, inCircuit, types));
          for i := 0 to |types|
            invariant Spec.ReduceTypes(reducer, inCircuit, types) ==
                      Spec.Prepend(reduced, Spec.ReduceTypes(reducer, inCircuit, types[i..]))
          {
            assert types[i..][1..] == types[i + 1..];
            var type' :- ReduceType(types[i]);
            Spec.PrependStep(reduced, type', Spec.ReduceTypes(reducer, inCircuit, types[i + 1..]));
            reduced := reduced + [type'];
          }
          Spec.PrependNothing(reduced);
          rebuilt := Tuple(reduced);
        case CircuitType(identifier) =>
          var identifier' :- reducer.identifier(identifier);
          rebuilt := CircuitType(identifier');
      }
      result := reducer.reduceType(t, rebuilt, inCircuit);
    }

    /** `reduce_array_inline`: each element in order, spread or plain. */
    method ReduceArrayInline(e: Expression) returns (result: Spec.Reduced<Expression>)
      requires e.ArrayInline?
      ensures result == Spec.RebuildExpression(reducer, inCircuit, e)
    {
      var items := e.inlineElements;
      var elements: seq<SpreadOrExpression> := [];
      Spec.PrependEmpty(Spec.ReduceSpreads(reducer, inCircuit, items));
      for i := 0 to |items|
        invariant Spec.ReduceSpreads(reducer, inCircuit, items) ==
                  Spec.Prepend(elements, Spec.ReduceSpreads(reducer, inCircuit, items[i..]))
      {
        assert items[i..][1..] == items[i + 1..];
        var element :- Spec.ReduceSpread(reducer, inCircuit, items[i]);
        Spec.PrependStep(elements, element, Spec.ReduceSpreads(reducer, inCircuit, items[i + 1..]));
        elements := elements + [element];
      }
      Spec.PrependNothing(elements);
      return Success(ArrayInline(elements));
    }

    /** `reduce_tuple_init`: each element in order. */
    method ReduceTupleInit(e: Expression) returns (result: Spec.Reduced<Expression>)
      requires e.TupleInit?
      ensures result == Spec.RebuildExpression(reducer, inCircuit, e)
    {
      var items := e.tupleElements;
      var elements: seq<Expression> := [];
      Spec.PrependEmpty(Spec.ReduceExpressions(reducer, inCircuit, items));
      for i := 0 to |items|
        invariant Spec.ReduceExpressions(reducer, inCircuit, items) ==
                  Spec.Prepend(elements, Spec.ReduceExpressions(reducer, inCircuit, items[i..]))
      {
        assert items[i..][1..] == items[i + 1..];
        var element :- Spec.ReduceExpression(reducer, inCircuit, items[i]);
        Spec.PrependStep(elements, element, Spec.ReduceExpressions(reducer, inCircuit, items[i + 1..]));
        elements := elements + [element];
      }
      Spec.PrependNothing(elements);
      return Success(TupleInit(elements));
    }

    /** `reduce_circuit_init`: the circuit name, then each member in order. */
    method ReduceCircuitInit(e: Expression) returns (result: Spec.Reduced<Expression>)
      requires e.CircuitInit?
      ensures result == Spec.RebuildExpression(reducer, inCircuit, e)
    {
      var name :- reducer.identifier(e.circuitName);
      var items := e.members;
      var members: seq<CircuitImpliedVariable> := [];
      Spec.PrependEmpty(Spec.ReduceImpliedVariables(reducer, inCircuit, items));
      for i := 0 to |items|
        invariant Spec.ReduceImpliedVariables(reducer, inCircuit, items) ==
                  Spec.Prepend(members, Spec.ReduceImpliedVariables(reducer, inCircuit, items[i..]))
      {
        assert items[i..][1..] == items[i + 1..];
        var member :- Spec.ReduceImpliedVariable(reducer, inCircuit, items[i]);
        Spec.PrependStep(members, member, Spec.ReduceImpliedVariables(reducer, inCircuit, items[i + 1..]));
        members := members + [member];
      }
      Spec.PrependNothing(members);
      return Success(CircuitInit(name, members));
    }

    /** `reduce_call`: the function, then each argument in order. */
    method ReduceCall(e: Expression) returns (result: Spec.Reduced<Expression>)
      requires e.Call?
      ensures result == Spec.RebuildExpression(reducer, inCircuit, e)
    {
      var callee :- Spec.ReduceExpression(reducer, inCircuit, e.callee);
      var items := e.arguments;
      var arguments: seq<Expression> := [];
      Spec.PrependEmpty(Spec.ReduceExpressions(reducer, inCircuit, items));
      for i := 0 to |items|
        invariant Spec.ReduceExpressions(reducer, inCircuit, items) ==
                  Spec.Prepend(arguments, Spec.ReduceExpressions(reducer, inCircuit, items[i..]))
      {
        assert items[i..][1..] == items[i + 1..];
        var argument :- Spec.ReduceExpression(reducer, inCircuit, items[i]);
        Spec.PrependStep(arguments, argument, Spec.ReduceExpressions(reducer, inCircuit, items[i + 1..]));
        arguments := arguments + [argument];
      }
      Spec.PrependNothing(arguments);
      return Success(Call(callee, arguments));
    }

    /** `reduce_definition`: the variable names in order, the optional type, then the value. */
    method ReduceDefinition(s: Statement) returns (result: Spec.Reduced<Statement>)
      requires s.Definition?
      ensures result == Spec.RebuildStatement(reducer, inCircuit, s)
    {
      var items := s.variableNames;
      var names: seq<VariableName> := [];
      Spec.PrependEmpty(Spec.ReduceVariableNames(reducer, items));
      for i := 0 to |items|
        invariant Spec.ReduceVariableNames(reducer, items) ==
                  Spec.Prepend(names, Spec.ReduceVariableNames(reducer, items[i..]))
      {
        assert items[i..][1..] == items[i + 1..];
        var identifier :- reducer.identifier(items[i].identifier);
        Spec.PrependStep(names, VariableName(items[i].mutable, identifier), Spec.ReduceVariableNames(reducer, items[i + 1..]));
        names := names + [VariableName(items[i].mutable, identifier)];
      }
      Spec.PrependNothing(names);
      var declaredType: Option<Type> := None;
      if s.declaredType.Some? {
        var t :- ReduceType(s.declaredType.value);
        declaredType := Some(t);
      }
      var value :- Spec.ReduceExpression(reducer, inCircuit, s.value);
      return Success(Definition(s.declaration, names, declaredType, value));
    }

    /** `reduce_assignee`: the identifier, then each access in order. */
    method ReduceAssignee(a: Assignee) returns (result: Spec.Reduced<Assignee>)
      ensures result == Spec.ReduceAssignee(reducer, inCircuit, a)
    {
      var identifier :- reducer.identifier(a.identifier);
      var items := a.accesses;
      var accesses: seq<AssigneeAccess> := [];
      Spec.PrependEmpty(Spec.ReduceAccesses(reducer, inCircuit, items));
      for i := 0 to |items|
        invariant Spec.ReduceAccesses(reducer, inCircuit, items) ==
                  Spec.Prepend(accesses, Spec.ReduceAccesses(reducer, inCircuit, items[i..]))
      {
        assert items[i..][1..] == items[i + 1..];
        var access :- Spec.ReduceAssigneeAccess(reducer, inCircuit, items[i]);
        Spec.PrependStep(accesses, access, Spec.ReduceAccesses(reducer, inCircuit, items[i + 1..]));
        accesses := accesses + [access];
      }
      Spec.PrependNothing(accesses);
      return Success(Assignee(identifier, accesses));
    }

    /** `reduce_console`: an assertion's expression, or a format's parameters in order. */
    method ReduceConsole(f: ConsoleFunction) returns (result: Spec.Reduced<ConsoleFunction>)
      ensures result == Spec.ReduceConsole(reducer, inCircuit, f)
    {
      match f {
        case Assert(e) =>
          var e' :- Spec.ReduceExpression(reducer, inCircuit, e);
          return Success(Assert(e'));
        case Format(kind, format) =>
          var items := format.parameters;
          var parameters: seq<Expression> := [];
          Spec.PrependEmpty(Spec.ReduceExpressions(reducer, inCircuit, items));
          for i := 0 to |items|
            invariant Spec.ReduceExpressions(reducer, inCircuit, items) ==
                      Spec.Prepend(parameters, Spec.ReduceExpressions(reducer, inCircuit, items[i..]))
          {
            assert items[i..][1..] == items[i + 1..];
            var parameter :- Spec.ReduceExpression(reducer, inCircuit, items[i]);
            Spec.PrependStep(parameters, parameter, Spec.ReduceExpressions(reducer, inCircuit, items[i + 1..]));
            parameters := parameters + [parameter];
          }
          Spec.PrependNothing(parameters);
          return Success(Format(kind, FormatString(format.parts, parameters)));
      }
    }

    /** `reduce_block`: each statement in order. */
    method ReduceBlock(b: Block) returns (result: Spec.Reduced<Block>)
      ensures result == Spec.ReduceBlock(reducer, inCircuit, b)
    {
      var items := b.statements;
      var statements: seq<Statement> := [];
      Spec.PrependEmpty(Spec.ReduceStatements(reducer, inCircuit, items));
      for i := 0 to |items|
        invariant Spec.ReduceStatements(reducer, inCircuit, items) ==
                  Spec.Prepend(statements, Spec.ReduceStatements(reducer, inCircuit, items[i..]))
      {
        assert items[i..][1..] == items[i + 1..];
        var statement :- Spec.ReduceStatement(reducer, inCircuit, items[i]);
        Spec.PrependStep(statements, statement, Spec.ReduceStatements(reducer, inCircuit, items[i + 1..]));
        statements := statements + [statement];
      }
      Spec.PrependNothing(statements);
      return Success(Block(statements));
    }

    /** `reduce_function`: identifier, annotations in order, inputs in order, optional output, block. */
    method ReduceFunction(f: Function) returns (result: Spec.Reduced<Function>)
      ensures result == Spec.ReduceFunction(reducer, inCircuit, f)
    {
      var identifier :- reducer.identifier(f.identifier);
      var annotations: seq<Annotation> := [];
      Spec.PrependEmpty(Spec.ReduceAnnotations(reducer, f.annotations));
      for i := 0 to |f.annotations|
        invariant Spec.ReduceAnnotations(reducer, f.annotations) ==
                  Spec.Prepend(annotations, Spec.ReduceAnnotations(reducer, f.annotations[i..]))
      {
        assert f.annotations[i..][1..] == f.annotations[i + 1..];
        var name :- reducer.identifier(f.annotations[i].name);
        Spec.PrependStep(annotations, Annotation(name, f.annotations[i].arguments), Spec.ReduceAnnotations(reducer, f.annotations[i + 1..]));
        annotations := annotations + [Annotation(name, f.annotations[i].arguments)];
      }
      Spec.PrependNothing(annotations);
      var inputs :- ReduceFunctionInputs(f.input);
      var output: Option<Type> := None;
      if f.output.Some? {
        var t :- ReduceType(f.output.value);
        output := Some(t);
      }
      var block :- ReduceBlock(f.block);
      return Success(Function(annotations, identifier, inputs, output, block));
    }

    /**
     * `reduce_circuit_member`: the member is reduced with `in_circuit`
     * flipped, and the flag flipped back afterwards; an error on the way
     * returns early and leaves it flipped.
     */
    method ReduceCircuitMember(member: CircuitMember) returns (result: Spec.Reduced<CircuitMember>)
      modifies this
      ensures result == Spec.ReduceCircuitMember(reducer, old(inCircuit), member)
      ensures inCircuit == (old(inCircuit) != result.Failure?)
    {
      inCircuit := !inCircuit;
      var reduced: CircuitMember;
      match member {
        case CircuitVariable(identifier, memberType) =>
          var identifier' :- reducer.identifier(identifier);
          var memberType' :- ReduceType(memberType);
          reduced := CircuitVariable(identifier', memberType');
        case CircuitFunction(f) =>
          var f' :- ReduceFunction(f);
          reduced := CircuitFunction(f');
      }
      inCircuit := !inCircuit;
      return Success(reduced);
    }

    /** `reduce_circuit`: the name, then each member in order. */
    method ReduceCircuit(circuit: Circuit) returns (result: Spec.Reduced<Circuit>)
      modifies this
      ensures result == Spec.ReduceCircuit(reducer, old(inCircuit), circuit)
      ensures inCircuit == (old(inCircuit) != (reducer.identifier(circuit.circuitName).Success? && result.Failure?))
    {
      var name :- reducer.identifier(circuit.circuitName);
      var members: seq<CircuitMember> := [];
      Spec.PrependEmpty(Spec.ReduceCircuitMembers(reducer, inCircuit, circuit.members));
      for i := 0 to |circuit.members|
        invariant inCircuit == old(inCircuit)
        invariant Spec.ReduceCircuitMembers(reducer, inCircuit, circuit.members) ==
                  Spec.Prepend(members, Spec.ReduceCircuitMembers(reducer, inCircuit, circuit.members[i..]))
      {
        assert circuit.members[i..][1..] == circuit.members[i + 1..];
        var member :- ReduceCircuitMember(circuit.members[i]);
        Spec.PrependStep(members, member, Spec.ReduceCircuitMembers(reducer, inCircuit, circuit.members[i + 1..]));
        members := members + [member];
      }
      Spec.PrependNothing(members);
      return Success(Circuit(name, members));
    }

    /** The loop over function inputs in `reduce_function` and `reduce_program`: each input in order. */
    method ReduceFunctionInputs(items: seq<FunctionInput>) returns (result: Spec.Reduced<seq<FunctionInput>>)
      ensures result == Spec.ReduceFunctionInputs(reducer, inCircuit, items)
    {
      var inputs: seq<FunctionInput> := [];
      Spec.PrependEmpty(Spec.ReduceFunctionInputs(reducer, inCircuit, items));
      for i := 0 to |items|
        invariant Spec.ReduceFunctionInputs(reducer, inCircuit, items) ==
                  Spec.Prepend(inputs, Spec.ReduceFunctionInputs(reducer, inCircuit, items[i..]))
      {
        assert items[i..][1..] == items[i + 1..];
        var input :- Spec.ReduceFunctionInput(reducer, inCircuit, items[i]);
        Spec.PrependStep(inputs, input, Spec.ReduceFunctionInputs(reducer, inCircuit, items[i + 1..]));
        inputs := inputs + [input];
      }
      Spec.PrependNothing(inputs);
      return Success(inputs);
    }

    /** The loop over imports in `reduce_program`: each import in order. */
    method ReduceImports(items: seq<ImportStatement>) returns (result: Spec.Reduced<seq<ImportStatement>>)
      ensures result == Spec.ReduceImports(reducer, items)
    {
      var imports: seq<ImportStatement> := [];
      Spec.PrependEmpty(Spec.ReduceImports(reducer, items));
      for i := 0 to |items|
        invariant Spec.ReduceImports(reducer, items) == Spec.Prepend(imports, Spec.ReduceImports(reducer, items[i..]))
      {
        assert items[i..][1..] == items[i + 1..];
        var import' :- Spec.ReduceImport(reducer, items[i]);
        Spec.PrependStep(imports, import', Spec.ReduceImports(reducer, items[i + 1..]));
        imports := imports + [import'];
      }
      Spec.PrependNothing(imports);
      return Success(imports);
    }

    /**
     * The loop over circuits in `reduce_program`: for each entry in order,
     * the reduced name, then the reduced circuit, inserted into a fresh
     * ordered map.
     */
    method ReduceCircuitEntries(entries: OrderedMap<Circuit>) returns (result: Spec.Reduced<OrderedMap<Circuit>>)
      modifies this
      ensures result == Spec.ReduceCircuitEntries(reducer, old(inCircuit), entries, [])
      ensures inCircuit == (old(inCircuit) != Spec.CircuitEntriesFlip(reducer, old(inCircuit), entries))
    {
      var circuits: OrderedMap<Circuit> := [];
      for i := 0 to |entries|
        invariant inCircuit == old(inCircuit)
        invariant Spec.ReduceCircuitEntries(reducer, inCircuit, entries, []) ==
                  Spec.ReduceCircuitEntries(reducer, inCircuit, entries[i..], circuits)
        invariant Spec.CircuitEntriesFlip(reducer, inCircuit, entries) ==
                  Spec.CircuitEntriesFlip(reducer, inCircuit, entries[i..])
      {
        assert entries[i..][1..] == entries[i + 1..];
        var key :- reducer.identifier(entries[i].0);
        var circuit :- ReduceCircuit(entries[i].1);
        circuits := Insert(circuits, key, circuit);
      }
      return Success(circuits);
    }

    /** The loop over functions in `reduce_program`, as for circuits. */
    method ReduceFunctionEntries(entries: OrderedMap<Function>) returns (result: Spec.Reduced<OrderedMap<Function>>)
      ensures result == Spec.ReduceFunctionEntries(reducer, inCircuit, entries, [])
    {
      var functions: OrderedMap<Function> := [];
      for i := 0 to |entries|
        invariant Spec.ReduceFunctionEntries(reducer, inCircuit, entries, []) ==
                  Spec.ReduceFunctionEntries(reducer, inCircuit, entries[i..], functions)
      {
        assert entries[i..][1..] == entries[i + 1..];
        var key :- reducer.identifier(entries[i].0);
        var function' :- ReduceFunction(entries[i].1);
        functions := Insert(functions, key, function');
      }
      return Success(functions);
    }

    /**
     * `reduce_program`: the expected inputs, the imports, the circuits and
     * the functions, in that order.
     */
    method ReduceProgram(program: Program) returns (result: Spec.Reduced<Program>)
      modifies this
      ensures result == Spec.ReduceProgram(reducer, old(inCircuit), program)
      ensures inCircuit == (old(inCircuit) != Spec.ProgramFlips(reducer, old(inCircuit), program))
    {
      ReconstructionProperties.CircuitEntriesFlipOnlyOnFailure(reducer, inCircuit, program.circuits, []);
      var inputs :- ReduceFunctionInputs(program.expectedInput);
      var imports :- ReduceImports(program.imports);
      var circuits :- ReduceCircuitEntries(program.circuits);
      var functions :- ReduceFunctionEntries(program.functions);
      return Success(Program(program.name, inputs, imports, circuits, functions));
    }
  }
}
