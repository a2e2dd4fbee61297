/**
 * The executor as it runs: one path that is pushed and popped, one error list
 * that is appended to, results filled in place.  Each method is proved to do
 * what the corresponding function of Execution says and to restore the path.
 */
module Executor {
  import opened Ast
  import opened Documents
  import opened Execution
  import opened ExecutionProperties
  import opened QueryAnalysis
  import opened ResolverRegistry
  import opened Wrappers

  lemma ProcessOneField<W>(env: Env<W>, parent: Json, path: Path, f: Node, result: Json, st: State<W>)
    requires Fillable(result)
    ensures ProcessFields(env, parent, path, [f], result, st) == ResolveField(env, parent, path, f, result, st)
  {
    var (r, s) := ResolveField(env, parent, path, f, result, st);
    assert [f][1..] == [] && ProcessFields(env, parent, path, [], r, s) == (r, s);
  }

  method CollectFieldNodes(selectionSet: Node) returns (fields: seq<Node>)
    ensures fields == if selectionSet.kind.SelectionSet? then Collect(selectionSet.children) else []
  {
    fields := [];
    if !selectionSet.kind.SelectionSet? { return; }
    var children := selectionSet.children;
    assert children[0..] == children;
    for i := 0 to |children|
      invariant fields + Collect(children[i..]) == Collect(children)
    {
      var selection := children[i];
      CollectAt(children, i);
      ghost var one, rest := CollectOne(selection), Collect(children[i + 1..]);
      assert fields + (one + rest) == (fields + one) + rest;
      if selection.kind.Field? {
        fields := fields + [selection];
        continue;
      }
      if selection.kind.SelectionWrapper? {
        if selection.children == [] { continue; }
        var first := selection.children[0];
        if first.kind.Field? { fields := fields + [first]; }
      }
    }
    assert children[|children|..] == [];
  }

  lemma CollectAt(children: seq<Node>, i: nat)
    requires i < |children|
    ensures Collect(children[i..]) == CollectOne(children[i]) + Collect(children[i + 1..])
  {
    assert children[i..] == [children[i]] + children[i + 1..];
    InlineCons(children[i], children[i + 1..]);
  }

  class Run<W> {
    const env: Env<W>
    var path: Path
    var errors: seq<Error>
    var world: W
    ghost var dispatched: nat

    constructor (env: Env<W>, world: W)
      ensures this.env == env && path == [] && St() == State([], world, 0)
    {
      this.env := env;
      this.world := world;
      path, errors, dispatched := [], [], 0;
    }

    ghost function St(): State<W>
      reads this
    {
      State(errors, world, dispatched)
    }

    /** Records an error at the field: its name is on the path only meanwhile. */
    method ReportAt(name: string, code: Code, message: Message)
      modifies `path, `errors
      ensures path == old(path)
      ensures St() == Fail(old(St()), code, message, path + [name])
    {
      path := path + [name];
      errors := errors + [Error(code, message, path)];
      path := path[..|path| - 1];
    }

    method ReportThrown(name: string, outcome: Outcome)
      requires !outcome.Returned?
      modifies `path, `errors
      ensures path == old(path)
      ensures St() == old(St()).(errors := old(errors) + [ThrownError(path + [name], outcome)])
    {
      path := path + [name];
      errors := errors + [ThrownError(path, outcome)];
      path := path[..|path| - 1];
    }

    method ResolveFieldSelectionDetails(parent: Json, f: Node, result: Json) returns (result': Json)
      requires Fillable(result)
      modifies this
      ensures path == old(path)
      ensures (result', St()) == ResolveField(env, parent, path, f, result, old(St()))
      decreases Size(f), 1
    {
      dispatched := dispatched + 1;
      if f.children == [] {
        errors := errors + [Error(PARSE_ERROR, EmptyField, [])];
        return result;
      }
      var name := FieldName(f);
      var obj := if result.Null? then Obj(map[]) else result;
      if name == "__typename" {
        return Put(obj, name, TypenameOf(env, path, parent));
      }
      var here := path + [name];
      var resolver := Lookup(env.resolvers, here);
      if resolver.None? {
        if parent.Obj? && name in parent.fields {
          return Put(obj, name, parent.fields[name]);
        }
        ReportAt(name, MISSING_GQL_RESOLVER, MissingResolver(here));
        return obj;
      }
      var (args, bad) := env.arguments(f);
      errors := errors + ArgumentErrors(bad);
      if Denied(env, path, name) {
        ReportAt(name, FORBIDDEN, AccessDenied(name, env.gates[name]));
        return Put(obj, name, Null);
      }
      if WrongOrganization(env, path, name, args) {
        ReportAt(name, CONTEXT_MISMATCH, ContextMismatch(args.fields["organizationId"].s, env.ctx.tenant));
        return Put(obj, name, Null);
      }
      var value := CallResolver(resolver.value, parent, f, args);
      result' := Put(obj, name, value);
    }

    /** The resolver's value, or null and an error when it throws. */
    method CallResolver(resolver: Resolver<W>, parent: Json, f: Node, args: Json) returns (value: Json)
      requires f.children != []
      modifies this
      ensures path == old(path)
      ensures (value, St()) ==
        var here := path + [FieldName(f)];
        var (w, outcome) := resolver(old(world), parent, args, env.ctx);
        var st := old(St()).(world := w);
        if outcome.Returned? then Complete(env, here, f, outcome.value, st)
        else (Null, st.(errors := st.errors + [ThrownError(here, outcome)]))
      decreases Size(f), 0, 1
    {
      var (w, outcome) := resolver(world, parent, args, env.ctx);
      world := w;
      if !outcome.Returned? {
        ReportThrown(FieldName(f), outcome);
        return Null;
      }
      value := CompleteValue(f, outcome.value);
    }

    /** The value of the field: the resolver's, narrowed by the sub-selection if there is one. */
    method CompleteValue(f: Node, value: Json) returns (value': Json)
      requires f.children != []
      modifies this
      ensures path == old(path)
      ensures (value', St()) == Complete(env, path + [FieldName(f)], f, value, old(St()))
      decreases Size(f), 0, 0
    {
      var name := FieldName(f);
      var set_ := SubSelection(f.children[1..]);
      if set_.None? { return value; }
      SubSelectionSmaller(f);
      match value
      case Null => value' := Null;
      case Arr(items) =>
        var out := ProcessListElements(items, name, set_.value);
        value' := Arr(out);
      case Obj(_) => value' := ProcessFieldSubSelections(value, name, set_.value, Obj(map[]));
      case _ =>
        ReportAt(name, UNKNOWN_ERROR, SelectionOnScalar(path + [name]));
        value' := Null;
    }

    method ProcessListElements(items: seq<Json>, name: string, set_: Node) returns (out: seq<Json>)
      modifies this
      ensures path == old(path)
      ensures (out, St()) == ProcessElements(env, items, path + [name], Inline(set_.children), old(St()))
      decreases Size(set_), 4
    {
      ghost var here, fields := path + [name], Inline(set_.children);
      ghost var whole := ProcessElements(env, items, here, fields, St());
      out := [];
      assert items[0..] == items && [] + whole.0 == whole.0;
      for i := 0 to |items|
        invariant path == old(path)
        invariant ElementsDone(env, items, i, here, fields, out, St(), whole)
      {
        ElementsStep(env, items, i, here, fields, out, St(), whole);
        if items[i].Null? {
          out := out + [Null];
          continue;
        }
        var element := ProcessFieldSubSelections(items[i], name, set_, Obj(map[]));
        out := out + [element];
      }
      assert items[|items|..] == [] && out + [] == out;
    }

    /** Visits the children of a selection set with the field's name pushed onto the path. */
    method ProcessFieldSubSelections(parent: Json, name: string, set_: Node, result: Json) returns (result': Json)
      requires Fillable(result)
      modifies this
      ensures path == old(path)
      ensures (result', St()) == ProcessFields(env, parent, path + [name], Inline(set_.children), result, old(St()))
      decreases Size(set_), 3
    {
      path := path + [name];
      result' := ProcessNodes(parent, set_.children, result);
      path := path[..|path| - 1];
    }

    method ProcessNodes(parent: Json, nodes: seq<Node>, result: Json) returns (result': Json)
      requires Fillable(result)
      modifies this
      ensures path == old(path)
      ensures (result', St()) == ProcessFields(env, parent, path, Inline(nodes), result, old(St()))
      decreases Sizes(nodes), 3
    {
      ghost var whole := ProcessFields(env, parent, path, Inline(nodes), result, St());
      result' := result;
      assert nodes[0..] == nodes;
      for i := 0 to |nodes|
        invariant path == old(path) && Fillable(result')
        invariant ProcessFields(env, parent, path, Inline(nodes[i..]), result', St()) == whole
      {
        InlineAt(nodes, i);
        SizesMember(nodes, nodes[i]);
        ProcessFieldsConcat(env, parent, path, InlineOne(nodes[i]), Inline(nodes[i + 1..]), result', St());
        result' := ProcessSubSelection(parent, nodes[i], result');
      }
      assert nodes[|nodes|..] == [];
    }

    method ProcessSubSelection(parent: Json, node: Node, result: Json) returns (result': Json)
      requires Fillable(result)
      modifies this
      ensures path == old(path)
      ensures (result', St()) == ProcessFields(env, parent, path, InlineOne(node), result, old(St()))
      ensures Fillable(result')
      decreases Size(node), 2
    {
      match node.kind
      case Field =>
        ProcessOneField(env, parent, path, node, result, St());
        result' := ResolveFieldSelectionDetails(parent, node, result);
      case SelectionSet =>
        var fields := CollectFieldNodes(node);
        result' := ProcessFieldNodes(parent, fields, result);
      case SelectionWrapper => result' := ProcessNodes(parent, node.children, result);
      case _ => result' := result;
    }

    method ProcessFieldNodes(parent: Json, fields: seq<Node>, result: Json) returns (result': Json)
      requires Fillable(result)
      modifies this
      ensures path == old(path)
      ensures (result', St()) == ProcessFields(env, parent, path, fields, result, old(St()))
      decreases Sizes(fields), 2
    {
      ghost var whole := ProcessFields(env, parent, path, fields, result, St());
      result' := result;
      assert fields[0..] == fields;
      for i := 0 to |fields|
        invariant path == old(path) && Fillable(result')
        invariant ProcessFields(env, parent, path, fields[i..], result', St()) == whole
      {
        assert fields[i..][1..] == fields[i + 1..];
        SizesMember(fields, fields[i]);
        result' := ResolveFieldSelectionDetails(parent, fields[i], result');
      }
    }

    // ------------------------------------------------------ Whole documents

    /** The limits are checked on the whole tree before anything is resolved. */
    method Execute(limits: Limits, root: Node) returns (data: Json)
      requires path == []
      modifies this
      ensures path == []
      ensures (data, St()) == ExecuteTree(env, limits, root, old(St()))
    {
      data := Null;
      if root.children == [] {
        errors := errors + [Error(PARSE_ERROR, EmptyDocument, [])];
        return;
      }
      var doc := root.children[0];
      if !doc.kind.Document? {
        errors := errors + [Error(PARSE_ERROR, NoDocument, [])];
        return;
      }
      if doc.children == [] {
        errors := errors + [Error(PARSE_ERROR, EmptyDocument, [])];
        return;
      }
      if limits.maxDepth > 0 || limits.maxComplexity > 0 {
        var depth, complexity := AnalyseQueryComplexity(root);
        if limits.maxDepth > 0 && depth > limits.maxDepth {
          errors := errors + [Error(ARGUMENT_ERROR, TooDeep(depth, limits.maxDepth), [])];
          return;
        }
        if limits.maxComplexity > 0 && complexity > limits.maxComplexity {
          errors := errors + [Error(ARGUMENT_ERROR, TooComplex(complexity, limits.maxComplexity), [])];
          return;
        }
      }
      data := ExecuteDefinitions(doc.children);
    }

    method ExecuteDefinitions(defs: seq<Node>) returns (data: Json)
      requires path == []
      modifies this
      ensures path == []
      ensures (data, St()) == RunDefinitions(env, defs, Null, old(St()))
    {
      ghost var whole := RunDefinitions(env, defs, Null, St());
      data := Null;
      assert defs[0..] == defs;
      for i := 0 to |defs|
        invariant path == [] && Fillable(data)
        invariant RunDefinitions(env, defs[i..], data, St()) == whole
      {
        assert defs[i..][1..] == defs[i + 1..];
        if !defs[i].kind.ExecutableDefinition? {
          errors := errors + [Error(PARSE_ERROR, NotExecutable, [])];
          return;
        }
        data := ExecuteOperations(defs[i].children, data);
      }
    }

    method ExecuteOperations(ops: seq<Node>, before: Json) returns (data: Json)
      requires path == [] && Fillable(before)
      modifies this
      ensures path == []
      ensures (data, St()) == RunOperations(env, ops, before, old(St()))
    {
      ghost var whole := RunOperations(env, ops, before, St());
      data := before;
      assert ops[0..] == ops;
      for i := 0 to |ops|
        invariant path == [] && Fillable(data)
        invariant RunOperations(env, ops[i..], data, St()) == whole
      {
        assert ops[i..][1..] == ops[i + 1..];
        data := ProcessOperationDefinitions(ops[i], data);
      }
    }

    method ProcessOperationDefinitions(op: Node, before: Json) returns (data: Json)
      requires path == [] && Fillable(before)
      modifies this
      ensures path == []
      ensures (data, St()) == RunOperation(env, op, before, old(St()))
    {
      data := before;
      if !op.kind.OperationDefinition? {
        errors := errors + [Error(PARSE_ERROR, NotAnOperation, [])];
      } else if op.children == [] {
        errors := errors + [Error(PARSE_ERROR, EmptyOperation, [])];
      } else if IsOperationKeyword(op.children[0].text) {
        ghost var whole := RunOperation(env, op, before, St());
        for i := 1 to |op.children|
          invariant path == [] && Fillable(data)
          invariant RunParts(env, op.children[i..], data, St()) == whole
        {
          assert op.children[i..][1..] == op.children[i + 1..];
          data := ProcessPart(op.children[i], data);
        }
      } else if op.children[0].kind.SelectionSet? {
        data := ProcessPart(op.children[0], data);
      } else {
        errors := errors + [Error(PARSE_ERROR, UnknownOperation(op.children[0].text), [])];
      }
    }

    method ProcessPart(part: Node, before: Json) returns (data: Json)
      requires path == [] && Fillable(before)
      modifies this
      ensures path == []
      ensures (data, St()) == RunPart(env, part, before, old(St()))
    {
      data := before;
      match part.kind
      case SelectionSet =>
        var fields := CollectFieldNodes(part);
        data := ProcessFieldNodes(Obj(map[]), fields, before);
      case VariableMetadata =>
      case Name =>
      case _ => errors := errors + [Error(PARSE_ERROR, NotASelectionSet, [])];
    }
  }

  lemma InlineAt(nodes: seq<Node>, i: nat)
    requires i < |nodes|
    ensures Inline(nodes[i..]) == InlineOne(nodes[i]) + Inline(nodes[i + 1..])
  {
    assert nodes[i..] == [nodes[i]] + nodes[i + 1..];
    InlineCons(nodes[i], nodes[i + 1..]);
  }

  /** The elements before i are in `out`; the rest, from here, completes the whole. */
  ghost predicate ElementsDone<W>(env: Env<W>, items: seq<Json>, i: nat, here: Path, fields: seq<Node>,
                                  out: seq<Json>, st: State<W>, whole: (seq<Json>, State<W>))
    requires i <= |items|
  {
    var (rest, st') := ProcessElements(env, items[i..], here, fields, st);
    whole == (out + rest, st')
  }

  lemma ElementsStep<W>(env: Env<W>, items: seq<Json>, i: nat, here: Path, fields: seq<Node>,
                        out: seq<Json>, st: State<W>, whole: (seq<Json>, State<W>))
    requires i < |items| && ElementsDone(env, items, i, here, fields, out, st, whole)
    ensures
      var (first, st') :=
        if items[i].Null? then (Null, st) else ProcessFields(env, items[i], here, fields, Obj(map[]), st);
      ElementsDone(env, items, i + 1, here, fields, out + [first], st', whole)
  {
    assert items[i..][1..] == items[i + 1..];
    var (first, st') :=
      if items[i].Null? then (Null, st) else ProcessFields(env, items[i], here, fields, Obj(map[]), st);
    var rest := ProcessElements(env, items[i + 1..], here, fields, st').0;
    assert out + ([first] + rest) == out + [first] + rest;
  }
}
