/**
 * Execution of whole documents: operations one after another, behind the
 * depth and complexity limits, and what the limits guarantee.
 */
module Documents {
  import opened Ast
  import opened Execution
  import opened ExecutionProperties
  import opened QueryAnalysis
  import opened ResolverRegistry
  import opened Wrappers

  /** Zero switches a limit off. */
  datatype Limits = Limits(maxDepth: nat, maxComplexity: nat)

  predicate IsOperationKeyword(text: string) { text == "query" || text == "mutation" || text == "subscription" }

  /** Variable declarations and operation names are metadata. */
  function RunPart<W>(env: Env<W>, part: Node, data: Json, st: State<W>): (r: (Json, State<W>))
    requires Fillable(data)
    ensures Fillable(r.0)
  {
    match part.kind
    case SelectionSet => ProcessFields(env, Obj(map[]), [], Collect(part.children), data, st)
    case VariableMetadata => (data, st)
    case Name => (data, st)
    case _ => (data, Fail(st, PARSE_ERROR, NotASelectionSet, []))
  }

  /** The parts of an operation after its keyword. */
  function RunParts<W>(env: Env<W>, parts: seq<Node>, data: Json, st: State<W>): (r: (Json, State<W>))
    requires Fillable(data)
    ensures Fillable(r.0)
    decreases |parts|
  {
    if parts == [] then (data, st)
    else
      var (data', st') := RunPart(env, parts[0], data, st);
      RunParts(env, parts[1..], data', st')
  }

  function RunOperation<W>(env: Env<W>, op: Node, data: Json, st: State<W>): (r: (Json, State<W>))
    requires Fillable(data)
    ensures Fillable(r.0)
  {
    if !op.kind.OperationDefinition? then (data, Fail(st, PARSE_ERROR, NotAnOperation, []))
    else if op.children == [] then (data, Fail(st, PARSE_ERROR, EmptyOperation, []))
    else if IsOperationKeyword(op.children[0].text) then RunParts(env, op.children[1..], data, st)
    else if op.children[0].kind.SelectionSet? then RunPart(env, op.children[0], data, st)
    else (data, Fail(st, PARSE_ERROR, UnknownOperation(op.children[0].text), []))
  }

  function RunOperations<W>(env: Env<W>, ops: seq<Node>, data: Json, st: State<W>): (r: (Json, State<W>))
    requires Fillable(data)
    ensures Fillable(r.0)
    decreases |ops|
  {
    if ops == [] then (data, st)
    else
      var (data', st') := RunOperation(env, ops[0], data, st);
      RunOperations(env, ops[1..], data', st')
  }

  /** Stops at the first definition that is not executable. */
  function RunDefinitions<W>(env: Env<W>, defs: seq<Node>, data: Json, st: State<W>): (r: (Json, State<W>))
    requires Fillable(data)
    ensures Fillable(r.0)
    decreases |defs|
  {
    if defs == [] then (data, st)
    else if !defs[0].kind.ExecutableDefinition? then (data, Fail(st, PARSE_ERROR, NotExecutable, []))
    else
      var (data', st') := RunOperations(env, defs[0].children, data, st);
      RunDefinitions(env, defs[1..], data', st')
  }

  function ExecuteTree<W>(env: Env<W>, limits: Limits, root: Node, st: State<W>): (Json, State<W>) {
    if root.children == [] then (Null, Fail(st, PARSE_ERROR, EmptyDocument, []))
    else
      var doc := root.children[0];
      if !doc.kind.Document? then (Null, Fail(st, PARSE_ERROR, NoDocument, []))
      else if doc.children == [] then (Null, Fail(st, PARSE_ERROR, EmptyDocument, []))
      else if limits.maxDepth > 0 && Depth(root) > limits.maxDepth then
        (Null, Fail(st, ARGUMENT_ERROR, TooDeep(Depth(root), limits.maxDepth), []))
      else if limits.maxComplexity > 0 && FieldCount(root) > limits.maxComplexity then
        (Null, Fail(st, ARGUMENT_ERROR, TooComplex(FieldCount(root), limits.maxComplexity), []))
      else RunDefinitions(env, doc.children, Null, st)
  }

  // ----------------------------------------------- What the limits guarantee

  /** Errors were only appended, the new ones with paths up to k, after at most `work` dispatches. */
  ghost predicate Within<W>(st: State<W>, st': State<W>, k: nat, work: nat) {
    && Extends(st, st') && ShortFrom(st'.errors, |st.errors|, k)
    && st'.dispatched <= st.dispatched + work
  }

  lemma WithinThen<W>(a: State<W>, b: State<W>, c: State<W>, k: nat, x: nat, y: nat, p: nat)
    requires Within(a, b, k, x * p) && Within(b, c, k, y * p)
    ensures Within(a, c, k, (x + y) * p)
  {
    MulDistributes(x, y, p);
  }

  lemma WithinMore<W>(a: State<W>, b: State<W>, k: nat, x: nat, y: nat, p: nat)
    requires Within(a, b, k, x * p) && x <= y
    ensures Within(a, b, k, y * p)
  {
    MulMonotone(x, y, p, p);
  }

  ghost predicate Bounded<W(!new)>(env: Env<W>, l: nat, d: nat) { l >= 1 && d >= 1 && ListsBounded(env, l) }

  lemma SelectionSetWithin<W(!new)>(env: Env<W>, l: nat, d: nat, set_: Node, data: Json, st: State<W>)
    requires Bounded(env, l, d) && Fillable(data) && set_.kind.SelectionSet? && Depth(set_) <= d
    ensures Within(st, ProcessFields(env, Obj(map[]), [], Collect(set_.children), data, st).1, d,
                   FieldCount(set_) * Pow(l, d - 1))
  {
    var fields := Collect(set_.children);
    var st' := ProcessFields(env, Obj(map[]), [], fields, data, st).1;
    CollectCounts(set_.children);
    ProcessFieldsGrows(env, Obj(map[]), [], fields, data, st);
    ProcessFieldsPaths(env, Obj(map[]), [], fields, data, st, d);
    ProcessFieldsBound(env, l, d - 1, Obj(map[]), [], fields, data, st);
    assert Within(st, st', d, FieldCounts(fields) * Pow(l, d - 1));
    WithinMore(st, st', d, FieldCounts(fields), FieldCount(set_), Pow(l, d - 1));
  }

  lemma PartWithin<W(!new)>(env: Env<W>, l: nat, d: nat, part: Node, data: Json, st: State<W>)
    requires Bounded(env, l, d) && Fillable(data) && Depth(part) <= d
    ensures Within(st, RunPart(env, part, data, st).1, d, FieldCount(part) * Pow(l, d - 1))
  {
    if part.kind.SelectionSet? { SelectionSetWithin(env, l, d, part, data, st); }
  }

  lemma {:induction false} PartsWithin<W(!new)>(env: Env<W>, l: nat, d: nat, parts: seq<Node>, data: Json, st: State<W>)
    requires Bounded(env, l, d) && Fillable(data) && Depths(parts) <= d
    ensures Within(st, RunParts(env, parts, data, st).1, d, FieldCounts(parts) * Pow(l, d - 1))
    decreases |parts|
  {
    if parts != [] {
      var (data1, st1) := RunPart(env, parts[0], data, st);
      PartWithin(env, l, d, parts[0], data, st);
      PartsWithin(env, l, d, parts[1..], data1, st1);
      WithinThen(st, st1, RunParts(env, parts[1..], data1, st1).1, d,
                 FieldCount(parts[0]), FieldCounts(parts[1..]), Pow(l, d - 1));
    }
  }

  lemma OperationWithin<W(!new)>(env: Env<W>, l: nat, d: nat, op: Node, data: Json, st: State<W>)
    requires Bounded(env, l, d) && Fillable(data) && Depth(op) <= d
    ensures Within(st, RunOperation(env, op, data, st).1, d, FieldCount(op) * Pow(l, d - 1))
  {
    if op.kind.OperationDefinition? && op.children != [] {
      var first := op.children[0];
      var st' := RunOperation(env, op, data, st).1;
      CountMember(op.children, first);
      if IsOperationKeyword(first.text) {
        PartsWithin(env, l, d, op.children[1..], data, st);
        WithinMore(st, st', d, FieldCounts(op.children[1..]), FieldCount(op), Pow(l, d - 1));
      } else if first.kind.SelectionSet? {
        PartWithin(env, l, d, first, data, st);
        WithinMore(st, st', d, FieldCount(first), FieldCount(op), Pow(l, d - 1));
      }
    }
  }

  lemma {:induction false} OperationsWithin<W(!new)>(
      env: Env<W>, l: nat, d: nat, ops: seq<Node>, data: Json, st: State<W>)
    requires Bounded(env, l, d) && Fillable(data) && Depths(ops) <= d
    ensures Within(st, RunOperations(env, ops, data, st).1, d, FieldCounts(ops) * Pow(l, d - 1))
    decreases |ops|
  {
    if ops != [] {
      var (data1, st1) := RunOperation(env, ops[0], data, st);
      OperationWithin(env, l, d, ops[0], data, st);
      OperationsWithin(env, l, d, ops[1..], data1, st1);
      WithinThen(st, st1, RunOperations(env, ops[1..], data1, st1).1, d,
                 FieldCount(ops[0]), FieldCounts(ops[1..]), Pow(l, d - 1));
    }
  }

  lemma {:induction false} DefinitionsWithin<W(!new)>(
      env: Env<W>, l: nat, d: nat, defs: seq<Node>, data: Json, st: State<W>)
    requires Bounded(env, l, d) && Fillable(data) && Depths(defs) <= d
    ensures Within(st, RunDefinitions(env, defs, data, st).1, d, FieldCounts(defs) * Pow(l, d - 1))
    decreases |defs|
  {
    if defs != [] && defs[0].kind.ExecutableDefinition? {
      var (data1, st1) := RunOperations(env, defs[0].children, data, st);
      OperationsWithin(env, l, d, defs[0].children, data, st);
      WithinMore(st, st1, d, FieldCounts(defs[0].children), FieldCount(defs[0]), Pow(l, d - 1));
      DefinitionsWithin(env, l, d, defs[1..], data1, st1);
      WithinThen(st, st1, RunDefinitions(env, defs[1..], data1, st1).1, d,
                 FieldCount(defs[0]), FieldCounts(defs[1..]), Pow(l, d - 1));
    }
  }

  /**
   * With both limits on, no document whatever can cause more than
   * C * L^(D - 1) field dispatches, nor an error path longer than D, if no
   * resolver returns a list of more than L elements.
   */
  lemma LimitsBoundTheWork<W(!new)>(env: Env<W>, limits: Limits, l: nat, root: Node, st: State<W>)
    requires limits.maxDepth > 0 && limits.maxComplexity > 0
    requires l >= 1 && ListsBounded(env, l)
    ensures Within(st, ExecuteTree(env, limits, root, st).1, limits.maxDepth,
                   limits.maxComplexity * Pow(l, limits.maxDepth - 1))
  {
    var d, c := limits.maxDepth, limits.maxComplexity;
    if root.children != [] {
      var doc := root.children[0];
      if doc.kind.Document? && doc.children != [] && Depth(root) <= d && FieldCount(root) <= c {
        CountMember(root.children, doc);
        DefinitionsWithin(env, l, d, doc.children, Null, st);
        WithinMore(st, ExecuteTree(env, limits, root, st).1, d, FieldCounts(doc.children), c, Pow(l, d - 1));
      }
    }
  }

  // --------------------------------------------------------- Role gates again

  lemma PartGated<W>(a: Env<W>, b: Env<W>, part: Node, data: Json, st: State<W>)
    requires SameOutside(a, b) && Fillable(data)
    ensures RunPart(a, part, data, st) == RunPart(b, part, data, st)
  {
    ProcessFieldsGated(a, b, Obj(map[]), [], Collect(part.children), data, st);
  }

  lemma {:induction false} PartsGated<W>(a: Env<W>, b: Env<W>, parts: seq<Node>, data: Json, st: State<W>)
    requires SameOutside(a, b) && Fillable(data)
    ensures RunParts(a, parts, data, st) == RunParts(b, parts, data, st)
    decreases |parts|
  {
    if parts != [] {
      PartGated(a, b, parts[0], data, st);
      var (data1, st1) := RunPart(a, parts[0], data, st);
      PartsGated(a, b, parts[1..], data1, st1);
    }
  }

  lemma {:induction false} OperationsGated<W>(a: Env<W>, b: Env<W>, ops: seq<Node>, data: Json, st: State<W>)
    requires SameOutside(a, b) && Fillable(data)
    ensures RunOperations(a, ops, data, st) == RunOperations(b, ops, data, st)
    decreases |ops|
  {
    if ops != [] {
      var op := ops[0];
      if op.children != [] {
        PartsGated(a, b, op.children[1..], data, st);
        PartGated(a, b, op.children[0], data, st);
      }
      var (data1, st1) := RunOperation(a, op, data, st);
      OperationsGated(a, b, ops[1..], data1, st1);
    }
  }

  lemma {:induction false} DefinitionsGated<W>(a: Env<W>, b: Env<W>, defs: seq<Node>, data: Json, st: State<W>)
    requires SameOutside(a, b) && Fillable(data)
    ensures RunDefinitions(a, defs, data, st) == RunDefinitions(b, defs, data, st)
    decreases |defs|
  {
    if defs != [] {
      OperationsGated(a, b, defs[0].children, data, st);
      var (data1, st1) := RunOperations(a, defs[0].children, data, st);
      DefinitionsGated(a, b, defs[1..], data1, st1);
    }
  }

  /**
   * A caller without the roles cannot observe anything of the gated resolvers,
   * nor of resolvers scoped below gated fields: same data, same errors, same
   * effects on the world, for every document.
   */
  lemma GatedResolversAreUnobservable<W>(a: Env<W>, b: Env<W>, limits: Limits, root: Node, st: State<W>)
    requires SameOutside(a, b)
    ensures ExecuteTree(a, limits, root, st) == ExecuteTree(b, limits, root, st)
  {
    if root.children != [] { DefinitionsGated(a, b, root.children[0].children, Null, st); }
  }
}
