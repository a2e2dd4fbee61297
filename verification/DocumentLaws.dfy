/**
 * What executing a document does, in terms of its tree: which selection sets
 * are executed, that their fields are all processed, in order, into one
 * result, what is reported besides, and when nothing is executed at all.
 */
module DocumentLaws {
  import opened Ast
  import opened Documents
  import opened Execution
  import opened ExecutionProperties
  import opened QueryAnalysis
  import opened ResolverRegistry
  import opened Wrappers

  // ------------------------------------------- The fields a document asks for

  function SelectionSets(parts: seq<Node>): seq<Node> {
    if parts == [] then [] else (if parts[0].kind == SelectionSet then [parts[0]] else []) + SelectionSets(parts[1..])
  }

  /** The selection sets of a query, mutation or subscription, or the one an anonymous operation is. */
  function SetsOf(op: Node): seq<Node> {
    if op.kind != OperationDefinition || op.children == [] then []
    else if op.children[0].text in ["query", "mutation", "subscription"] then SelectionSets(op.children[1..])
    else if op.children[0].kind == SelectionSet then [op.children[0]]
    else []
  }

  function SetsOfAll(ops: seq<Node>): seq<Node> {
    if ops == [] then [] else SetsOf(ops[0]) + SetsOfAll(ops[1..])
  }

  /** The selection sets of a document, up to its first definition that is not executable. */
  function SetsOfDocument(defs: seq<Node>): seq<Node> {
    if defs == [] || defs[0].kind != ExecutableDefinition then []
    else SetsOfAll(defs[0].children) + SetsOfDocument(defs[1..])
  }

  function FieldsOfSets(sets: seq<Node>): seq<Node> {
    if sets == [] then [] else Collect(sets[0].children) + FieldsOfSets(sets[1..])
  }

  /** All top-level fields of a document, in document order. */
  function TopLevelFields(defs: seq<Node>): seq<Node> { FieldsOfSets(SetsOfDocument(defs)) }

  // --------------------------------------------- What a document is told off for

  predicate WellFormedPart(part: Node) {
    part.kind == SelectionSet || part.kind == VariableMetadata || part.kind == NodeType.Name
  }

  function ComplaintsAboutParts(parts: seq<Node>): seq<Message> {
    if parts == [] then []
    else (if WellFormedPart(parts[0]) then [] else [NotASelectionSet]) + ComplaintsAboutParts(parts[1..])
  }

  function ComplaintsAbout(op: Node): seq<Message> {
    if op.kind != OperationDefinition then [NotAnOperation]
    else if op.children == [] then [EmptyOperation]
    else if op.children[0].text in ["query", "mutation", "subscription"] then ComplaintsAboutParts(op.children[1..])
    else if op.children[0].kind == SelectionSet then []
    else [UnknownOperation(op.children[0].text)]
  }

  function ComplaintsAboutAll(ops: seq<Node>): seq<Message> {
    if ops == [] then [] else ComplaintsAbout(ops[0]) + ComplaintsAboutAll(ops[1..])
  }

  /** The first definition that is not executable is the last one looked at. */
  function ComplaintsAboutDocument(defs: seq<Node>): seq<Message> {
    if defs == [] then []
    else if defs[0].kind != ExecutableDefinition then [NotExecutable]
    else ComplaintsAboutAll(defs[0].children) + ComplaintsAboutDocument(defs[1..])
  }

  lemma {:induction false} FieldsOfSetsConcat(a: seq<Node>, b: seq<Node>)
    ensures FieldsOfSets(a + b) == FieldsOfSets(a) + FieldsOfSets(b)
  {
    if a == [] {
      assert a + b == b;
    } else {
      assert (a + b)[0] == a[0] && (a + b)[1..] == a[1..] + b;
      FieldsOfSetsConcat(a[1..], b);
      ConcatAssociates(Collect(a[0].children), FieldsOfSets(a[1..]), FieldsOfSets(b));
    }
  }

  lemma OneSet(set_: Node)
    ensures FieldsOfSets([set_]) == Collect(set_.children)
  {
    assert [set_][1..] == [];
  }

  // ------------------------------------------ Earlier errors change nothing else

  /** The same but for the errors before and after. */
  ghost predicate SameWork<W, V>(a: (V, State<W>), b: (V, State<W>)) {
    a.0 == b.0 && a.1.world == b.1.world && a.1.dispatched == b.1.dispatched
  }

  ghost predicate SameState<W>(a: State<W>, b: State<W>) { a.world == b.world && a.dispatched == b.dispatched }

  lemma {:induction false} ResolveFieldAnyErrors<W>(
      env: Env<W>, parent: Json, path: Path, f: Node, result: Json, a: State<W>, b: State<W>)
    requires Fillable(result) && SameState(a, b)
    ensures SameWork(ResolveField(env, parent, path, f, result, a), ResolveField(env, parent, path, f, result, b))
    decreases Size(f), 1
  {
    if f.children != [] && Calls(env, path, f) {
      var (outcome, a') := Called(env, parent, path, f, a);
      var b' := Called(env, parent, path, f, b).1;
      if outcome.Returned? { CompleteAnyErrors(env, path + [FieldName(f)], f, outcome.value, a', b'); }
    }
  }

  lemma {:induction false} CompleteAnyErrors<W>(
      env: Env<W>, here: Path, f: Node, value: Json, a: State<W>, b: State<W>)
    requires f.children != [] && SameState(a, b)
    ensures SameWork(Complete(env, here, f, value, a), Complete(env, here, f, value, b))
    decreases Size(f), 0
  {
    if SubSelection(f.children[1..]).Some? {
      var fields := Inline(SubSelection(f.children[1..]).value.children);
      SubSelectionSmaller(f);
      match value
      case Arr(items) => ProcessElementsAnyErrors(env, items, here, fields, a, b);
      case Obj(_) => ProcessFieldsAnyErrors(env, value, here, fields, Obj(map[]), a, b);
      case _ =>
    }
  }

  lemma {:induction false} ProcessFieldsAnyErrors<W>(
      env: Env<W>, parent: Json, path: Path, fields: seq<Node>, result: Json, a: State<W>, b: State<W>)
    requires Fillable(result) && SameState(a, b)
    ensures SameWork(ProcessFields(env, parent, path, fields, result, a),
                     ProcessFields(env, parent, path, fields, result, b))
    decreases Sizes(fields), 2
  {
    if fields != [] {
      ResolveFieldAnyErrors(env, parent, path, fields[0], result, a, b);
      var (result', a') := ResolveField(env, parent, path, fields[0], result, a);
      var b' := ResolveField(env, parent, path, fields[0], result, b).1;
      ProcessFieldsAnyErrors(env, parent, path, fields[1..], result', a', b');
    }
  }

  lemma {:induction false} ProcessElementsAnyErrors<W>(
      env: Env<W>, items: seq<Json>, here: Path, fields: seq<Node>, a: State<W>, b: State<W>)
    requires SameState(a, b)
    ensures SameWork(ProcessElements(env, items, here, fields, a), ProcessElements(env, items, here, fields, b))
    decreases Sizes(fields), 3, |items|
  {
    if items != [] {
      var a', b' := a, b;
      if !items[0].Null? {
        ProcessFieldsAnyErrors(env, items[0], here, fields, Obj(map[]), a, b);
        a' := ProcessFields(env, items[0], here, fields, Obj(map[]), a).1;
        b' := ProcessFields(env, items[0], here, fields, Obj(map[]), b).1;
      }
      ProcessElementsAnyErrors(env, items[1..], here, fields, a', b');
    }
  }

  // ---------------------------------------------------- Everything is processed

  /** Processing the top-level fields one after another, into one result. */
  function Process<W>(env: Env<W>, fields: seq<Node>, data: Json, st: State<W>): (Json, State<W>)
    requires Fillable(data)
  {
    ProcessFields(env, Obj(map[]), [], fields, data, st)
  }

  /** It did the work of these fields, left each of them answered, complained, and only added errors. */
  ghost predicate DidFields<W>(
      env: Env<W>, fields: seq<Node>, said: seq<Message>, data: Json, st: State<W>, done: (Json, State<W>))
    requires Fillable(data)
  {
    && (forall m :: m in said ==> Error(PARSE_ERROR, m, []) in done.1.errors)
    && SameWork(done, Process(env, fields, data, st))
    && st.errors <= done.1.errors && Keys(data) <= Keys(done.0)
    && forall f :: f in fields ==> Answered([], f, done.0, done.1)
  }

  /** No field, and at most one complaint. */
  lemma DidNothing<W>(env: Env<W>, said: seq<Message>, data: Json, st: State<W>, done: (Json, State<W>))
    requires Fillable(data) && done.0 == data && SameState(st, done.1)
    requires (said == [] && done.1.errors == st.errors)
          || (|said| == 1 && done.1.errors == st.errors + [Error(PARSE_ERROR, said[0], [])])
    ensures DidFields(env, [], said, data, st, done)
  {
    if said != [] { assert done.1.errors[|st.errors|] == Error(PARSE_ERROR, said[0], []); }
  }

  lemma DidProcess<W>(env: Env<W>, fields: seq<Node>, data: Json, st: State<W>)
    requires Fillable(data)
    ensures DidFields(env, fields, [], data, st, Process(env, fields, data, st))
  {
    ProcessFieldsGrows(env, Obj(map[]), [], fields, data, st);
    EveryFieldIsAnswered(env, Obj(map[]), [], fields, data, st);
  }

  lemma DidBoth<W>(
      env: Env<W>, a: seq<Node>, b: seq<Node>, x: seq<Message>, y: seq<Message>,
      data: Json, st: State<W>, mid: (Json, State<W>), done: (Json, State<W>))
    requires Fillable(data) && Fillable(mid.0)
    requires DidFields(env, a, x, data, st, mid) && DidFields(env, b, y, mid.0, mid.1, done)
    ensures DidFields(env, a + b, x + y, data, st, done)
  {
    var (r, s) := Process(env, a, data, st);
    ProcessFieldsConcat(env, Obj(map[]), [], a, b, data, st);
    ProcessFieldsAnyErrors(env, Obj(map[]), [], b, r, s, mid.1);
    forall f | f in a + b ensures Answered([], f, done.0, done.1) {
      if f in a { StaysAnswered([], f, mid.0, mid.1, done.0, done.1); }
    }
  }

  lemma PartDid<W>(env: Env<W>, part: Node, data: Json, st: State<W>)
    requires Fillable(data)
    ensures DidFields(env, FieldsOfSets(if part.kind == SelectionSet then [part] else []),
                      if WellFormedPart(part) then [] else [NotASelectionSet], data, st, RunPart(env, part, data, st))
  {
    if part.kind == SelectionSet {
      OneSet(part);
      DidProcess(env, Collect(part.children), data, st);
    } else {
      DidNothing(env, if WellFormedPart(part) then [] else [NotASelectionSet], data, st, RunPart(env, part, data, st));
    }
  }

  lemma {:induction false} PartsDid<W>(env: Env<W>, parts: seq<Node>, data: Json, st: State<W>)
    requires Fillable(data)
    ensures DidFields(env, FieldsOfSets(SelectionSets(parts)), ComplaintsAboutParts(parts), data, st,
                      RunParts(env, parts, data, st))
    decreases |parts|
  {
    if parts == [] {
      DidNothing(env, [], data, st, (data, st));
    } else {
      var mid := RunPart(env, parts[0], data, st);
      var first := if parts[0].kind == SelectionSet then [parts[0]] else [];
      PartDid(env, parts[0], data, st);
      PartsDid(env, parts[1..], mid.0, mid.1);
      FieldsOfSetsConcat(first, SelectionSets(parts[1..]));
      DidBoth(env, FieldsOfSets(first), FieldsOfSets(SelectionSets(parts[1..])),
              if WellFormedPart(parts[0]) then [] else [NotASelectionSet], ComplaintsAboutParts(parts[1..]),
              data, st, mid, RunParts(env, parts, data, st));
    }
  }

  lemma OperationDid<W>(env: Env<W>, op: Node, data: Json, st: State<W>)
    requires Fillable(data)
    ensures DidFields(env, FieldsOfSets(SetsOf(op)), ComplaintsAbout(op), data, st, RunOperation(env, op, data, st))
  {
    if op.kind != OperationDefinition || op.children == [] {
      DidNothing(env, ComplaintsAbout(op), data, st, RunOperation(env, op, data, st));
    } else if op.children[0].text in ["query", "mutation", "subscription"] {
      PartsDid(env, op.children[1..], data, st);
    } else if op.children[0].kind == SelectionSet {
      PartDid(env, op.children[0], data, st);
    } else {
      DidNothing(env, ComplaintsAbout(op), data, st, RunOperation(env, op, data, st));
    }
  }

  lemma {:induction false} OperationsDid<W>(env: Env<W>, ops: seq<Node>, data: Json, st: State<W>)
    requires Fillable(data)
    ensures DidFields(env, FieldsOfSets(SetsOfAll(ops)), ComplaintsAboutAll(ops), data, st,
                      RunOperations(env, ops, data, st))
    decreases |ops|
  {
    if ops == [] {
      DidNothing(env, [], data, st, (data, st));
    } else {
      var mid := RunOperation(env, ops[0], data, st);
      OperationDid(env, ops[0], data, st);
      OperationsDid(env, ops[1..], mid.0, mid.1);
      FieldsOfSetsConcat(SetsOf(ops[0]), SetsOfAll(ops[1..]));
      DidBoth(env, FieldsOfSets(SetsOf(ops[0])), FieldsOfSets(SetsOfAll(ops[1..])),
              ComplaintsAbout(ops[0]), ComplaintsAboutAll(ops[1..]), data, st, mid, RunOperations(env, ops, data, st));
    }
  }

  lemma {:induction false} DefinitionsDid<W>(env: Env<W>, defs: seq<Node>, data: Json, st: State<W>)
    requires Fillable(data)
    ensures DidFields(env, TopLevelFields(defs), ComplaintsAboutDocument(defs), data, st,
                      RunDefinitions(env, defs, data, st))
    decreases |defs|
  {
    if defs == [] || defs[0].kind != ExecutableDefinition {
      DidNothing(env, ComplaintsAboutDocument(defs), data, st, RunDefinitions(env, defs, data, st));
    } else {
      var mid := RunOperations(env, defs[0].children, data, st);
      OperationsDid(env, defs[0].children, data, st);
      DefinitionsDid(env, defs[1..], mid.0, mid.1);
      FieldsOfSetsConcat(SetsOfAll(defs[0].children), SetsOfDocument(defs[1..]));
      DidBoth(env, FieldsOfSets(SetsOfAll(defs[0].children)), TopLevelFields(defs[1..]),
              ComplaintsAboutAll(defs[0].children), ComplaintsAboutDocument(defs[1..]),
              data, st, mid, RunDefinitions(env, defs, data, st));
    }
  }

  // --------------------------------------------------------- Whole documents

  /** A tree with a document that has definitions. */
  predicate HasDefinitions(root: Node) {
    root.children != [] && root.children[0].kind == Document && root.children[0].children != []
  }

  predicate OverLimit(limits: Limits, root: Node) {
    || (limits.maxDepth != 0 && Depth(root) > limits.maxDepth)
    || (limits.maxComplexity != 0 && FieldCount(root) > limits.maxComplexity)
  }

  /**
   * Within the limits, data, world and dispatches are those of processing all
   * top-level fields in document order into one result, every one of them is
   * answered, at least each of them is dispatched, and what the document is to
   * be told off for is reported.
   */
  lemma EveryOperationIsExecuted<W>(env: Env<W>, limits: Limits, root: Node, st: State<W>)
    requires HasDefinitions(root) && !OverLimit(limits, root)
    ensures
      var fields := TopLevelFields(root.children[0].children);
      var (data, s) := ExecuteTree(env, limits, root, st);
      && SameWork((data, s), ProcessFields(env, Obj(map[]), [], fields, Null, st))
      && (forall f :: f in fields ==> Answered([], f, data, s))
      && (forall m :: m in ComplaintsAboutDocument(root.children[0].children) ==> Error(PARSE_ERROR, m, []) in s.errors)
      && st.errors <= s.errors
      && s.dispatched >= st.dispatched + |fields|
  {
    var fields := TopLevelFields(root.children[0].children);
    DefinitionsDid(env, root.children[0].children, Null, st);
    EachIsDispatched(env, Obj(map[]), [], fields, Null, st);
  }

  lemma {:induction false} EachIsDispatched<W>(
      env: Env<W>, parent: Json, path: Path, fields: seq<Node>, result: Json, st: State<W>)
    requires Fillable(result)
    ensures ProcessFields(env, parent, path, fields, result, st).1.dispatched >= st.dispatched + |fields|
    decreases Sizes(fields), 2
  {
    if fields != [] {
      var (result', st') := ResolveField(env, parent, path, fields[0], result, st);
      OneIsDispatched(env, parent, path, fields[0], result, st);
      EachIsDispatched(env, parent, path, fields[1..], result', st');
    }
  }

  lemma {:induction false} OneIsDispatched<W>(
      env: Env<W>, parent: Json, path: Path, f: Node, result: Json, st: State<W>)
    requires Fillable(result)
    ensures ResolveField(env, parent, path, f, result, st).1.dispatched >= st.dispatched + 1
    decreases Size(f), 1
  {
    if f.children != [] && Calls(env, path, f) {
      var (outcome, st') := Called(env, parent, path, f, st);
      if outcome.Returned? && SubSelection(f.children[1..]).Some? {
        var here, fields := path + [FieldName(f)], Inline(SubSelection(f.children[1..]).value.children);
        SubSelectionSmaller(f);
        match outcome.value
        case Arr(items) => ElementsDispatch(env, items, here, fields, st');
        case Obj(_) => EachIsDispatched(env, outcome.value, here, fields, Obj(map[]), st');
        case _ =>
      }
    }
  }

  lemma {:induction false} ElementsDispatch<W>(
      env: Env<W>, items: seq<Json>, here: Path, fields: seq<Node>, st: State<W>)
    ensures ProcessElements(env, items, here, fields, st).1.dispatched >= st.dispatched
    decreases Sizes(fields), 3, |items|
  {
    if items != [] {
      var st' := if items[0].Null? then st else ProcessFields(env, items[0], here, fields, Obj(map[]), st).1;
      if !items[0].Null? { EachIsDispatched(env, items[0], here, fields, Obj(map[]), st); }
      ElementsDispatch(env, items[1..], here, fields, st');
    }
  }

  /** Over a limit nothing is executed, and one error says which. */
  lemma OverLimitIsRefused<W>(env: Env<W>, limits: Limits, root: Node, st: State<W>)
    requires HasDefinitions(root) && OverLimit(limits, root)
    ensures
      var message := if limits.maxDepth != 0 && Depth(root) > limits.maxDepth then TooDeep(Depth(root), limits.maxDepth)
                     else TooComplex(FieldCount(root), limits.maxComplexity);
      ExecuteTree(env, limits, root, st)
        == (Null, State(st.errors + [Error(ARGUMENT_ERROR, message, [])], st.world, st.dispatched))
  {
  }

  lemma NoDefinitionsAreRefused<W>(env: Env<W>, limits: Limits, root: Node, st: State<W>)
    requires !HasDefinitions(root)
    ensures
      var message := if root.children != [] && root.children[0].kind != Document then NoDocument else EmptyDocument;
      ExecuteTree(env, limits, root, st)
        == (Null, State(st.errors + [Error(PARSE_ERROR, message, [])], st.world, st.dispatched))
  {
  }

  // ------------------------------------------------- Nothing else is reported

  /** A keyword and well-formed parts, or a bare selection set. */
  ghost predicate WellFormedOperation(op: Node) {
    && op.kind == OperationDefinition && op.children != []
    && if op.children[0].text in ["query", "mutation", "subscription"]
       then forall part :: part in op.children[1..] ==> WellFormedPart(part)
       else op.children[0].kind == SelectionSet
  }

  ghost predicate WellFormedDocument(defs: seq<Node>) {
    forall d :: d in defs ==>
      d.kind == ExecutableDefinition && forall op :: op in d.children ==> WellFormedOperation(op)
  }

  lemma {:induction false} PartsExactly<W>(env: Env<W>, parts: seq<Node>, data: Json, st: State<W>)
    requires Fillable(data) && forall part :: part in parts ==> WellFormedPart(part)
    ensures RunParts(env, parts, data, st) == Process(env, FieldsOfSets(SelectionSets(parts)), data, st)
    decreases |parts|
  {
    if parts != [] {
      var first := if parts[0].kind == SelectionSet then [parts[0]] else [];
      var (data', st') := RunPart(env, parts[0], data, st);
      assert parts[0] in parts && forall part :: part in parts[1..] ==> part in parts;
      PartsExactly(env, parts[1..], data', st');
      OneSet(parts[0]);
      FieldsOfSetsConcat(first, SelectionSets(parts[1..]));
      ProcessFieldsConcat(env, Obj(map[]), [], FieldsOfSets(first), FieldsOfSets(SelectionSets(parts[1..])), data, st);
    }
  }

  lemma {:induction false} OperationsExactly<W>(env: Env<W>, ops: seq<Node>, data: Json, st: State<W>)
    requires Fillable(data) && forall op :: op in ops ==> WellFormedOperation(op)
    ensures RunOperations(env, ops, data, st) == Process(env, FieldsOfSets(SetsOfAll(ops)), data, st)
    decreases |ops|
  {
    if ops != [] {
      var op := ops[0];
      var (data', st') := RunOperation(env, op, data, st);
      assert op in ops && WellFormedOperation(op) && forall o :: o in ops[1..] ==> o in ops;
      if op.children[0].text in ["query", "mutation", "subscription"] {
        PartsExactly(env, op.children[1..], data, st);
      } else {
        OneSet(op.children[0]);
      }
      assert (data', st') == Process(env, FieldsOfSets(SetsOf(op)), data, st);
      OperationsExactly(env, ops[1..], data', st');
      FieldsOfSetsConcat(SetsOf(op), SetsOfAll(ops[1..]));
      ProcessFieldsConcat(env, Obj(map[]), [], FieldsOfSets(SetsOf(op)), FieldsOfSets(SetsOfAll(ops[1..])), data, st);
    }
  }

  lemma {:induction false} DefinitionsExactly<W>(env: Env<W>, defs: seq<Node>, data: Json, st: State<W>)
    requires Fillable(data) && WellFormedDocument(defs)
    ensures RunDefinitions(env, defs, data, st) == Process(env, TopLevelFields(defs), data, st)
    decreases |defs|
  {
    if defs != [] {
      var d := defs[0];
      var (data', st') := RunOperations(env, d.children, data, st);
      assert d in defs && forall e :: e in defs[1..] ==> e in defs;
      OperationsExactly(env, d.children, data, st);
      DefinitionsExactly(env, defs[1..], data', st');
      var first := FieldsOfSets(SetsOfAll(d.children));
      FieldsOfSetsConcat(SetsOfAll(d.children), SetsOfDocument(defs[1..]));
      ProcessFieldsConcat(env, Obj(map[]), [], first, TopLevelFields(defs[1..]), data, st);
    }
  }

  /** A well-formed document within the limits is exactly the processing of its top-level fields. */
  lemma WellFormedDocumentExactly<W>(env: Env<W>, limits: Limits, root: Node, st: State<W>)
    requires HasDefinitions(root) && !OverLimit(limits, root) && WellFormedDocument(root.children[0].children)
    ensures ExecuteTree(env, limits, root, st)
         == ProcessFields(env, Obj(map[]), [], TopLevelFields(root.children[0].children), Null, st)
  {
    DefinitionsExactly(env, root.children[0].children, Null, st);
  }
}
