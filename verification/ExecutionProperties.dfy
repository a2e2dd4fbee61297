/**
 * What execution keeps and how much it can do, for every selection set, every
 * resolver and every starting state.
 */
module ExecutionProperties {
  import opened Ast
  import opened Execution
  import opened QueryAnalysis
  import opened ResolverRegistry
  import opened Wrappers

  // ------------------------------------------- Errors and keys only accumulate

  ghost predicate Extends<W>(st: State<W>, st': State<W>) { st.errors <= st'.errors }

  lemma {:induction false} ResolveFieldGrows<W>(
      env: Env<W>, parent: Json, path: Path, f: Node, result: Json, st: State<W>)
    requires Fillable(result)
    ensures Extends(st, ResolveField(env, parent, path, f, result, st).1)
    ensures Keys(result) <= Keys(ResolveField(env, parent, path, f, result, st).0)
    decreases Size(f), 1
  {
    if f.children != [] {
      var name := FieldName(f);
      var here := path + [name];
      var resolver := Lookup(env.resolvers, here);
      if name != "__typename" && resolver.Some? {
        var (args, bad) := env.arguments(f);
        var st1 := st.(dispatched := st.dispatched + 1, errors := st.errors + ArgumentErrors(bad));
        var (world, outcome) := resolver.value(st1.world, parent, args, env.ctx);
        if outcome.Returned? { CompleteGrows(env, here, f, outcome.value, st1.(world := world)); }
      }
    }
  }

  lemma {:induction false} CompleteGrows<W>(env: Env<W>, here: Path, f: Node, value: Json, st: State<W>)
    requires f.children != []
    ensures Extends(st, Complete(env, here, f, value, st).1)
    decreases Size(f), 0
  {
    if SubSelection(f.children[1..]).Some? {
      var fields := Inline(SubSelection(f.children[1..]).value.children);
      SubSelectionSmaller(f);
      match value
      case Arr(items) => ProcessElementsGrows(env, items, here, fields, st);
      case Obj(_) => ProcessFieldsGrows(env, value, here, fields, Obj(map[]), st);
      case _ =>
    }
  }

  lemma {:induction false} ProcessFieldsGrows<W>(
      env: Env<W>, parent: Json, path: Path, fields: seq<Node>, result: Json, st: State<W>)
    requires Fillable(result)
    ensures Extends(st, ProcessFields(env, parent, path, fields, result, st).1)
    ensures Keys(result) <= Keys(ProcessFields(env, parent, path, fields, result, st).0)
    decreases Sizes(fields), 2
  {
    if fields != [] {
      var (result', st') := ResolveField(env, parent, path, fields[0], result, st);
      ResolveFieldGrows(env, parent, path, fields[0], result, st);
      ProcessFieldsGrows(env, parent, path, fields[1..], result', st');
    }
  }

  lemma {:induction false} ProcessElementsGrows<W>(
      env: Env<W>, items: seq<Json>, here: Path, fields: seq<Node>, st: State<W>)
    ensures Extends(st, ProcessElements(env, items, here, fields, st).1)
    decreases Sizes(fields), 3, |items|
  {
    if items != [] {
      var st1 := if items[0].Null? then st else ProcessFields(env, items[0], here, fields, Obj(map[]), st).1;
      if !items[0].Null? { ProcessFieldsGrows(env, items[0], here, fields, Obj(map[]), st); }
      ProcessElementsGrows(env, items[1..], here, fields, st1);
    }
  }

  // --------------------------------------------------- No field is forgotten

  /** The field left its key, or an error saying that nothing could resolve it. */
  ghost predicate Answered<W>(path: Path, f: Node, result: Json, st: State<W>) {
    f.children != [] ==>
      || FieldName(f) in Keys(result)
      || Error(MISSING_GQL_RESOLVER, MissingResolver(path + [FieldName(f)]), path + [FieldName(f)]) in st.errors
  }

  lemma ResolveFieldAnswers<W>(env: Env<W>, parent: Json, path: Path, f: Node, result: Json, st: State<W>)
    requires Fillable(result)
    ensures
      var (r, s) := ResolveField(env, parent, path, f, result, st);
      Answered(path, f, r, s)
  {
    var (result', st') := ResolveField(env, parent, path, f, result, st);
    if f.children != [] && FieldName(f) !in Keys(result') {
      assert st'.errors[|st'.errors| - 1] ==
        Error(MISSING_GQL_RESOLVER, MissingResolver(path + [FieldName(f)]), path + [FieldName(f)]);
    }
  }

  /** Every field of a selection set has its key in the result or its missing-resolver error. */
  lemma {:induction false} EveryFieldIsAnswered<W>(
      env: Env<W>, parent: Json, path: Path, fields: seq<Node>, result: Json, st: State<W>)
    requires Fillable(result)
    ensures forall f :: f in fields ==>
      var (r, s) := ProcessFields(env, parent, path, fields, result, st);
      Answered(path, f, r, s)
    decreases |fields|
  {
    if fields != [] {
      var (result', st') := ResolveField(env, parent, path, fields[0], result, st);
      ResolveFieldAnswers(env, parent, path, fields[0], result, st);
      ProcessFieldsGrows(env, parent, path, fields[1..], result', st');
      EveryFieldIsAnswered(env, parent, path, fields[1..], result', st');
      var (r, s) := ProcessFields(env, parent, path, fields[1..], result', st');
      StaysAnswered(path, fields[0], result', st', r, s);
      forall f | f in fields ensures Answered(path, f, r, s) {
        if f != fields[0] { assert f in fields[1..]; }
      }
    }
  }

  lemma StaysAnswered<W>(path: Path, f: Node, result: Json, st: State<W>, result': Json, st': State<W>)
    requires Answered(path, f, result, st) && Keys(result) <= Keys(result') && Extends(st, st')
    ensures Answered(path, f, result', st')
  {
  }

  ghost function Names(fields: seq<Node>): set<string> {
    set f | f in fields && f.children != [] :: FieldName(f)
  }

  ghost predicate SameAt(a: Json, b: Json, key: string) {
    && (key in Keys(a) <==> key in Keys(b))
    && (key in Keys(a) ==> a.fields[key] == b.fields[key])
  }

  /** A selection set writes its own names and leaves every other key of the result alone. */
  lemma {:induction false} OtherKeysUntouched<W>(
      env: Env<W>, parent: Json, path: Path, fields: seq<Node>, result: Json, st: State<W>, key: string)
    requires Fillable(result) && key !in Names(fields)
    ensures SameAt(result, ProcessFields(env, parent, path, fields, result, st).0, key)
    decreases |fields|
  {
    if fields != [] {
      var f := fields[0];
      var (result', st') := ResolveField(env, parent, path, f, result, st);
      if f.children != [] { assert FieldName(f) in Names(fields); }
      assert SameAt(result, result', key);
      assert key !in Names(fields[1..]);
      OtherKeysUntouched(env, parent, path, fields[1..], result', st', key);
    }
  }

  /** Nothing answers to the name: no resolver, and no such key in the parent. */
  predicate Unanswerable<W>(env: Env<W>, parent: Json, path: Path, name: string) {
    name != "__typename" && Lookup(env.resolvers, path + [name]).None? && !(parent.Obj? && name in parent.fields)
  }

  /** A field writes its key unless nothing answers to it, and what it writes does not depend on the result so far. */
  lemma FieldWritesAnew<W>(
      env: Env<W>, parent: Json, path: Path, f: Node, result: Json, st: State<W>)
    requires Fillable(result) && f.children != []
    ensures
      var name := FieldName(f);
      var written := ResolveField(env, parent, path, f, result, st);
      var anew := ResolveField(env, parent, path, f, Null, st);
      && written.1 == anew.1
      && (Unanswerable(env, parent, path, name) ==> SameAt(result, written.0, name))
      && (!Unanswerable(env, parent, path, name) ==> name in Keys(anew.0) && SameAt(anew.0, written.0, name))
  {
  }

  /** A key nothing answers to is not written, however often it is asked for. */
  lemma {:induction false} UnanswerableStays<W>(
      env: Env<W>, parent: Json, path: Path, fields: seq<Node>, result: Json, st: State<W>, name: string)
    requires Fillable(result) && Unanswerable(env, parent, path, name)
    ensures SameAt(result, ProcessFields(env, parent, path, fields, result, st).0, name)
    decreases |fields|
  {
    if fields != [] {
      var f := fields[0];
      var (result', st') := ResolveField(env, parent, path, f, result, st);
      if f.children != [] { FieldWritesAnew(env, parent, path, f, result, st); }
      UnanswerableStays(env, parent, path, fields[1..], result', st', name);
    }
  }

  /** Processing one list of fields and then another is processing both. */
  lemma {:induction false} ProcessFieldsConcat<W>(
      env: Env<W>, parent: Json, path: Path, a: seq<Node>, b: seq<Node>, result: Json, st: State<W>)
    requires Fillable(result)
    ensures ProcessFields(env, parent, path, a + b, result, st) ==
      var (r, s) := ProcessFields(env, parent, path, a, result, st);
      ProcessFields(env, parent, path, b, r, s)
    decreases |a|
  {
    if a == [] {
      assert a + b == b;
    } else {
      assert (a + b)[0] == a[0] && (a + b)[1..] == a[1..] + b;
      var (r, s) := ResolveField(env, parent, path, a[0], result, st);
      ProcessFieldsConcat(env, parent, path, a[1..], b, r, s);
    }
  }

  /** A repeated key holds what its last field wrote, as if the earlier ones had not been there. */
  lemma LastFieldWins<W>(
      env: Env<W>, parent: Json, path: Path, before: seq<Node>, f: Node, after: seq<Node>, result: Json, st: State<W>)
    requires Fillable(result) && f.children != [] && FieldName(f) !in Names(after)
    requires !Unanswerable(env, parent, path, FieldName(f))
    ensures
      var final := ProcessFields(env, parent, path, before + ([f] + after), result, st).0;
      var atField := ProcessFields(env, parent, path, before, result, st).1;
      SameAt(ResolveField(env, parent, path, f, Null, atField).0, final, FieldName(f))
  {
    var (r, s) := ProcessFields(env, parent, path, before, result, st);
    var (r', s') := ResolveField(env, parent, path, f, r, s);
    ProcessFieldsConcat(env, parent, path, before, [f] + after, result, st);
    assert ([f] + after)[0] == f && ([f] + after)[1..] == after;
    FieldWritesAnew(env, parent, path, f, r, s);
    OtherKeysUntouched(env, parent, path, after, r', s', FieldName(f));
  }

  /** Without a resolver, fields of one name are alike, whatever their arguments and sub-selections. */
  lemma UnresolvedFieldsAreAlike<W>(
      env: Env<W>, parent: Json, path: Path, f: Node, g: Node, result: Json, st: State<W>)
    requires Fillable(result) && f.children != [] && g.children != [] && FieldName(f) == FieldName(g)
    requires Lookup(env.resolvers, path + [FieldName(f)]).None?
    ensures ResolveField(env, parent, path, f, result, st) == ResolveField(env, parent, path, g, result, st)
  {
  }

  /** So a sub-selection is ignored where the parent has a value: it is copied whole, and nothing is reported. */
  lemma UnresolvedFieldIsCopied<W>(
      env: Env<W>, parent: Json, path: Path, f: Node, result: Json, st: State<W>)
    requires Fillable(result) && f.children != [] && FieldName(f) != "__typename"
    requires Lookup(env.resolvers, path + [FieldName(f)]).None? && parent.Obj? && FieldName(f) in parent.fields
    ensures
      var (r, s) := ResolveField(env, parent, path, f, result, st);
      && FieldName(f) in Keys(r) && r.fields[FieldName(f)] == parent.fields[FieldName(f)]
      && s == st.(dispatched := st.dispatched + 1)
  {
    UnresolvedFieldsAreAlike(env, parent, path, f, f.(children := f.children[..1]), result, st);
  }

  // -------------------------------------------------- Lists keep their shape

  /** A list value is mapped element by element: same length, nulls exactly where they were. */
  lemma {:induction false} ListsKeepTheirShape<W>(
      env: Env<W>, items: seq<Json>, here: Path, fields: seq<Node>, st: State<W>)
    ensures
      var out := ProcessElements(env, items, here, fields, st).0;
      && |out| == |items|
      && forall i :: 0 <= i < |items| ==> (out[i].Null? <==> items[i].Null?) && (!items[i].Null? ==> out[i].Obj?)
    decreases |items|
  {
    if items != [] {
      var st1 := if items[0].Null? then st else ProcessFields(env, items[0], here, fields, Obj(map[]), st).1;
      ListsKeepTheirShape(env, items[1..], here, fields, st1);
    }
  }

  // ----------------------------------------------------------- Bounded work

  function Pow(l: nat, d: nat): nat { if d == 0 then 1 else l * Pow(l, d - 1) }

  /** Whatever a resolver returns, a list has at most l elements. */
  ghost predicate ListsBounded<W(!new)>(env: Env<W>, l: nat) {
    forall path: Path, world: W, parent: Json, args: Json ::
      Lookup(env.resolvers, path).Some? ==>
        var outcome := Lookup(env.resolvers, path).value(world, parent, args, env.ctx).1;
        outcome.Returned? && outcome.value.Arr? ==> |outcome.value.items| <= l
  }

  lemma PowPositive(l: nat, d: nat)
    requires l >= 1
    ensures Pow(l, d) >= 1
  {
    if d > 0 {
      PowPositive(l, d - 1);
      assert l * Pow(l, d - 1) >= 1 * 1;
    }
  }

  lemma MulDistributes(a: nat, b: nat, x: nat)
    ensures (a + b) * x == a * x + b * x
  {
  }

  lemma MulMonotone(a: nat, b: nat, x: nat, y: nat)
    requires a <= b && x <= y
    ensures a * x <= b * y
  {
    assert a * x <= b * x;
    assert b * x <= b * y;
  }

  lemma OneMore(c: nat, p: nat)
    requires p >= 1
    ensures 1 + c * p <= (1 + c) * p && 1 <= (1 + c) * p
  {
    MulDistributes(1, c, p);
    MulMonotone(1, 1 + c, 1, p);
  }

  /** n <= l elements, each at most c * l^(d - 1), stay within c' * l^d for c <= c'. */
  lemma OneLevel(l: nat, n: nat, c: nat, c': nat, d: nat)
    requires n <= l && c <= c' && d >= 1
    ensures n * (c * Pow(l, d - 1)) <= c' * Pow(l, d)
  {
    var p := Pow(l, d - 1);
    MulMonotone(n, l, c * p, c * p);
    assert l * (c * p) == c * (l * p);
    MulMonotone(c, c', l * p, l * p);
  }

  lemma SubSelectionWeighsLess(f: Node)
    requires f.children != [] && SubSelection(f.children[1..]).Some?
    ensures
      var fields := Inline(SubSelection(f.children[1..]).value.children);
      FieldCounts(fields) <= FieldCounts(f.children) && Depths(fields) + 1 <= Depth(f)
  {
    var set_ := SubSelection(f.children[1..]).value;
    CountMember(f.children, set_);
    InlineCounts(set_.children);
  }

  lemma {:induction false} ResolveFieldBound<W(!new)>(
      env: Env<W>, l: nat, d: nat, parent: Json, path: Path, f: Node, result: Json, st: State<W>)
    requires l >= 1 && ListsBounded(env, l) && Fillable(result) && f.kind.Field? && Depth(f) <= d
    ensures ResolveField(env, parent, path, f, result, st).1.dispatched <= st.dispatched + FieldCount(f) * Pow(l, d)
    decreases Size(f), 1
  {
    PowPositive(l, d);
    OneMore(FieldCounts(f.children), Pow(l, d));
    if f.children != [] {
      var name := FieldName(f);
      var here := path + [name];
      var resolver := Lookup(env.resolvers, here);
      if name != "__typename" && resolver.Some? {
        var (args, bad) := env.arguments(f);
        var st1 := st.(dispatched := st.dispatched + 1, errors := st.errors + ArgumentErrors(bad));
        var (world, outcome) := resolver.value(st1.world, parent, args, env.ctx);
        if outcome.Returned? {
          CompleteBound(env, l, d, here, f, outcome.value, st1.(world := world));
        }
      }
    }
  }

  lemma {:induction false} CompleteBound<W(!new)>(
      env: Env<W>, l: nat, d: nat, here: Path, f: Node, value: Json, st: State<W>)
    requires l >= 1 && ListsBounded(env, l) && f.children != [] && Depth(f) <= d
    requires value.Arr? ==> |value.items| <= l
    ensures Complete(env, here, f, value, st).1.dispatched <= st.dispatched + FieldCounts(f.children) * Pow(l, d)
    decreases Size(f), 0
  {
    if SubSelection(f.children[1..]).Some? {
      var fields := Inline(SubSelection(f.children[1..]).value.children);
      SubSelectionSmaller(f);
      SubSelectionWeighsLess(f);
      var each, all := FieldCounts(fields) * Pow(l, d - 1), FieldCounts(f.children) * Pow(l, d);
      OneLevel(l, 1, FieldCounts(fields), FieldCounts(f.children), d);
      assert each <= all;
      match value
      case Arr(items) =>
        ProcessElementsBound(env, l, d - 1, items, here, fields, st);
        OneLevel(l, |items|, FieldCounts(fields), FieldCounts(f.children), d);
      case Obj(_) =>
        ProcessFieldsBound(env, l, d - 1, value, here, fields, Obj(map[]), st);
      case _ =>
    }
  }

  /** At most (number of fields) * l^(nesting) dispatches when lists have at most l elements. */
  lemma {:induction false} ProcessFieldsBound<W(!new)>(
      env: Env<W>, l: nat, d: nat, parent: Json, path: Path, fields: seq<Node>, result: Json, st: State<W>)
    requires l >= 1 && ListsBounded(env, l) && Fillable(result) && Depths(fields) <= d
    requires forall f :: f in fields ==> f.kind.Field?
    ensures ProcessFields(env, parent, path, fields, result, st).1.dispatched
         <= st.dispatched + FieldCounts(fields) * Pow(l, d)
    decreases Sizes(fields), 2
  {
    if fields != [] {
      var (result', st') := ResolveField(env, parent, path, fields[0], result, st);
      ResolveFieldBound(env, l, d, parent, path, fields[0], result, st);
      ProcessFieldsBound(env, l, d, parent, path, fields[1..], result', st');
      MulDistributes(FieldCount(fields[0]), FieldCounts(fields[1..]), Pow(l, d));
    }
  }

  lemma {:induction false} ProcessElementsBound<W(!new)>(
      env: Env<W>, l: nat, d: nat, items: seq<Json>, here: Path, fields: seq<Node>, st: State<W>)
    requires l >= 1 && ListsBounded(env, l) && Depths(fields) <= d
    requires forall f :: f in fields ==> f.kind.Field?
    ensures ProcessElements(env, items, here, fields, st).1.dispatched
         <= st.dispatched + |items| * (FieldCounts(fields) * Pow(l, d))
    decreases Sizes(fields), 3, |items|
  {
    if items != [] {
      var each := FieldCounts(fields) * Pow(l, d);
      var st1 := if items[0].Null? then st else ProcessFields(env, items[0], here, fields, Obj(map[]), st).1;
      if !items[0].Null? { ProcessFieldsBound(env, l, d, items[0], here, fields, Obj(map[]), st); }
      ProcessElementsBound(env, l, d, items[1..], here, fields, st1);
      MulDistributes(1, |items[1..]|, each);
    }
  }

  // ------------------------------------------------- Error paths are short

  /** The errors from position n on have paths of at most k names. */
  ghost predicate ShortFrom(errors: seq<Error>, n: nat, k: nat) {
    forall i :: n <= i < |errors| ==> |errors[i].path| <= k
  }

  lemma {:induction false} ResolveFieldPaths<W>(
      env: Env<W>, parent: Json, path: Path, f: Node, result: Json, st: State<W>, k: nat)
    requires Fillable(result) && |path| + 1 + Depth(f) <= k
    ensures ShortFrom(ResolveField(env, parent, path, f, result, st).1.errors, |st.errors|, k)
    decreases Size(f), 1
  {
    if f.children != [] {
      var name := FieldName(f);
      var here := path + [name];
      var resolver := Lookup(env.resolvers, here);
      if name != "__typename" && resolver.Some? {
        var (args, bad) := env.arguments(f);
        var st1 := st.(dispatched := st.dispatched + 1, errors := st.errors + ArgumentErrors(bad));
        assert ShortFrom(st1.errors, |st.errors|, k);
        var (world, outcome) := resolver.value(st1.world, parent, args, env.ctx);
        if outcome.Returned? {
          var st2 := st1.(world := world);
          CompletePaths(env, here, f, outcome.value, st2, k);
          CompleteGrows(env, here, f, outcome.value, st2);
        }
      }
    }
  }

  lemma {:induction false} CompletePaths<W>(env: Env<W>, here: Path, f: Node, value: Json, st: State<W>, k: nat)
    requires f.children != [] && |here| + Depth(f) <= k
    ensures ShortFrom(Complete(env, here, f, value, st).1.errors, |st.errors|, k)
    decreases Size(f), 0
  {
    if SubSelection(f.children[1..]).Some? {
      var fields := Inline(SubSelection(f.children[1..]).value.children);
      SubSelectionSmaller(f);
      SubSelectionWeighsLess(f);
      match value
      case Arr(items) => ProcessElementsPaths(env, items, here, fields, st, k);
      case Obj(_) => ProcessFieldsPaths(env, value, here, fields, Obj(map[]), st, k);
      case _ =>
    }
  }

  /** No error points deeper than the path so far, one name, and the nesting of the fields. */
  lemma {:induction false} ProcessFieldsPaths<W>(
      env: Env<W>, parent: Json, path: Path, fields: seq<Node>, result: Json, st: State<W>, k: nat)
    requires Fillable(result) && |path| + 1 + Depths(fields) <= k
    ensures ShortFrom(ProcessFields(env, parent, path, fields, result, st).1.errors, |st.errors|, k)
    decreases Sizes(fields), 2
  {
    if fields != [] {
      var (result', st') := ResolveField(env, parent, path, fields[0], result, st);
      ResolveFieldPaths(env, parent, path, fields[0], result, st, k);
      ProcessFieldsPaths(env, parent, path, fields[1..], result', st', k);
      ProcessFieldsGrows(env, parent, path, fields[1..], result', st');
    }
  }

  lemma {:induction false} ProcessElementsPaths<W>(
      env: Env<W>, items: seq<Json>, here: Path, fields: seq<Node>, st: State<W>, k: nat)
    requires |here| + 1 + Depths(fields) <= k
    ensures ShortFrom(ProcessElements(env, items, here, fields, st).1.errors, |st.errors|, k)
    decreases Sizes(fields), 3, |items|
  {
    if items != [] {
      var st1 := if items[0].Null? then st else ProcessFields(env, items[0], here, fields, Obj(map[]), st).1;
      if !items[0].Null? { ProcessFieldsPaths(env, items[0], here, fields, Obj(map[]), st, k); }
      ProcessElementsPaths(env, items[1..], here, fields, st1, k);
      ProcessElementsGrows(env, items[1..], here, fields, st1);
    }
  }

  // ------------------------------------------------- What the gates shut out

  /** A role-gated top-level field with a resolver, which the caller may not call. */
  ghost predicate ShutOut<W>(env: Env<W>, name: string) {
    && name != "__typename" && Lookup(env.resolvers, [name]).Some?
    && name in env.gates && env.gates[name] != []
    && forall role :: role in env.gates[name] ==> role !in env.ctx.roles
  }

  /**
   * The two environments agree except for the functions bound to fields that
   * are shut out, and for all resolvers scoped below such fields.
   */
  ghost predicate SameOutside<W>(a: Env<W>, b: Env<W>) {
    && SameButResolvers(a, b)
    && (forall name: string :: ShutOut(a, name) <==> ShutOut(b, name))
    && (forall path: Path :: path != [] && !ShutOut(a, path[0]) ==>
          Lookup(a.resolvers, path) == Lookup(b.resolvers, path))
  }

  ghost predicate Outside<W>(env: Env<W>, path: Path) { path != [] ==> !ShutOut(env, path[0]) }

  /** Of a field that is shut out only the arguments are looked at. */
  lemma ShutOutIsDenied<W>(env: Env<W>, parent: Json, f: Node, result: Json, st: State<W>)
    requires Fillable(result) && f.children != [] && ShutOut(env, FieldName(f))
    ensures
      var name, obj := FieldName(f), if result.Null? then Obj(map[]) else result;
      var st1 := st.(dispatched := st.dispatched + 1, errors := st.errors + ArgumentErrors(env.arguments(f).1));
      ResolveField(env, parent, [], f, result, st)
        == (Put(obj, name, Null), Fail(st1, FORBIDDEN, AccessDenied(name, env.gates[name]), [name]))
  {
    assert [] + [FieldName(f)] == [FieldName(f)];
  }

  ghost predicate SameButResolvers<W>(a: Env<W>, b: Env<W>) {
    a.gates == b.gates && a.ctx == b.ctx && a.arguments == b.arguments && a.declaredType == b.declaredType
  }

  /** With the same resolver for the field, only the completion of its value could differ. */
  lemma SameCallSameField<W>(a: Env<W>, b: Env<W>, parent: Json, path: Path, f: Node, result: Json, st: State<W>)
    requires Fillable(result) && f.children != [] && SameButResolvers(a, b)
    requires Lookup(a.resolvers, path + [FieldName(f)]) == Lookup(b.resolvers, path + [FieldName(f)])
    requires Calls(a, path, f) ==>
      var (outcome, st') := Called(a, parent, path, f, st);
      outcome.Returned? ==>
        var here := path + [FieldName(f)];
        Complete(a, here, f, outcome.value, st') == Complete(b, here, f, outcome.value, st')
    ensures ResolveField(a, parent, path, f, result, st) == ResolveField(b, parent, path, f, result, st)
  {
  }

  predicate Calls<W>(env: Env<W>, path: Path, f: Node)
    requires f.children != []
  {
    FieldName(f) != "__typename" && Lookup(env.resolvers, path + [FieldName(f)]).Some?
  }

  /** What calling the field's resolver yields, and the state after it. */
  function Called<W>(env: Env<W>, parent: Json, path: Path, f: Node, st: State<W>): (Outcome, State<W>)
    requires f.children != [] && Calls(env, path, f)
  {
    var (args, bad) := env.arguments(f);
    var (world, outcome) := Lookup(env.resolvers, path + [FieldName(f)]).value(st.world, parent, args, env.ctx);
    (outcome, State(st.errors + ArgumentErrors(bad), world, st.dispatched + 1))
  }

  lemma {:induction false} ResolveFieldGated<W>(
      a: Env<W>, b: Env<W>, parent: Json, path: Path, f: Node, result: Json, st: State<W>)
    requires Fillable(result) && SameOutside(a, b) && Outside(a, path)
    ensures ResolveField(a, parent, path, f, result, st) == ResolveField(b, parent, path, f, result, st)
    decreases Size(f), 1
  {
    if f.children != [] {
      var name := FieldName(f);
      var here := path + [name];
      assert here[0] == if path == [] then name else path[0];
      if path == [] && ShutOut(a, name) {
        ShutOutIsDenied(a, parent, f, result, st);
        ShutOutIsDenied(b, parent, f, result, st);
      } else {
        if Calls(a, path, f) {
          var (outcome, st') := Called(a, parent, path, f, st);
          if outcome.Returned? { CompleteGated(a, b, here, f, outcome.value, st'); }
        }
        SameCallSameField(a, b, parent, path, f, result, st);
      }
    }
  }

  lemma {:induction false} CompleteGated<W>(a: Env<W>, b: Env<W>, here: Path, f: Node, value: Json, st: State<W>)
    requires SameOutside(a, b) && Outside(a, here) && f.children != []
    ensures Complete(a, here, f, value, st) == Complete(b, here, f, value, st)
    decreases Size(f), 0
  {
    if SubSelection(f.children[1..]).Some? {
      var fields := Inline(SubSelection(f.children[1..]).value.children);
      SubSelectionSmaller(f);
      match value
      case Arr(items) => ProcessElementsGated(a, b, items, here, fields, st);
      case Obj(_) => ProcessFieldsGated(a, b, value, here, fields, Obj(map[]), st);
      case _ =>
    }
  }

  /** Result, errors and effects do not depend on resolvers the caller is shut out from. */
  lemma {:induction false} ProcessFieldsGated<W>(
      a: Env<W>, b: Env<W>, parent: Json, path: Path, fields: seq<Node>, result: Json, st: State<W>)
    requires Fillable(result) && SameOutside(a, b) && Outside(a, path)
    ensures ProcessFields(a, parent, path, fields, result, st) == ProcessFields(b, parent, path, fields, result, st)
    decreases Sizes(fields), 2
  {
    if fields != [] {
      var (result', st') := ResolveField(a, parent, path, fields[0], result, st);
      ResolveFieldGated(a, b, parent, path, fields[0], result, st);
      ProcessFieldsGated(a, b, parent, path, fields[1..], result', st');
    }
  }

  lemma {:induction false} ProcessElementsGated<W>(
      a: Env<W>, b: Env<W>, items: seq<Json>, here: Path, fields: seq<Node>, st: State<W>)
    requires SameOutside(a, b) && Outside(a, here)
    ensures ProcessElements(a, items, here, fields, st) == ProcessElements(b, items, here, fields, st)
    decreases Sizes(fields), 3, |items|
  {
    if items != [] {
      var st1 := if items[0].Null? then st else ProcessFields(a, items[0], here, fields, Obj(map[]), st).1;
      if !items[0].Null? { ProcessFieldsGated(a, b, items[0], here, fields, Obj(map[]), st); }
      ProcessElementsGated(a, b, items[1..], here, fields, st1);
    }
  }
}
