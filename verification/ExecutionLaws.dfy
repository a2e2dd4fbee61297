/**
 * What becomes of one field, outcome by outcome, in terms of the registered
 * resolvers, the gates, the caller and the tree: who may call, what a value,
 * a throw or a missing resolver turns into, and how a sub-selection narrows
 * a value.  Every law states the whole result and the whole new state.
 */
module ExecutionLaws {
  import opened Ast
  import opened Execution
  import opened ExecutionProperties
  import opened ResolverRegistry
  import opened Wrappers

  /** The result with one key set and every other key as it was. */
  function With(result: Json, key: string, value: Json): Json {
    Obj((if result.Obj? then result.fields else map[])[key := value])
  }

  /** One more field dispatched; the errors about bad arguments, which carry no path, come before any other. */
  function Reported<W>(st: State<W>, bad: seq<string>, more: seq<Error>, world: W): State<W> {
    State(st.errors + BadArguments(bad) + more, world, st.dispatched + 1)
  }

  function BadArguments(bad: seq<string>): seq<Error> {
    seq(|bad|, i requires 0 <= i < |bad| => Error(PARSE_ERROR, BadArgument(bad[i]), []))
  }

  lemma ReportedIs<W>(st: State<W>, bad: seq<string>, more: seq<Error>, world: W)
    ensures BadArguments(bad) == ArgumentErrors(bad) && (bad == [] ==> BadArguments(bad) == [])
    ensures bad == [] ==> Reported(st, bad, more, world).errors == st.errors + more
    ensures more == [] ==> Reported(st, bad, more, world).errors == st.errors + ArgumentErrors(bad)
    ensures bad == [] && more == [] ==> Reported(st, bad, more, world).errors == st.errors
  {
    assert bad == [] ==> st.errors + BadArguments(bad) == st.errors;
  }

  // -------------------------------------------------- Fields nothing is called for

  lemma EmptyFieldIsReported<W>(env: Env<W>, parent: Json, path: Path, f: Node, result: Json, st: State<W>)
    requires Fillable(result) && f.children == []
    ensures ResolveField(env, parent, path, f, result, st)
         == (result, Reported(st, [], [Error(PARSE_ERROR, EmptyField, [])], st.world))
  {
    ReportedIs(st, [], [Error(PARSE_ERROR, EmptyField, [])], st.world);
  }

  /** `__typename` is the declared type, else what the parent says of itself, else null. */
  lemma TypenameField<W>(env: Env<W>, parent: Json, path: Path, f: Node, result: Json, st: State<W>)
    requires Fillable(result) && f.children != [] && f.children[0].text == "__typename"
    ensures ResolveField(env, parent, path, f, result, st).1 == Reported(st, [], [], st.world)
    ensures
      var r, declared := ResolveField(env, parent, path, f, result, st).0, env.declaredType(path);
      && (declared != "" ==> r == With(result, "__typename", Str(declared)))
      && (declared == "" && (forall t: string :: t != "" ==> !SaysOfItself(parent, t)) ==>
            r == With(result, "__typename", Null))
      && forall t: string :: declared == "" && t != "" && SaysOfItself(parent, t) ==>
           r == With(result, "__typename", Str(t))
  {
    ReportedIs(st, [], [], st.world);
    if parent.Obj? && "__typename" in parent.fields && parent.fields["__typename"].Str? {
      assert SaysOfItself(parent, parent.fields["__typename"].s);
    }
  }

  predicate SaysOfItself(parent: Json, t: string) {
    parent.Obj? && "__typename" in parent.fields && parent.fields["__typename"] == Str(t)
  }

  /** With neither resolver nor parent value nothing is written, and the field is reported. */
  lemma MissingField<W>(env: Env<W>, parent: Json, path: Path, f: Node, result: Json, st: State<W>)
    requires Fillable(result) && f.children != [] && f.children[0].text != "__typename"
    requires Lookup(env.resolvers, path + [f.children[0].text]).None?
    requires parent.Obj? ==> f.children[0].text !in parent.fields
    ensures
      var here := path + [f.children[0].text];
      ResolveField(env, parent, path, f, result, st)
        == (if result.Null? then Obj(map[]) else result,
            Reported(st, [], [Error(MISSING_GQL_RESOLVER, MissingResolver(here), here)], st.world))
  {
    var here := path + [f.children[0].text];
    ReportedIs(st, [], [Error(MISSING_GQL_RESOLVER, MissingResolver(here), here)], st.world);
  }

  lemma CopiedField<W>(env: Env<W>, parent: Json, path: Path, f: Node, result: Json, st: State<W>)
    requires Fillable(result) && f.children != [] && f.children[0].text != "__typename"
    requires Lookup(env.resolvers, path + [f.children[0].text]).None?
    requires parent.Obj? && f.children[0].text in parent.fields
    ensures
      var name := f.children[0].text;
      ResolveField(env, parent, path, f, result, st)
        == (With(result, name, parent.fields[name]), Reported(st, [], [], st.world))
  {
    ReportedIs(st, [], [], st.world);
  }

  // ------------------------------------------------------------- Who may call

  ghost predicate HoldsSome(required: seq<string>, roles: seq<string>) { exists r :: r in required && r in roles }

  /** A write aimed at another organization by someone who is no platform administrator. */
  ghost predicate AimsElsewhere(name: string, args: Json, ctx: Ctx) {
    && name in ["createUser", "updateUser", "deleteUser", "createRole", "updateRole", "assignRole", "unassignRole",
                "updateTenantConfig", "createDataSource", "updateDataSource", "deleteDataSource"]
    && ctx.tenant != "" && "role_platform_admin" !in ctx.roles
    && exists org: string :: org != ctx.tenant && HasOrganization(args, org)
  }

  predicate HasOrganization(args: Json, org: string) {
    args.Obj? && "organizationId" in args.fields && args.fields["organizationId"] == Str(org)
  }

  /** The field has a resolver that would be called if the caller may. */
  ghost predicate Callable<W>(env: Env<W>, path: Path, f: Node) {
    && f.children != [] && f.children[0].text != "__typename"
    && Lookup(env.resolvers, path + [f.children[0].text]).Some?
  }

  /** A top-level gate refuses a caller who holds none of its roles. */
  lemma GateRefuses<W>(env: Env<W>, parent: Json, f: Node, result: Json, st: State<W>)
    requires Fillable(result) && Callable(env, [], f) && f.children[0].text in env.gates
    requires env.gates[f.children[0].text] != []
    requires forall r :: r in env.gates[f.children[0].text] ==> r !in env.ctx.roles
    ensures
      var name := f.children[0].text;
      ResolveField(env, parent, [], f, result, st)
        == (With(result, name, Null),
            Reported(st, env.arguments(f).1, [Error(FORBIDDEN, AccessDenied(name, env.gates[name]), [name])], st.world))
  {
    assert [] + [f.children[0].text] == [f.children[0].text];
  }

  /** Past the gate, a write aimed at another organization is refused. */
  lemma OrganizationRefuses<W>(env: Env<W>, parent: Json, f: Node, result: Json, st: State<W>, org: string)
    requires Fillable(result) && Callable(env, [], f)
    requires f.children[0].text in env.gates && env.gates[f.children[0].text] != [] ==>
               HoldsSome(env.gates[f.children[0].text], env.ctx.roles)
    requires AimsElsewhere(f.children[0].text, env.arguments(f).0, env.ctx) && HasOrganization(env.arguments(f).0, org)
    ensures
      var name := f.children[0].text;
      ResolveField(env, parent, [], f, result, st)
        == (With(result, name, Null),
            Reported(st, env.arguments(f).1,
                     [Error(CONTEXT_MISMATCH, ContextMismatch(org, env.ctx.tenant), [name])], st.world))
  {
    assert [] + [f.children[0].text] == [f.children[0].text];
  }

  /** Below the top level everyone; at it, who holds a role of the gate and stays within the organization. */
  ghost predicate MayCall<W>(env: Env<W>, path: Path, f: Node)
    requires f.children != []
  {
    var name := f.children[0].text;
    path == [] ==>
      && (name in env.gates && env.gates[name] != [] ==> HoldsSome(env.gates[name], env.ctx.roles))
      && !AimsElsewhere(name, env.arguments(f).0, env.ctx)
  }

  lemma MayCallIsLetThrough<W>(env: Env<W>, path: Path, f: Node)
    requires f.children != [] && MayCall(env, path, f)
    ensures !Denied(env, path, f.children[0].text)
    ensures !WrongOrganization(env, path, f.children[0].text, env.arguments(f).0)
  {
    var name, args := f.children[0].text, env.arguments(f).0;
    if path == [] {
      if WrongOrganization(env, path, name, args) {
        assert HasOrganization(args, args.fields["organizationId"].s);
        assert AimsElsewhere(name, args, env.ctx);
      }
    }
  }

  // -------------------------------------------------------- What a call leaves

  /** The call the field makes: on the world as it is, with the parent, the arguments and the caller. */
  function Call<W>(env: Env<W>, parent: Json, path: Path, f: Node, st: State<W>): (W, Outcome)
    requires f.children != [] && Lookup(env.resolvers, path + [f.children[0].text]).Some?
  {
    Lookup(env.resolvers, path + [f.children[0].text]).value(st.world, parent, env.arguments(f).0, env.ctx)
  }

  /** A throw becomes null and one error at the field, with the thrower's code where it has one. */
  lemma ThrowIsReported<W>(env: Env<W>, parent: Json, path: Path, f: Node, result: Json, st: State<W>)
    requires Fillable(result) && Callable(env, path, f) && MayCall(env, path, f)
    requires !Call(env, parent, path, f, st).1.Returned?
    ensures
      var name, here := f.children[0].text, path + [f.children[0].text];
      var (world, outcome) := Call(env, parent, path, f, st);
      var error := match outcome
        case ThrewError(code, text) => Error(code, Verbatim(text), here)
        case Threw(what) =>
          if |what| >= 12 && what[..12] == "RATE_LIMITED" then Error(RATE_LIMITED, Verbatim(what), here)
          else Error(UNKNOWN_ERROR, ResolverThrew(here, what), here);
      ResolveField(env, parent, path, f, result, st)
        == (With(result, name, Null), Reported(st, env.arguments(f).1, [error], world))
  {
    MayCallIsLetThrough(env, path, f);
    var (world, outcome) := Call(env, parent, path, f, st);
    if outcome.Threw? {
      assert "RATE_LIMITED" <= outcome.what <==> |outcome.what| >= 12 && outcome.what[..12] == "RATE_LIMITED";
    }
  }

  /** Without a sub-selection the resolver's value is the field's value. */
  lemma ValueIsKept<W>(env: Env<W>, parent: Json, path: Path, f: Node, result: Json, st: State<W>, value: Json)
    requires Fillable(result) && Callable(env, path, f) && MayCall(env, path, f)
    requires Call(env, parent, path, f, st).1 == Returned(value)
    requires forall k :: 1 <= k < |f.children| ==> !f.children[k].kind.SelectionSet?
    ensures ResolveField(env, parent, path, f, result, st)
         == (With(result, f.children[0].text, value),
             Reported(st, env.arguments(f).1, [], Call(env, parent, path, f, st).0))
  {
    ReportedIs(st, env.arguments(f).1, [], Call(env, parent, path, f, st).0);
    MayCallIsLetThrough(env, path, f);
    FirstSelectionSet(f.children[1..], |f.children| - 1);
  }

  lemma {:induction false} FirstSelectionSet(children: seq<Node>, k: nat)
    requires k <= |children| && forall i :: 0 <= i < k ==> !children[i].kind.SelectionSet?
    requires k < |children| ==> children[k].kind.SelectionSet?
    ensures SubSelection(children) == if k == |children| then None else Some(children[k])
  {
    if k > 0 { FirstSelectionSet(children[1..], k - 1); }
  }

  /** The first selection set of the field, narrowing what the resolver returned. */
  ghost predicate Narrows(f: Node, k: nat) {
    && 1 <= k < |f.children| && f.children[k].kind.SelectionSet?
    && forall i :: 1 <= i < k ==> !f.children[i].kind.SelectionSet?
  }

  lemma NarrowsIsSubSelection(f: Node, k: nat)
    requires Narrows(f, k)
    ensures SubSelection(f.children[1..]) == Some(f.children[k])
  {
    FirstSelectionSet(f.children[1..], k - 1);
  }

  /** A sub-selection keeps a null, refuses a scalar, and replaces an object by the selected fields of it. */
  lemma ValueIsNarrowed<W>(
      env: Env<W>, parent: Json, path: Path, f: Node, result: Json, st: State<W>, value: Json, k: nat)
    requires Fillable(result) && Callable(env, path, f) && MayCall(env, path, f)
    requires Call(env, parent, path, f, st).1 == Returned(value) && Narrows(f, k)
    ensures
      var name, here := f.children[0].text, path + [f.children[0].text];
      var bad, world := env.arguments(f).1, Call(env, parent, path, f, st).0;
      var called, selected := Reported(st, bad, [], world), Inline(f.children[k].children);
      var (r, s) := ResolveField(env, parent, path, f, result, st);
      match value
      case Null => r == With(result, name, Null) && s == called
      case Obj(_) =>
        var (inner, s') := ProcessFields(env, value, here, selected, Obj(map[]), called);
        r == With(result, name, inner) && s == s'
      case Arr(items) =>
        var (inner, s') := ProcessElements(env, items, here, selected, called);
        r == With(result, name, Arr(inner)) && s == s'
      case _ =>
        r == With(result, name, Null)
        && s == Reported(st, bad, [Error(UNKNOWN_ERROR, SelectionOnScalar(here), here)], world)
  {
    MayCallIsLetThrough(env, path, f);
    NarrowsIsSubSelection(f, k);
    ReportedIs(st, env.arguments(f).1, [], Call(env, parent, path, f, st).0);
  }

  // ------------------------------------------------ Several fields and elements

  lemma NoFields<W>(env: Env<W>, parent: Json, path: Path, result: Json, st: State<W>)
    requires Fillable(result)
    ensures ProcessFields(env, parent, path, [], result, st) == (result, st)
  {
  }

  lemma OneField<W>(env: Env<W>, parent: Json, path: Path, f: Node, result: Json, st: State<W>)
    requires Fillable(result)
    ensures ProcessFields(env, parent, path, [f], result, st) == ResolveField(env, parent, path, f, result, st)
  {
    var (r, s) := ResolveField(env, parent, path, f, result, st);
    assert [f][1..] == [] && ProcessFields(env, parent, path, [], r, s) == (r, s);
  }

  /** A null element stays null; any other is replaced by the selected fields of it. */
  lemma OneElement<W>(env: Env<W>, item: Json, here: Path, fields: seq<Node>, st: State<W>)
    ensures
      var (out, s) := ProcessElements(env, [item], here, fields, st);
      if item == Null then out == [Null] && s == st
      else
        var (inner, s') := ProcessFields(env, item, here, fields, Obj(map[]), st);
        out == [inner] && s == s'
  {
    assert [item][1..] == [];
    var s' := if item.Null? then st else ProcessFields(env, item, here, fields, Obj(map[]), st).1;
    assert ProcessElements(env, [], here, fields, s') == ([], s');
  }

  lemma {:induction false} ElementsConcat<W>(
      env: Env<W>, a: seq<Json>, b: seq<Json>, here: Path, fields: seq<Node>, st: State<W>)
    ensures
      var (out, s) := ProcessElements(env, a, here, fields, st);
      var (more, s') := ProcessElements(env, b, here, fields, s);
      ProcessElements(env, a + b, here, fields, st) == (out + more, s')
    decreases |a|
  {
    if a == [] {
      var more := ProcessElements(env, b, here, fields, st).0;
      assert a + b == b && [] + more == more;
    } else {
      assert (a + b)[0] == a[0] && (a + b)[1..] == a[1..] + b;
      var (first, st1) := if a[0].Null? then (Null, st) else ProcessFields(env, a[0], here, fields, Obj(map[]), st);
      ElementsConcat(env, a[1..], b, here, fields, st1);
      var (rest, s) := ProcessElements(env, a[1..], here, fields, st1);
      var (more, s') := ProcessElements(env, b, here, fields, s);
      assert [first] + (rest + more) == ([first] + rest) + more;
    }
  }

  /** A selected object has the selected names only, each answered with the value as parent. */
  lemma SelectedObject<W>(env: Env<W>, value: Json, here: Path, selected: seq<Node>, st: State<W>)
    ensures
      var (inner, s) := ProcessFields(env, value, here, selected, Obj(map[]), st);
      && inner.Obj? && inner.fields.Keys <= Names(selected)
      && forall f :: f in selected ==> Answered(here, f, inner, s)
  {
    var (inner, s) := ProcessFields(env, value, here, selected, Obj(map[]), st);
    EveryFieldIsAnswered(env, value, here, selected, Obj(map[]), st);
    forall key | key in inner.fields ensures key in Names(selected) {
      if key !in Names(selected) { OtherKeysUntouched(env, value, here, selected, Obj(map[]), st, key); }
    }
  }
}
