/**
 * Execution of selection sets on values: what resolving one field, a list of
 * fields and the elements of a list result do to the result, the error list
 * and the world the resolvers act on.
 *
 * It follows the program, which is not sections 6.3 and 6.4 of the GraphQL
 * specification (October 2021): for example, a field is known by the text of
 * its first child, alias or name; a field without a resolver copies the
 * parent's value whole; a repeated key is overwritten; fragments are skipped.
 */
module Execution {
  import opened Ast
  import opened ResolverRegistry
  import opened Wrappers

  datatype Code =
    | UNKNOWN_ERROR | MISSING_GQL_RESOLVER | PARSE_ERROR | ARGUMENT_ERROR
    | FORBIDDEN | RATE_LIMITED | CONTEXT_MISMATCH | OTHER_CODE(n: int)

  /** A message stands for the program's text by its template and arguments. */
  datatype Message =
    | EmptyField
    | MissingResolver(path: Path)
    | BadArgument(text: string)
    | AccessDenied(field: string, required: seq<string>)
    | ContextMismatch(requested: string, active: string)
    | Verbatim(text: string)
    | ResolverThrew(path: Path, what: string)
    | SelectionOnScalar(path: Path)
    | NotAnOperation | EmptyOperation | NotASelectionSet | UnknownOperation(text: string)
    | EmptyDocument | NoDocument | NotExecutable
    | TooDeep(depth: nat, limit: nat) | TooComplex(complexity: nat, limit: nat)

  datatype Error = Error(code: Code, message: Message, path: Path)

  datatype Ctx = Ctx(tenant: string, user: string, roles: seq<string>)

  /** What a resolver does: return a value, throw a GraphQL error, or throw anything else. */
  datatype Outcome = Returned(value: Json) | ThrewError(code: Code, text: string) | Threw(what: string)

  /** A resolver acts on a world of which nothing is known. */
  type Resolver<!W> = (W, Json, Json, Ctx) -> (W, Outcome)

  datatype Env<!W> = Env(
    resolvers: Trie<Resolver<W>>,
    gates: map<string, seq<string>>,
    ctx: Ctx,
    arguments: Node -> (Json, seq<string>),  // extracted arguments and the messages about bad ones
    declaredType: Path -> string             // schema type reached along a path, "" if none
  )

  datatype State<W> = State(errors: seq<Error>, world: W, dispatched: nat)

  const ORG_SCOPED: set<string> := {
    "createUser", "updateUser", "deleteUser", "createRole", "updateRole", "assignRole", "unassignRole",
    "updateTenantConfig", "createDataSource", "updateDataSource", "deleteDataSource"}

  const PLATFORM_ADMIN := "role_platform_admin"

  function Fail<W>(st: State<W>, code: Code, message: Message, path: Path): State<W> {
    st.(errors := st.errors + [Error(code, message, path)])
  }

  function ArgumentErrors(texts: seq<string>): seq<Error> {
    seq(|texts|, i requires 0 <= i < |texts| => Error(PARSE_ERROR, BadArgument(texts[i]), []))
  }

  function Put(result: Json, key: string, value: Json): Json
    requires result.Obj?
  {
    Obj(result.fields[key := value])
  }

  function Keys(result: Json): set<string> { if result.Obj? then result.fields.Keys else {} }

  function FieldName(f: Node): string
    requires f.children != []
  {
    f.children[0].text
  }

  /** The first selection set among the children after the name. */
  function SubSelection(children: seq<Node>): (r: Option<Node>)
    ensures r.Some? ==> r.value in children && r.value.kind.SelectionSet?
  {
    if children == [] then None
    else if children[0].kind.SelectionSet? then Some(children[0])
    else SubSelection(children[1..])
  }

  lemma SubSelectionSmaller(f: Node)
    requires f.children != [] && SubSelection(f.children[1..]).Some?
    ensures Size(SubSelection(f.children[1..]).value) < Size(f)
  {
    SizesMember(f.children, SubSelection(f.children[1..]).value);
  }

  predicate HasRole(required: seq<string>, roles: seq<string>) { exists r :: r in required && r in roles }

  /** The role gate, enforced for top-level fields only. */
  predicate Denied<W>(env: Env<W>, path: Path, name: string) {
    path == [] && name in env.gates && env.gates[name] != [] && !HasRole(env.gates[name], env.ctx.roles)
  }

  /** A write aimed at another organization than the caller's, by someone who is no platform admin. */
  predicate WrongOrganization<W>(env: Env<W>, path: Path, name: string, args: Json) {
    && path == [] && name in ORG_SCOPED
    && args.Obj? && "organizationId" in args.fields && args.fields["organizationId"].Str?
    && env.ctx.tenant != "" && PLATFORM_ADMIN !in env.ctx.roles
    && args.fields["organizationId"].s != env.ctx.tenant
  }

  function TypenameOf<W>(env: Env<W>, path: Path, parent: Json): Json {
    var declared := env.declaredType(path);
    if declared != "" then Str(declared)
    else if parent.Obj? && "__typename" in parent.fields && parent.fields["__typename"].Str?
            && parent.fields["__typename"].s != "" then parent.fields["__typename"]
    else Null
  }

  function ThrownError(path: Path, outcome: Outcome): Error
    requires !outcome.Returned?
  {
    match outcome
    case ThrewError(code, text) => Error(code, Verbatim(text), path)
    case Threw(what) =>
      if "RATE_LIMITED" <= what then Error(RATE_LIMITED, Verbatim(what), path)
      else Error(UNKNOWN_ERROR, ResolverThrew(path, what), path)
  }

  // ------------------------------------------------------------- Execution

  predicate Fillable(result: Json) { result.Null? || result.Obj? }

  function ResolveField<W>(env: Env<W>, parent: Json, path: Path, f: Node, result: Json, st: State<W>)
      : (r: (Json, State<W>))
    requires Fillable(result)
    ensures Fillable(r.0) && (result.Obj? ==> r.0.Obj?)
    decreases Size(f), 1
  {
    var st0 := st.(dispatched := st.dispatched + 1);
    if f.children == [] then (result, Fail(st0, PARSE_ERROR, EmptyField, []))
    else
      var name := FieldName(f);
      var here := path + [name];
      var obj := if result.Null? then Obj(map[]) else result;
      var resolver := Lookup(env.resolvers, here);
      if name == "__typename" then (Put(obj, name, TypenameOf(env, path, parent)), st0)
      else if resolver.None? then
        if parent.Obj? && name in parent.fields then (Put(obj, name, parent.fields[name]), st0)
        else (obj, Fail(st0, MISSING_GQL_RESOLVER, MissingResolver(here), here))
      else
        var (args, bad) := env.arguments(f);
        var st1 := st0.(errors := st0.errors + ArgumentErrors(bad));
        if Denied(env, path, name) then
          (Put(obj, name, Null), Fail(st1, FORBIDDEN, AccessDenied(name, env.gates[name]), here))
        else if WrongOrganization(env, path, name, args) then
          (Put(obj, name, Null),
           Fail(st1, CONTEXT_MISMATCH, ContextMismatch(args.fields["organizationId"].s, env.ctx.tenant), here))
        else
          var (world, outcome) := resolver.value(st1.world, parent, args, env.ctx);
          var st2 := st1.(world := world);
          if !outcome.Returned? then
            (Put(obj, name, Null), st2.(errors := st2.errors + [ThrownError(here, outcome)]))
          else
            var (value, st3) := Complete(env, here, f, outcome.value, st2);
            (Put(obj, name, value), st3)
  }

  /** Turns a resolver's value into the field's value, applying the sub-selection if there is one. */
  function Complete<W>(env: Env<W>, here: Path, f: Node, value: Json, st: State<W>): (Json, State<W>)
    requires f.children != []
    decreases Size(f), 0
  {
    match SubSelection(f.children[1..])
    case None => (value, st)
    case Some(set_) =>
      SubSelectionSmaller(f);
      match value
      case Null => (Null, st)
      case Arr(items) =>
        var (out, st') := ProcessElements(env, items, here, Inline(set_.children), st);
        (Arr(out), st')
      case Obj(_) => ProcessFields(env, value, here, Inline(set_.children), Obj(map[]), st)
      case _ => (Null, Fail(st, UNKNOWN_ERROR, SelectionOnScalar(here), here))
  }

  function ProcessFields<W>(env: Env<W>, parent: Json, path: Path, fields: seq<Node>, result: Json, st: State<W>)
      : (r: (Json, State<W>))
    requires Fillable(result)
    ensures Fillable(r.0) && (result.Obj? ==> r.0.Obj?)
    decreases Sizes(fields), 2
  {
    if fields == [] then (result, st)
    else
      var (result', st') := ResolveField(env, parent, path, fields[0], result, st);
      ProcessFields(env, parent, path, fields[1..], result', st')
  }

  /** The sub-selection applied to each element of a list; null elements stay null. */
  function ProcessElements<W>(env: Env<W>, items: seq<Json>, here: Path, fields: seq<Node>, st: State<W>)
      : (r: (seq<Json>, State<W>))
    decreases Sizes(fields), 3, |items|
  {
    if items == [] then ([], st)
    else
      var (first, st1) :=
        if items[0].Null? then (Null, st)
        else ProcessFields(env, items[0], here, fields, Obj(map[]), st);
      var (rest, st2) := ProcessElements(env, items[1..], here, fields, st1);
      ([first] + rest, st2)
  }
}
