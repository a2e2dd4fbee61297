/**
 * The schema type map: definitions are collected from the parse tree in one
 * walk, a later one replacing an earlier one of the same name; loading a schema
 * checks it, appends it to the current one and rebuilds the map.
 */
module SchemaMap {
  import opened Wrappers

  datatype Kind =
    | Document | ExecutableDefinition | SchemaDefinition | DirectiveDefinition | FragmentDefinition
    | TypeDefinition | ObjectTypeDefinition | InterfaceTypeDefinition | UnionTypeDefinition
    | EnumTypeDefinition | InputObjectTypeDefinition | ScalarTypeDefinition
    | InputValueDefinition | ArgumentsDefinition | VariableDefinition | VariableDefinitions
    | EnumValuesDefinition | InputFieldsDefinition
    | FieldDefinition | Name | TypeName | NamedType | Other

  datatype Node = Node(kind: Kind, content: Option<string>, children: seq<Node>)

  type TypeMap = map<string, Node>

  function Text(n: Node): string { if n.content.Some? then n.content.value else "" }

  predicate IsDefinition(k: Kind) {
    !(k == Document || k == FieldDefinition || k == Name || k == TypeName || k == NamedType || k == Other)
  }

  predicate IsNameNode(n: Node) { n.kind == Name || n.kind == TypeName }

  function FirstNameNode(children: seq<Node>): Option<Node> {
    if children == [] then None else if IsNameNode(children[0]) then Some(children[0]) else FirstNameNode(children[1..])
  }

  /** The text of the first name among the children; "" when there is none. */
  function FirstName(children: seq<Node>): string {
    var name := FirstNameNode(children);
    if name.Some? then Text(name.value) else ""
  }

  /** The node defines this name, as a directive or as anything else. */
  predicate Defines(n: Node, directive: bool, name: string) {
    && name != "" && FirstName(n.children) == name
    && IsDefinition(n.kind) && ((n.kind == DirectiveDefinition) == directive)
  }

  // ----------------------------------------------------------- The collecting walk

  function Own(n: Node, directive: bool): TypeMap {
    var name := FirstName(n.children);
    if Defines(n, directive, name) then map[name := n] else map[]
  }

  /** A node's own entry, overridden by what its children define, in order. */
  function Collected(n: Node, directive: bool): TypeMap
    decreases n, 0
  {
    Own(n, directive) + CollectedAll(n.children, directive)
  }

  function CollectedAll(ns: seq<Node>, directive: bool): TypeMap
    decreases ns, 1
  {
    if ns == [] then map[] else Collected(ns[0], directive) + CollectedAll(ns[1..], directive)
  }

  /** Every node of a tree, parents first. */
  function PreOrder(n: Node): seq<Node>
    decreases n, 0
  {
    [n] + PreOrderAll(n.children)
  }

  function PreOrderAll(ns: seq<Node>): seq<Node>
    decreases ns, 1
  {
    if ns == [] then [] else PreOrder(ns[0]) + PreOrderAll(ns[1..])
  }

  /** The last node of the list that defines the name. */
  function LastDefining(ns: seq<Node>, directive: bool, name: string): Option<Node> {
    if ns == [] then None
    else
      var later := LastDefining(ns[1..], directive, name);
      if later.Some? then later else if Defines(ns[0], directive, name) then Some(ns[0]) else None
  }

  function Find(m: TypeMap, name: string): Option<Node> { if name in m then Some(m[name]) else None }

  lemma {:induction false} LastOfConcat(a: seq<Node>, b: seq<Node>, directive: bool, name: string)
    ensures
      var inB := LastDefining(b, directive, name);
      LastDefining(a + b, directive, name) == if inB.Some? then inB else LastDefining(a, directive, name)
  {
    if a == [] {
      assert a + b == b;
    } else {
      assert (a + b)[0] == a[0] && (a + b)[1..] == a[1..] + b;
      LastOfConcat(a[1..], b, directive, name);
    }
  }

  /** The map holds, for each name, its last definition in document order. */
  lemma {:induction false} LastDefinitionWins(n: Node, directive: bool, name: string)
    ensures Find(Collected(n, directive), name) == LastDefining(PreOrder(n), directive, name)
    decreases n, 0
  {
    LastDefinitionWinsAll(n.children, directive, name);
    LastOfConcat([n], PreOrderAll(n.children), directive, name);
    assert [n][1..] == [];
  }

  lemma {:induction false} LastDefinitionWinsAll(ns: seq<Node>, directive: bool, name: string)
    ensures Find(CollectedAll(ns, directive), name) == LastDefining(PreOrderAll(ns), directive, name)
    decreases ns, 1
  {
    if ns != [] {
      LastDefinitionWins(ns[0], directive, name);
      LastDefinitionWinsAll(ns[1..], directive, name);
      LastOfConcat(PreOrder(ns[0]), PreOrderAll(ns[1..]), directive, name);
    }
  }

  lemma LeafCollected(n: Node, directive: bool)
    requires n.children == []
    ensures Collected(n, directive) == map[]
  {
  }

  lemma OneCollected(a: Node, directive: bool)
    ensures CollectedAll([a], directive) == Collected(a, directive)
  {
    assert [a][1..] == [];
    assert Collected(a, directive) + map[] == Collected(a, directive);
  }

  lemma PairCollected(a: Node, b: Node, directive: bool)
    ensures CollectedAll([a, b], directive) == Collected(a, directive) + Collected(b, directive)
  {
    assert [a, b][1..] == [b];
    OneCollected(b, directive);
  }

  ghost predicate Undefined(ns: seq<Node>, directive: bool, name: string) {
    forall n :: n in ns ==> !Defines(n, directive, name)
  }

  lemma {:induction false} LastDefiningIsOne(ns: seq<Node>, directive: bool, name: string)
    ensures LastDefining(ns, directive, name).None? <==> Undefined(ns, directive, name)
    ensures LastDefining(ns, directive, name).Some? ==> LastDefining(ns, directive, name).value in ns
  {
    if ns != [] {
      LastDefiningIsOne(ns[1..], directive, name);
      assert forall n :: n in ns <==> n == ns[0] || n in ns[1..];
    }
  }

  /**
   * A definition of a schema stays in the map exactly when no node after it
   * defines its name, or the last that does is the same text again.
   */
  lemma DefinitionStaysIff(root: Node, directive: bool, name: string, i: nat)
    requires i < |PreOrder(root)| && Defines(PreOrder(root)[i], directive, name)
    ensures
      var node, later := PreOrder(root)[i], PreOrder(root)[i + 1..];
      Find(Collected(root, directive), name) == Some(node)
      <==> Undefined(later, directive, name) || LastDefining(later, directive, name) == Some(node)
  {
    var ns := PreOrder(root);
    LastDefinitionWins(root, directive, name);
    assert ns == ns[..i] + ns[i..] && ns[i..][1..] == ns[i + 1..];
    LastOfConcat(ns[..i], ns[i..], directive, name);
    LastDefiningIsOne(ns[i + 1..], directive, name);
  }

  lemma {:induction false} PartsAreSmaller(ns: seq<Node>, n: Node)
    requires n in PreOrderAll(ns)
    ensures |PreOrder(n)| <= |PreOrderAll(ns)|
    decreases ns, 1
  {
    if n in PreOrder(ns[0]) { PartIsSmaller(ns[0], n); } else { PartsAreSmaller(ns[1..], n); }
  }

  lemma {:induction false} PartIsSmaller(whole: Node, n: Node)
    requires n in PreOrder(whole)
    ensures |PreOrder(n)| <= |PreOrder(whole)|
    decreases whole, 0
  {
    if n != whole { PartsAreSmaller(whole.children, n); }
  }

  /** Within a definition, its own name stays its own exactly when nothing inside it defines that name. */
  lemma OwnNameStaysIff(n: Node, directive: bool, name: string)
    requires Defines(n, directive, name)
    ensures Find(Collected(n, directive), name) == Some(n) <==> Undefined(PreOrderAll(n.children), directive, name)
  {
    DefinitionStaysIff(n, directive, name, 0);
    var later := PreOrderAll(n.children);
    assert PreOrder(n)[1..] == later;
    LastDefiningIsOne(later, directive, name);
    if n in later { PartsAreSmaller(n.children, n); }
  }

  function NameNode(name: string): Node { Node(Name, Some(name), []) }

  /** The tree of `(name: type)`. */
  function ArgumentTree(name: string, typeName: string): Node {
    Node(InputValueDefinition, Some(name + ": " + typeName), [NameNode(name), TypeTree(typeName)])
  }

  function TypeTree(typeName: string): Node {
    Node(Other, Some(typeName), [Node(NamedType, Some(typeName), [])])
  }

  /** The tree of `type name { field(argument: type): type }`. */
  function ObjectTree(name: string, field: string, argument: Node, typeName: string): Node {
    var arguments := Node(ArgumentsDefinition, Some("(...)"), [argument]);
    var fieldNode := Node(FieldDefinition, Some("..."), [NameNode(field), arguments, TypeTree(typeName)]);
    Node(TypeDefinition, Some("type ..."), [NameNode(name), fieldNode])
  }

  /** So an argument replaces a type of its name, even the type it belongs to. */
  lemma ArgumentShadowsItsType(name: string, field: string, typeName: string)
    requires name != ""
    ensures
      var argument := ArgumentTree(name, typeName);
      var n := ObjectTree(name, field, argument, typeName);
      Defines(n, false, name) && Find(Collected(n, false), name) == Some(argument)
  {
    var argument := ArgumentTree(name, typeName);
    var n := ObjectTree(name, field, argument, typeName);
    var fieldNode := n.children[1];
    var arguments := fieldNode.children[1];
    TypeTreeDefinesNothing(typeName);
    PairCollected(NameNode(name), TypeTree(typeName), false);
    assert CollectedAll(argument.children, false) == map[];
    assert Collected(argument, false) == map[name := argument];
    OneCollected(argument, false);
    assert FirstName(arguments.children) == "";
    assert Collected(arguments, false) == map[name := argument];
    PairCollected(arguments, TypeTree(typeName), false);
    assert fieldNode.children[1..] == [arguments, TypeTree(typeName)];
    LeafCollected(NameNode(field), false);
    assert CollectedAll(fieldNode.children, false) == map[name := argument];
    RootCollected(fieldNode, false);
    PairCollected(NameNode(name), fieldNode, false);
    LeafCollected(NameNode(name), false);
  }

  lemma TypeTreeDefinesNothing(typeName: string)
    ensures Collected(TypeTree(typeName), false) == map[] && Collected(NameNode(typeName), false) == map[]
  {
    var leaf := Node(NamedType, Some(typeName), []);
    LeafCollected(leaf, false);
    OneCollected(leaf, false);
    LeafCollected(NameNode(typeName), false);
    RootCollected(TypeTree(typeName), false);
  }

  // ------------------------------------------------------------------- Merging

  function Merge(schema: Option<Node>, more: Option<Node>): Option<Node> {
    if schema.None? then more
    else if more.None? then schema
    else Some(schema.value.(children := schema.value.children + more.value.children))
  }

  function MapOf(schema: Option<Node>, directive: bool): TypeMap {
    if schema.None? then map[] else Collected(schema.value, directive)
  }

  lemma OverEmpty(m: TypeMap)
    ensures map[] + m == m
  {
  }

  lemma OverrideAssociates(a: TypeMap, b: TypeMap, c: TypeMap)
    ensures (a + b) + c == a + (b + c)
  {
  }

  lemma {:induction false} CollectedConcat(a: seq<Node>, b: seq<Node>, directive: bool)
    ensures CollectedAll(a + b, directive) == CollectedAll(a, directive) + CollectedAll(b, directive)
  {
    if a == [] {
      assert a + b == b;
    } else {
      assert (a + b)[0] == a[0] && (a + b)[1..] == a[1..] + b;
      CollectedConcat(a[1..], b, directive);
      OverrideAssociates(Collected(a[0], directive), CollectedAll(a[1..], directive), CollectedAll(b, directive));
    }
  }

  /** A parse tree's root is not itself a definition. */
  predicate IsRoot(schema: Option<Node>) { schema.Some? ==> !IsDefinition(schema.value.kind) }

  /** The map of a merge is the first map overridden by the second. */
  lemma MergeOverrides(schema: Option<Node>, more: Option<Node>, directive: bool)
    requires IsRoot(schema) && IsRoot(more)
    ensures MapOf(Merge(schema, more), directive) == MapOf(schema, directive) + MapOf(more, directive)
    ensures IsRoot(Merge(schema, more))
  {
    if schema.Some? && more.Some? {
      RootCollected(schema.value, directive);
      RootCollected(more.value, directive);
      RootCollected(Merge(schema, more).value, directive);
      CollectedConcat(schema.value.children, more.value.children, directive);
    }
  }

  lemma RootCollected(n: Node, directive: bool)
    requires !IsDefinition(n.kind)
    ensures Collected(n, directive) == CollectedAll(n.children, directive)
  {
    assert Own(n, directive) == map[];
  }

  // ------------------------------------------------------------------- Loading

  /** What the parser yields for a schema text. */
  datatype Parsed = NoTree | Threw | Tree(root: Node)

  datatype LoadError = ParseError | IncompleteField | MissingResolver(field: string) | ExecutableNotAllowed

  function FieldErrors(field: Node, registered: set<string>): seq<LoadError> {
    if field.kind != FieldDefinition then []
    else if field.children == [] then [IncompleteField]
    else
      var name := FirstNameNode(field.children);
      if name.None? || Text(name.value) in registered then [] else [MissingResolver(Text(name.value))]
  }

  function FieldsErrors(fields: seq<Node>, registered: set<string>): seq<LoadError> {
    if fields == [] then [] else FieldErrors(fields[0], registered) + FieldsErrors(fields[1..], registered)
  }

  /** An object type whose first child reads Query or Mutation. */
  predicate IsOperationType(d: Node) {
    && (d.kind == TypeDefinition || d.kind == ObjectTypeDefinition)
    && d.children != [] && (Text(d.children[0]) == "Query" || Text(d.children[0]) == "Mutation")
  }

  function DefinitionErrors(d: Node, registered: set<string>): seq<LoadError> {
    if IsOperationType(d) then FieldsErrors(d.children[1..], registered)
    else if d.kind == ExecutableDefinition then [ExecutableNotAllowed]
    else []
  }

  function DefinitionsErrors(ds: seq<Node>, registered: set<string>): seq<LoadError> {
    if ds == [] then [] else DefinitionErrors(ds[0], registered) + DefinitionsErrors(ds[1..], registered)
  }

  function Definitions(root: Node): seq<Node> {
    if root.children == [] then []
    else if root.kind == Document then root.children
    else root.children[0].children
  }

  /** The child at i is the first of the children that is a name. */
  ghost predicate FirstNameAt(children: seq<Node>, i: nat) {
    && i < |children| && children[i].kind in {Name, TypeName}
    && forall j :: 0 <= j < i ==> children[j].kind !in {Name, TypeName}
  }

  lemma {:induction false} FirstNameIsAt(children: seq<Node>, i: nat)
    requires FirstNameAt(children, i)
    ensures FirstNameNode(children) == Some(children[i])
  {
    if i > 0 {
      assert !IsNameNode(children[0]);
      assert forall j :: 0 <= j < |children| - 1 ==> children[1..][j] == children[j + 1];
      FirstNameIsAt(children[1..], i - 1);
    }
  }

  lemma {:induction false} FirstNameExists(children: seq<Node>)
    requires FirstNameNode(children).Some?
    ensures exists i: nat :: FirstNameAt(children, i)
  {
    if IsNameNode(children[0]) {
      assert FirstNameAt(children, 0);
    } else {
      FirstNameExists(children[1..]);
      var i: nat :| FirstNameAt(children[1..], i);
      assert forall j :: 0 < j < |children| ==> children[j] == children[1..][j - 1];
      assert FirstNameAt(children, i + 1);
    }
  }

  /** A field that needs a resolver has one. */
  ghost predicate FieldOk(f: Node, registered: set<string>) {
    f.kind == FieldDefinition ==>
      && f.children != []
      && forall i: nat :: FirstNameAt(f.children, i) ==> Text(f.children[i]) in registered
  }

  /** `type Query` or `type Mutation`. */
  ghost predicate RootType(d: Node) {
    && d.kind in {TypeDefinition, ObjectTypeDefinition}
    && d.children != [] && d.children[0].content in {Some("Query"), Some("Mutation")}
  }

  ghost predicate Acceptable(ds: seq<Node>, registered: set<string>) {
    forall d :: d in ds ==>
      && d.kind != ExecutableDefinition
      && (RootType(d) ==> forall f :: f in d.children[1..] ==> FieldOk(f, registered))
  }

  lemma FieldAccepted(f: Node, registered: set<string>)
    ensures FieldErrors(f, registered) == [] <==> FieldOk(f, registered)
  {
    if f.kind == FieldDefinition && f.children != [] {
      forall i: nat | FirstNameAt(f.children, i) ensures FirstNameNode(f.children) == Some(f.children[i]) {
        FirstNameIsAt(f.children, i);
      }
      if FirstNameNode(f.children).Some? { FirstNameExists(f.children); }
    }
  }

  lemma BothEmpty<T>(a: seq<T>, b: seq<T>)
    ensures a + b == [] <==> a == [] && b == []
  {
    assert |a + b| == |a| + |b|;
  }

  lemma {:induction false} FieldsAccepted(fields: seq<Node>, registered: set<string>)
    ensures FieldsErrors(fields, registered) == [] <==> forall f :: f in fields ==> FieldOk(f, registered)
  {
    if fields != [] {
      FieldsAccepted(fields[1..], registered);
      BothEmpty(FieldErrors(fields[0], registered), FieldsErrors(fields[1..], registered));
      FieldAccepted(fields[0], registered);
      assert forall f :: f in fields <==> f == fields[0] || f in fields[1..];
    }
  }

  /** The check passes exactly when every root field has a resolver and nothing is executable. */
  lemma {:induction false} LoadAcceptsIff(ds: seq<Node>, registered: set<string>)
    ensures DefinitionsErrors(ds, registered) == [] <==> Acceptable(ds, registered)
  {
    if ds != [] {
      LoadAcceptsIff(ds[1..], registered);
      BothEmpty(DefinitionErrors(ds[0], registered), DefinitionsErrors(ds[1..], registered));
      assert forall d :: d in ds <==> d == ds[0] || d in ds[1..];
      if IsOperationType(ds[0]) { FieldsAccepted(ds[0].children[1..], registered); }
    }
  }

  lemma OneMore(base: TypeMap, ns: seq<Node>, i: nat, directive: bool)
    requires i < |ns|
    ensures (base + CollectedAll(ns[..i], directive)) + Collected(ns[i], directive)
         == base + CollectedAll(ns[..i + 1], directive)
  {
    assert ns[..i + 1] == ns[..i] + [ns[i]];
    CollectedConcat(ns[..i], [ns[i]], directive);
    OneCollected(ns[i], directive);
    OverrideAssociates(base, CollectedAll(ns[..i], directive), Collected(ns[i], directive));
  }

  method TypeNameOf(children: seq<Node>) returns (name: string)
    ensures name == FirstName(children)
  {
    name := "";
    var i := 0;
    while i < |children|
      invariant 0 <= i <= |children| && name == ""
      invariant FirstName(children) == FirstName(children[i..])
    {
      if IsNameNode(children[i]) {
        name := Text(children[i]);
        break;
      }
      i := i + 1;
    }
  }

  class SchemaLoader {
    var currentSchema: Option<Node>
    var typeMap: TypeMap
    var directives: TypeMap
    var schemaDocuments: nat
    /** The names with a resolver at the top level. */
    var registered: set<string>

    /** The maps are those of the current schema. */
    ghost predicate Valid()
      reads this
    {
      && IsRoot(currentSchema)
      && typeMap == MapOf(currentSchema, false) && directives == MapOf(currentSchema, true)
    }

    constructor (names: set<string>)
      ensures Valid() && currentSchema == None && registered == names
    {
      currentSchema, typeMap, directives, schemaDocuments, registered := None, map[], map[], 0, names;
    }

    method UpdateTypeMapRecursive(n: Node)
      modifies this`typeMap, this`directives
      ensures typeMap == old(typeMap) + Collected(n, false) && directives == old(directives) + Collected(n, true)
      decreases n, 1
    {
      var name := TypeNameOf(n.children);
      if name != "" && IsDefinition(n.kind) {
        if n.kind == DirectiveDefinition {
          directives := directives[name := n];
        } else {
          typeMap := typeMap[name := n];
        }
      }
      assert typeMap == old(typeMap) + Own(n, false) && directives == old(directives) + Own(n, true);
      OverrideAssociates(old(typeMap), Own(n, false), CollectedAll(n.children, false));
      OverrideAssociates(old(directives), Own(n, true), CollectedAll(n.children, true));
      UpdateTypeMapOfChildren(n);
    }

    method UpdateTypeMapOfChildren(n: Node)
      modifies this`typeMap, this`directives
      ensures typeMap == old(typeMap) + CollectedAll(n.children, false)
      ensures directives == old(directives) + CollectedAll(n.children, true)
      decreases n, 0
    {
      ghost var types, dirs := typeMap, directives;
      var i := 0;
      while i < |n.children|
        invariant 0 <= i <= |n.children|
        invariant typeMap == types + CollectedAll(n.children[..i], false)
        invariant directives == dirs + CollectedAll(n.children[..i], true)
      {
        UpdateTypeMapRecursive(n.children[i]);
        OneMore(types, n.children, i, false);
        OneMore(dirs, n.children, i, true);
        i := i + 1;
      }
      assert n.children[..i] == n.children;
    }

    method UpdateTypeMap()
      modifies this`typeMap, this`directives
      ensures typeMap == MapOf(currentSchema, false) && directives == MapOf(currentSchema, true)
    {
      typeMap, directives := map[], map[];
      if currentSchema.Some? {
        UpdateTypeMapRecursive(currentSchema.value);
        OverEmpty(Collected(currentSchema.value, false));
        OverEmpty(Collected(currentSchema.value, true));
      }
    }

    method ProcessFieldDefinition(d: Node, index: nat, errors: seq<LoadError>) returns (r: seq<LoadError>)
      requires index < |d.children|
      ensures r == errors + FieldErrors(d.children[index], registered)
    {
      var field := d.children[index];
      r := errors;
      if field.kind != FieldDefinition { return; }
      if field.children == [] { return errors + [IncompleteField]; }
      var i := 0;
      while i < |field.children| && !IsNameNode(field.children[i])
        invariant 0 <= i <= |field.children|
        invariant FirstNameNode(field.children) == FirstNameNode(field.children[i..])
      {
        i := i + 1;
      }
      if i < |field.children| && Text(field.children[i]) !in registered {
        r := errors + [MissingResolver(Text(field.children[i]))];
      }
    }

    method CheckFields(d: Node, errors: seq<LoadError>) returns (r: seq<LoadError>)
      requires d.children != []
      ensures r == errors + FieldsErrors(d.children[1..], registered)
    {
      r := errors;
      var i := 1;
      while i < |d.children|
        invariant 1 <= i <= |d.children|
        invariant r + FieldsErrors(d.children[i..], registered) == errors + FieldsErrors(d.children[1..], registered)
      {
        assert d.children[i..][1..] == d.children[i + 1..];
        ConcatAssociates(r, FieldErrors(d.children[i], registered), FieldsErrors(d.children[i + 1..], registered));
        r := ProcessFieldDefinition(d, i, r);
        i := i + 1;
      }
    }

    method CheckDefinition(d: Node, errors: seq<LoadError>) returns (r: seq<LoadError>)
      ensures r == errors + DefinitionErrors(d, registered)
    {
      r := errors;
      if IsOperationType(d) {
        r := CheckFields(d, r);
      } else if d.kind == ExecutableDefinition {
        r := errors + [ExecutableNotAllowed];
      }
    }

    method CheckDefinitions(ds: seq<Node>) returns (r: seq<LoadError>)
      ensures r == DefinitionsErrors(ds, registered)
    {
      r := [];
      var i := 0;
      while i < |ds|
        invariant 0 <= i <= |ds|
        invariant r + DefinitionsErrors(ds[i..], registered) == DefinitionsErrors(ds, registered)
      {
        assert ds[i..][1..] == ds[i + 1..];
        ConcatAssociates(r, DefinitionErrors(ds[i], registered), DefinitionsErrors(ds[i + 1..], registered));
        r := CheckDefinition(ds[i], r);
        i := i + 1;
      }
    }

    method LoadSchema(parsed: Parsed) returns (errors: seq<LoadError>)
      requires Valid() && (parsed.Tree? ==> !IsDefinition(parsed.root.kind))
      modifies this`currentSchema, this`typeMap, this`directives, this`schemaDocuments
      ensures Valid() && schemaDocuments == old(schemaDocuments) + 1
      ensures errors == [] <==> parsed.Tree? && Acceptable(Definitions(parsed.root), registered)
      ensures errors == [] ==> currentSchema == Merge(old(currentSchema), Some(parsed.root))
      // Loading a schema overrides the definitions before it.
      ensures errors == [] ==>
                && typeMap == old(typeMap) + Collected(parsed.root, false)
                && directives == old(directives) + Collected(parsed.root, true)
      // A failed load changes neither schema nor maps.
      ensures errors != [] ==>
                currentSchema == old(currentSchema) && typeMap == old(typeMap) && directives == old(directives)
      ensures parsed.Tree? && errors != [] ==>
                errors == DefinitionsErrors(Definitions(parsed.root), registered) + [ParseError]
    {
      schemaDocuments := schemaDocuments + 1;
      if !parsed.Tree? { return [ParseError]; }
      var root := parsed.root;
      UpdateTypeMap();
      errors := [];
      if root.children != [] {
        var document := if root.kind == Document then root else root.children[0];
        errors := CheckDefinitions(document.children);
      }
      LoadAcceptsIff(Definitions(root), registered);
      if errors == [] {
        MergeOverrides(currentSchema, Some(root), false);
        MergeOverrides(currentSchema, Some(root), true);
        currentSchema := Merge(currentSchema, Some(root));
        UpdateTypeMap();
      } else {
        errors := errors + [ParseError];
      }
    }
  }

  // ---------------------------------------------------- Interfaces and their objects

  /** The introspection kind, as far as it is distinguished here. */
  datatype TypeKind = Scalar | Object | Interface | Union | Enum | InputObject

  function SpecificKind(k: Kind): Option<TypeKind> {
    match k
    case ScalarTypeDefinition => Some(Scalar)
    case InterfaceTypeDefinition => Some(Interface)
    case UnionTypeDefinition => Some(Union)
    case EnumTypeDefinition => Some(Enum)
    case InputObjectTypeDefinition => Some(InputObject)
    case _ => None
  }

  function FirstSpecific(children: seq<Node>): TypeKind {
    if children == [] then Object
    else if SpecificKind(children[0].kind).Some? then SpecificKind(children[0].kind).value
    else FirstSpecific(children[1..])
  }

  function KindOf(n: Node): TypeKind {
    if SpecificKind(n.kind).Some? then SpecificKind(n.kind).value
    else if n.kind == TypeDefinition then FirstSpecific(n.children)
    else Object
  }

  /** The name an `interfaces` entry shows: the node's text or, without content, its first child's. */
  function ShownName(c: Node): string {
    if c.content.Some? then c.content.value
    else if c.children != [] && c.children[0].content.Some? then c.children[0].content.value
    else ""
  }

  predicate Shows(c: Node, name: string) { c.kind == NamedType && name != "" && ShownName(c) == name }

  /** What the search for possible types compares: the node's own text only. */
  predicate Matches(c: Node, name: string) { c.kind == NamedType && Text(c) == name }

  function Shown(c: Node): seq<string> {
    if c.kind == NamedType && ShownName(c) != "" then [ShownName(c)] else []
  }

  function Interfaces(children: seq<Node>): seq<string> {
    if children == [] then [] else Shown(children[0]) + Interfaces(children[1..])
  }

  predicate Implements(o: Node, name: string) {
    KindOf(o) == Object && exists c :: c in o.children && Matches(c, name)
  }

  function PossibleTypes(order: seq<string>, m: TypeMap, name: string): seq<string>
    requires forall k :: k in order ==> k in m
  {
    if order == [] then []
    else (if Implements(m[order[0]], name) then [order[0]] else []) + PossibleTypes(order[1..], m, name)
  }

  lemma {:induction false} InterfacesMember(children: seq<Node>, name: string)
    ensures name in Interfaces(children) <==> exists c :: c in children && Shows(c, name)
  {
    if children != [] {
      InterfacesMember(children[1..], name);
      assert forall c :: c in children <==> c == children[0] || c in children[1..];
      assert children[0].kind == NamedType && ShownName(children[0]) == name != "" <==> Shows(children[0], name);
    }
  }

  lemma {:induction false} PossibleMember(order: seq<string>, m: TypeMap, name: string, o: string)
    requires forall k :: k in order ==> k in m
    ensures o in PossibleTypes(order, m, name) <==> o in order && Implements(m[o], name)
  {
    if order != [] {
      PossibleMember(order[1..], m, name, o);
      assert forall k :: k in order <==> k == order[0] || k in order[1..];
    }
  }

  /** A NamedType child without content of its own shows the name, and none matches it. */
  predicate OnlyShown(o: Node, name: string) {
    && (exists c :: c in o.children && Shows(c, name) && c.content.None?)
    && !(exists c :: c in o.children && Matches(c, name))
  }

  /** An object lists an interface that lists it, and conversely unless the name is only shown. */
  lemma InterfacesMirrorPossibleTypes(m: TypeMap, order: seq<string>, o: string, i: string)
    requires o in m && i in m && i != "" && KindOf(m[o]) == Object
    requires forall k :: k in order <==> k in m
    ensures o in PossibleTypes(order, m, i) ==> i in Interfaces(m[o].children)
    ensures (o in PossibleTypes(order, m, i) <==> i in Interfaces(m[o].children)) <==> !OnlyShown(m[o], i)
  {
    InterfacesMember(m[o].children, i);
    PossibleMember(order, m, i, o);
    forall c | c in m[o].children ensures Matches(c, i) ==> Shows(c, i) {}
    forall c | c in m[o].children ensures Shows(c, i) && c.content.Some? ==> Matches(c, i) {}
  }

  /** Where every node carries its text, as the parser leaves it, the two agree for all. */
  lemma WithContentsTheyMirror(m: TypeMap, order: seq<string>, o: string, i: string)
    requires o in m && i in m && i != "" && KindOf(m[o]) == Object
    requires forall k :: k in order <==> k in m
    requires forall c :: c in m[o].children && c.kind == NamedType ==> c.content.Some?
    ensures o in PossibleTypes(order, m, i) <==> i in Interfaces(m[o].children)
  {
    InterfacesMirrorPossibleTypes(m, order, o, i);
  }

  /** Without content the two can differ. */
  lemma ShownButNotPossible(i: string)
    requires i != ""
    ensures var o := Node(TypeDefinition, None, [Node(NamedType, None, [Node(Name, Some(i), [])])]);
      i in Interfaces(o.children) && !Implements(o, i)
  {
    var c := Node(NamedType, None, [Node(Name, Some(i), [])]);
    InterfacesMember([c], i);
    assert c in [c] && Shows(c, i);
  }

  method ListInterfaces(n: Node) returns (names: seq<string>)
    ensures names == Interfaces(n.children)
  {
    names := [];
    var k := 0;
    while k < |n.children|
      invariant 0 <= k <= |n.children|
      invariant names + Interfaces(n.children[k..]) == Interfaces(n.children)
    {
      assert n.children[k..][1..] == n.children[k + 1..];
      var c := n.children[k];
      ConcatAssociates(names, Shown(c), Interfaces(n.children[k + 1..]));
      ghost var before := names;
      if c.kind == NamedType {
        var name := ShownName(c);
        if name != "" { names := names + [name]; }
      }
      assert names == before + Shown(c);
      k := k + 1;
    }
  }

  /** The map is scanned in the order of its keys; an object is listed once, however often it matches. */
  method ListPossibleTypes(name: string, order: seq<string>, m: TypeMap) returns (possible: seq<string>)
    requires forall k :: k in order ==> k in m
    ensures possible == PossibleTypes(order, m, name)
  {
    possible := [];
    var k := 0;
    while k < |order|
      invariant 0 <= k <= |order|
      invariant possible + PossibleTypes(order[k..], m, name) == PossibleTypes(order, m, name)
    {
      assert order[k..][1..] == order[k + 1..];
      assert order[k] in order;
      ConcatAssociates(possible, [order[k]], PossibleTypes(order[k + 1..], m, name));
      var implements := ScanForInterface(m[order[k]], name);
      if implements { possible := possible + [order[k]]; }
      k := k + 1;
    }
  }

  method ScanForInterface(o: Node, name: string) returns (found: bool)
    ensures found <==> Implements(o, name)
  {
    if KindOf(o) != Object { return false; }
    for c := 0 to |o.children|
      invariant forall j :: 0 <= j < c ==> !Matches(o.children[j], name)
    {
      if Matches(o.children[c], name) { return true; }
    }
    found := false;
  }
}
