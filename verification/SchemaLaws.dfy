/**
 * What the maps hold, what a load reports and how types are classified, said
 * of the nodes of the tree themselves.
 */
module SchemaLaws {
  import opened Wrappers
  import opened SchemaMap

  // ------------------------------------------------------------- The type map

  /** Its first name is this one. */
  ghost predicate Named(n: Node, name: string) {
    exists i: nat :: FirstNameAt(n.children, i) && n.children[i].content == Some(name)
  }

  lemma NamedIsFirstName(n: Node, name: string)
    requires name != ""
    ensures Named(n, name) <==> FirstName(n.children) == name
  {
    forall i: nat | FirstNameAt(n.children, i) ensures FirstNameNode(n.children) == Some(n.children[i]) {
      FirstNameIsAt(n.children, i);
    }
    if FirstName(n.children) == name {
      FirstNameExists(n.children);
      var i: nat :| FirstNameAt(n.children, i);
      assert n.children[i].content == Some(name);
    }
  }

  /** The sixteen kinds a type map holds. */
  ghost const TypeKinds: set<Kind> := {
    SchemaDefinition, TypeDefinition, ObjectTypeDefinition, InterfaceTypeDefinition, UnionTypeDefinition,
    EnumTypeDefinition, InputObjectTypeDefinition, ScalarTypeDefinition, InputValueDefinition, ArgumentsDefinition,
    VariableDefinition, VariableDefinitions, FragmentDefinition, ExecutableDefinition, EnumValuesDefinition,
    InputFieldsDefinition }

  /** A node defines its first name: as a type if it is of one of these kinds, as a directive if it is one. */
  lemma DefinesIff(n: Node, name: string)
    requires name != ""
    ensures Defines(n, false, name) <==> Named(n, name) && n.kind in TypeKinds
    ensures Defines(n, true, name) <==> Named(n, name) && n.kind == DirectiveDefinition
  {
    NamedIsFirstName(n, name);
  }

  /** A name is in the maps of a tree exactly when some node of the tree is a definition so named. */
  lemma MapsHoldIff(root: Node, name: string)
    requires name != ""
    ensures name in Collected(root, false) <==>
            exists n :: n in PreOrder(root) && Named(n, name) && n.kind in TypeKinds
    ensures name in Collected(root, true) <==>
            exists n :: n in PreOrder(root) && Named(n, name) && n.kind == DirectiveDefinition
  {
    forall directive: bool
      ensures name in Collected(root, directive) <==> !Undefined(PreOrder(root), directive, name)
    {
      LastDefinitionWins(root, directive, name);
      LastDefiningIsOne(PreOrder(root), directive, name);
    }
    forall n | n in PreOrder(root)
      ensures Defines(n, false, name) <==> Named(n, name) && n.kind in TypeKinds
      ensures Defines(n, true, name) <==> Named(n, name) && n.kind == DirectiveDefinition
    {
      DefinesIff(n, name);
    }
    assert name in Collected(root, false) <==> exists n :: n in PreOrder(root) && Defines(n, false, name);
    assert name in Collected(root, true) <==> exists n :: n in PreOrder(root) && Defines(n, true, name);
  }

  // ------------------------------------------------------- What a load reports

  lemma FieldsErrorsCons(x: Node, rest: seq<Node>, registered: set<string>)
    ensures FieldsErrors([x] + rest, registered) == FieldErrors(x, registered) + FieldsErrors(rest, registered)
  {
    assert ([x] + rest)[1..] == rest;
  }

  lemma {:induction false} FieldsErrorsConcat(a: seq<Node>, b: seq<Node>, registered: set<string>)
    ensures FieldsErrors(a + b, registered) == FieldsErrors(a, registered) + FieldsErrors(b, registered)
  {
    if a == [] {
      assert a + b == b;
    } else {
      var x, rest := a[0], a[1..];
      assert a == [x] + rest && a + b == [x] + (rest + b);
      FieldsErrorsCons(x, rest + b, registered);
      FieldsErrorsCons(x, rest, registered);
      FieldsErrorsConcat(rest, b, registered);
      ConcatAssociates(FieldErrors(x, registered), FieldsErrors(rest, registered), FieldsErrors(b, registered));
    }
  }

  lemma ErrorsCons(x: Node, rest: seq<Node>, registered: set<string>)
    ensures DefinitionsErrors([x] + rest, registered)
         == DefinitionErrors(x, registered) + DefinitionsErrors(rest, registered)
  {
    assert ([x] + rest)[1..] == rest;
  }

  lemma {:induction false} ErrorsConcat(a: seq<Node>, b: seq<Node>, registered: set<string>)
    ensures DefinitionsErrors(a + b, registered)
         == DefinitionsErrors(a, registered) + DefinitionsErrors(b, registered)
  {
    if a == [] {
      assert a + b == b;
    } else {
      var x, rest := a[0], a[1..];
      assert a == [x] + rest && a + b == [x] + (rest + b);
      ErrorsCons(x, rest + b, registered);
      ErrorsCons(x, rest, registered);
      ErrorsConcat(rest, b, registered);
      ConcatAssociates(DefinitionErrors(x, registered), DefinitionsErrors(rest, registered),
                       DefinitionsErrors(b, registered));
    }
  }

  /** One definition: a root type's fields are looked at in order, an executable one is refused, others pass. */
  lemma OneDefinition(d: Node, registered: set<string>)
    ensures RootType(d) ==> DefinitionsErrors([d], registered) == FieldsErrors(d.children[1..], registered)
    ensures d.kind == ExecutableDefinition ==> DefinitionsErrors([d], registered) == [ExecutableNotAllowed]
    ensures d.kind != ExecutableDefinition && !RootType(d) ==> DefinitionsErrors([d], registered) == []
  {
    assert [d][1..] == [];
    assert DefinitionsErrors([d], registered) == DefinitionErrors(d, registered) + [];
  }

  /** One member of a root type: the three things said of it, and when. */
  lemma OneMember(f: Node, registered: set<string>)
    ensures f.kind != FieldDefinition ==> FieldsErrors([f], registered) == []
    ensures f.kind == FieldDefinition && f.children == [] ==> FieldsErrors([f], registered) == [IncompleteField]
    ensures forall i: nat :: f.kind == FieldDefinition && FirstNameAt(f.children, i) ==>
              FieldsErrors([f], registered) ==
              if Text(f.children[i]) in registered then [] else [MissingResolver(Text(f.children[i]))]
    ensures FieldOk(f, registered) ==> FieldsErrors([f], registered) == []
  {
    assert [f][1..] == [];
    assert FieldsErrors([f], registered) == FieldErrors(f, registered) + [];
    forall i: nat | FirstNameAt(f.children, i) ensures FirstNameNode(f.children) == Some(f.children[i]) {
      FirstNameIsAt(f.children, i);
    }
    FieldAccepted(f, registered);
  }

  /** A resolver is missed exactly for the name of a root type's field that has none. */
  lemma {:induction false} MissedIff(ds: seq<Node>, registered: set<string>, name: string)
    requires name != ""
    ensures MissingResolver(name) in DefinitionsErrors(ds, registered)
            <==> name !in registered && exists d :: d in ds && RootType(d) && HasField(d.children[1..], name)
  {
    if ds != [] {
      var d, rest := ds[0], ds[1..];
      assert ds == [d] + rest;
      ErrorsConcat([d], rest, registered);
      OneDefinition(d, registered);
      if RootType(d) { FieldMissedIff(d.children[1..], registered, name); }
      MissedIff(rest, registered, name);
    }
  }

  ghost predicate HasField(fields: seq<Node>, name: string) {
    exists f :: f in fields && f.kind == FieldDefinition && Named(f, name)
  }

  lemma {:induction false} FieldMissedIff(fields: seq<Node>, registered: set<string>, name: string)
    requires name != ""
    ensures MissingResolver(name) in FieldsErrors(fields, registered)
            <==> name !in registered && HasField(fields, name)
  {
    if fields != [] {
      var f, rest := fields[0], fields[1..];
      FieldMissedIff(rest, registered, name);
      NamedIsFirstName(f, name);
      assert MissingResolver(name) in FieldErrors(f, registered)
        <==> f.kind == FieldDefinition && Named(f, name) && name !in registered;
      assert forall g :: g in fields <==> g == f || g in rest;
    }
  }

  /** The definitions looked at are the document's, whether it is the root or the root's child. */
  lemma LoadedDefinitions(root: Node, ds: seq<Node>, text: Option<string>, registered: set<string>)
    requires || root == Node(Document, text, ds)
             || (root.kind != Document && root.children == [Node(Document, text, ds)])
    ensures DefinitionsErrors(Definitions(root), registered) == [] <==> Acceptable(ds, registered)
  {
    LoadAcceptsIff(ds, registered);
  }

  // -------------------------------------------------- Kinds, interfaces, objects

  /** The node type stands for this introspection kind. */
  ghost predicate Declares(k: Kind, t: TypeKind) {
    || (k == ScalarTypeDefinition && t == Scalar)
    || (k == InterfaceTypeDefinition && t == Interface)
    || (k == UnionTypeDefinition && t == Union)
    || (k == EnumTypeDefinition && t == Enum)
    || (k == InputObjectTypeDefinition && t == InputObject)
  }

  ghost predicate DeclaresNone(k: Kind) { forall t :: !Declares(k, t) }

  ghost predicate FirstDeclares(children: seq<Node>, i: nat, t: TypeKind) {
    i < |children| && Declares(children[i].kind, t) && forall j :: 0 <= j < i ==> DeclaresNone(children[j].kind)
  }

  lemma {:induction false} FirstSpecificDecides(children: seq<Node>, i: nat, t: TypeKind)
    requires i <= |children| && forall j :: 0 <= j < i ==> DeclaresNone(children[j].kind)
    requires if i < |children| then Declares(children[i].kind, t) else t == Object
    ensures FirstSpecific(children) == t
  {
    if i > 0 {
      var k := children[0].kind;
      assert DeclaresNone(k);
      assert !Declares(k, Scalar) && !Declares(k, Interface) && !Declares(k, Union) && !Declares(k, Enum)
          && !Declares(k, InputObject);
      assert forall j :: 0 <= j < |children| - 1 ==> children[1..][j] == children[j + 1];
      FirstSpecificDecides(children[1..], i - 1, t);
    }
  }

  /** A specific node is of its own kind; a plain type definition of the kind of its first specific child. */
  lemma KindOfNode(n: Node, i: nat, t: TypeKind)
    ensures Declares(n.kind, t) ==> KindOf(n) == t
    ensures n.kind != TypeDefinition && DeclaresNone(n.kind) ==> KindOf(n) == Object
    ensures n.kind == TypeDefinition && FirstDeclares(n.children, i, t) ==> KindOf(n) == t
    ensures n.kind == TypeDefinition && (forall c :: c in n.children ==> DeclaresNone(c.kind)) ==> KindOf(n) == Object
  {
    if n.kind != TypeDefinition && DeclaresNone(n.kind) {
      assert !Declares(n.kind, Scalar) && !Declares(n.kind, Interface) && !Declares(n.kind, Union)
          && !Declares(n.kind, Enum) && !Declares(n.kind, InputObject);
    }
    if n.kind == TypeDefinition {
      if FirstDeclares(n.children, i, t) { FirstSpecificDecides(n.children, i, t); }
      if forall c :: c in n.children ==> DeclaresNone(c.kind) {
        FirstSpecificDecides(n.children, |n.children|, Object);
      }
    }
  }

  lemma InterfacesCons(x: Node, rest: seq<Node>)
    ensures Interfaces([x] + rest) == Shown(x) + Interfaces(rest)
  {
    assert ([x] + rest)[1..] == rest;
  }

  lemma {:induction false} InterfacesConcat(a: seq<Node>, b: seq<Node>)
    ensures Interfaces(a + b) == Interfaces(a) + Interfaces(b)
  {
    if a == [] {
      assert a + b == b;
    } else {
      var x, rest := a[0], a[1..];
      assert a == [x] + rest && a + b == [x] + (rest + b);
      InterfacesCons(x, rest + b);
      InterfacesCons(x, rest);
      InterfacesConcat(rest, b);
      ConcatAssociates(Shown(x), Interfaces(rest), Interfaces(b));
    }
  }

  /** What one child adds: a NamedType its text or, without any, its first child's; anything else nothing. */
  lemma OneInterface(c: Node, name: string)
    requires name != ""
    ensures c.kind == NamedType && c.content == Some(name) ==> Interfaces([c]) == [name]
    ensures c.kind == NamedType && c.content == None && c.children != [] && c.children[0].content == Some(name) ==>
              Interfaces([c]) == [name]
    ensures c.kind == NamedType && c.content == None && c.children == [] ==> Interfaces([c]) == []
    ensures c.kind != NamedType || c.content == Some("") ==> Interfaces([c]) == []
  {
    assert [c][1..] == [];
    assert Interfaces([c]) == Shown(c) + [];
  }

  /** The possible types are the objects among the keys, in order, that name the interface in their own text. */
  lemma {:induction false} PossibleTypesSnoc(order: seq<string>, key: string, m: TypeMap, name: string)
    requires key in m && name != "" && forall k :: k in order ==> k in m
    ensures forall k :: k in order + [key] ==> k in m
    ensures PossibleTypes(order + [key], m, name) ==
            if KindOf(m[key]) == Object
               && exists c :: c in m[key].children && c.kind == NamedType && c.content == Some(name)
            then PossibleTypes(order, m, name) + [key] else PossibleTypes(order, m, name)
  {
    if order == [] {
      assert order + [key] == [key] && [key][1..] == [];
      forall c | c in m[key].children ensures Matches(c, name) <==> c.kind == NamedType && c.content == Some(name) {}
    } else {
      assert (order + [key])[0] == order[0] && (order + [key])[1..] == order[1..] + [key];
      PossibleTypesSnoc(order[1..], key, m, name);
    }
  }
}
