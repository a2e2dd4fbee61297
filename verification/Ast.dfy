/**
 * Parse trees of executable documents and the JSON values that resolvers
 * return and selection sets produce.
 */
module Ast {
  import opened Wrappers

  /** The node types execution distinguishes. */
  datatype NodeType =
    | Document
    | ExecutableDefinition
    | OperationDefinition
    | SelectionSet
    | Field
    | Arguments
    | VariableMetadata    // variable definitions of an operation, in any of their forms
    | Name
    | SelectionWrapper    // type Unknown, kept under the Selection rule
    | OtherType           // fragments, directives, ... and every other node

  datatype Node = Node(kind: NodeType, text: string, children: seq<Node>)

  function Size(n: Node): nat { 1 + Sizes(n.children) }

  function Sizes(ns: seq<Node>): nat {
    if ns == [] then 0 else Size(ns[0]) + Sizes(ns[1..])
  }

  lemma {:induction false} SizesMember(ns: seq<Node>, n: Node)
    requires n in ns
    ensures Size(n) <= Sizes(ns)
  {
    if n != ns[0] { SizesMember(ns[1..], n); }
  }

  // ----------------------------------------------------------------- JSON

  datatype Json =
    | Null
    | Bool(b: bool)
    | Number(n: real)
    | Str(s: string)
    | Arr(items: seq<Json>)
    | Obj(fields: map<string, Json>)

  // ------------------------------------------- Which fields get processed

  /** The field nodes directly in a selection set, fragments and malformed nodes skipped. */
  function Collect(children: seq<Node>): (fields: seq<Node>)
    ensures forall f :: f in fields ==> f.kind.Field?
    ensures Sizes(fields) <= Sizes(children)
  {
    if children == [] then [] else
      var c, rest := children[0], Collect(children[1..]);
      if c.kind.Field? then SizesCons(c, rest); [c] + rest
      else if c.kind.SelectionWrapper? && c.children != [] && c.children[0].kind.Field? then
        SizesMember(c.children, c.children[0]); SizesCons(c.children[0], rest); [c.children[0]] + rest
      else rest
  }

  lemma SizesCons(n: Node, ns: seq<Node>)
    ensures Sizes([n] + ns) == Size(n) + Sizes(ns)
  {
    assert ([n] + ns)[1..] == ns;
  }

  lemma {:induction false} SizesConcat(a: seq<Node>, b: seq<Node>)
    ensures Sizes(a + b) == Sizes(a) + Sizes(b)
  {
    if a == [] {
      assert a + b == b;
    } else {
      assert a + b == [a[0]] + (a[1..] + b);
      SizesCons(a[0], a[1..] + b);
      SizesConcat(a[1..], b);
    }
  }

  /** The field nodes met when the nodes are visited one by one, wrappers and nested sets entered. */
  function Inline(nodes: seq<Node>): (fields: seq<Node>)
    ensures forall f :: f in fields ==> f.kind.Field?
    ensures Sizes(fields) <= Sizes(nodes)
    decreases Sizes(nodes), 1
  {
    if nodes == [] then [] else
      SizesConcat(InlineOne(nodes[0]), Inline(nodes[1..]));
      InlineOne(nodes[0]) + Inline(nodes[1..])
  }

  function InlineOne(n: Node): (fields: seq<Node>)
    ensures forall f :: f in fields ==> f.kind.Field?
    ensures Sizes(fields) <= Size(n)
    decreases Size(n), 0
  {
    match n.kind
    case Field => SizesCons(n, []); [n]
    case SelectionSet => Collect(n.children)
    case SelectionWrapper => Inline(n.children)
    case _ => []
  }

  /** Nothing but fields, wrappers around one leading field, and nodes both traversals skip. */
  predicate WellShaped(children: seq<Node>) {
    forall i :: 0 <= i < |children| ==> WellShapedOne(children[i])
  }

  predicate WellShapedOne(c: Node) {
    match c.kind
    case SelectionSet => Collect(c.children) == []
    case SelectionWrapper =>
      if c.children != [] && c.children[0].kind.Field? then Inline(c.children[1..]) == []
      else Inline(c.children) == []
    case _ => true
  }

  lemma InlineWrapper(c: Node)
    requires c.kind.SelectionWrapper? && c.children != []
    ensures InlineOne(c) == InlineOne(c.children[0]) + Inline(c.children[1..])
  {
  }

  lemma InlineCons(c: Node, rest: seq<Node>)
    ensures Inline([c] + rest) == InlineOne(c) + Inline(rest)
    ensures Collect([c] + rest) == CollectOne(c) + Collect(rest)
  {
    assert ([c] + rest)[1..] == rest;
  }

  /** What one child contributes to the collected fields. */
  function CollectOne(c: Node): seq<Node> {
    if c.kind.Field? then [c]
    else if c.kind.SelectionWrapper? && c.children != [] && c.children[0].kind.Field? then [c.children[0]]
    else []
  }

  /** A child never contributes less in line, and the same only when it is well shaped. */
  lemma OneChild(c: Node)
    ensures WellShapedOne(c) ==> InlineOne(c) == CollectOne(c)
    ensures !WellShapedOne(c) ==> |InlineOne(c)| > |CollectOne(c)|
  {
    if c.kind.SelectionWrapper? && c.children != [] {
      InlineWrapper(c);
    }
  }

  lemma {:induction false} CollectAgainstInline(children: seq<Node>)
    ensures |Collect(children)| <= |Inline(children)|
    ensures WellShaped(children) ==> Collect(children) == Inline(children)
    ensures !WellShaped(children) ==> |Collect(children)| < |Inline(children)|
  {
    if children != [] {
      var c, rest := children[0], children[1..];
      assert children == [c] + rest;
      OneChild(c);
      InlineCons(c, rest);
      CollectAgainstInline(rest);
      if WellShapedOne(c) && WellShaped(rest) {
        forall i | 0 <= i < |children| ensures WellShapedOne(children[i]) {
          if i > 0 { assert children[i] == rest[i - 1]; }
        }
      }
    }
  }

  /** Collecting a selection set's fields first finds what an in-line traversal meets iff it is well shaped. */
  lemma CollectIsInlineIff(children: seq<Node>)
    ensures Collect(children) == Inline(children) <==> WellShaped(children)
  {
    CollectAgainstInline(children);
  }

  // ------------------------------------ What is collected, child by child

  lemma {:induction false} CollectConcat(a: seq<Node>, b: seq<Node>)
    ensures Collect(a + b) == Collect(a) + Collect(b)
  {
    if a == [] {
      assert a + b == b;
    } else {
      assert a + b == [a[0]] + (a[1..] + b) && a == [a[0]] + a[1..];
      InlineCons(a[0], a[1..] + b);
      InlineCons(a[0], a[1..]);
      CollectConcat(a[1..], b);
      ConcatAssociates(CollectOne(a[0]), Collect(a[1..]), Collect(b));
    }
  }

  lemma {:induction false} InlineConcat(a: seq<Node>, b: seq<Node>)
    ensures Inline(a + b) == Inline(a) + Inline(b)
  {
    if a == [] {
      assert a + b == b;
    } else {
      assert a + b == [a[0]] + (a[1..] + b) && a == [a[0]] + a[1..];
      InlineCons(a[0], a[1..] + b);
      InlineCons(a[0], a[1..]);
      InlineConcat(a[1..], b);
      ConcatAssociates(InlineOne(a[0]), Inline(a[1..]), Inline(b));
    }
  }

  /** A field is taken, a wrapper gives its leading field, and anything else, fragments included, gives nothing. */
  lemma CollectedFromOne(c: Node)
    ensures c.kind == Field ==> Collect([c]) == [c]
    ensures c.kind == SelectionWrapper && c.children != [] && c.children[0].kind == Field ==>
              Collect([c]) == [c.children[0]]
    ensures c.kind != Field && !(c.kind == SelectionWrapper && c.children != [] && c.children[0].kind == Field) ==>
              Collect([c]) == []
  {
    assert [c] == [c] + [];
    InlineCons(c, []);
  }

  /** In line, a field is taken, a set is collected, a wrapper is entered, and anything else gives nothing. */
  lemma InlinedFromOne(c: Node)
    ensures c.kind == Field ==> Inline([c]) == [c]
    ensures c.kind == SelectionSet ==> Inline([c]) == Collect(c.children)
    ensures c.kind == SelectionWrapper ==> Inline([c]) == Inline(c.children)
    ensures c.kind != Field && c.kind != SelectionSet && c.kind != SelectionWrapper ==> Inline([c]) == []
  {
    assert [c] == [c] + [];
    InlineCons(c, []);
  }

  /** From nothing but fields, all are taken in order. */
  lemma {:induction false} EveryFieldIsTaken(children: seq<Node>)
    requires forall c :: c in children ==> c.kind == Field
    ensures Collect(children) == children && Inline(children) == children
  {
    if children != [] {
      var c, rest := children[0], children[1..];
      assert children == [c] + rest && c in children && forall d :: d in rest ==> d in children;
      InlineCons(c, rest);
      EveryFieldIsTaken(rest);
    }
  }
}
