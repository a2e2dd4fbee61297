/**
 * The complexity analyser: a walk over the parse tree that counts field nodes
 * and remembers the deepest nesting of selection sets, against the recursive
 * definitions of the two quantities.
 */
module QueryAnalysis {
  import opened Ast
  import opened Wrappers

  function Max(a: nat, b: nat): nat { if a >= b then a else b }

  function FieldCount(n: Node): nat {
    (if n.kind.Field? then 1 else 0) + FieldCounts(n.children)
  }

  function FieldCounts(ns: seq<Node>): nat {
    if ns == [] then 0 else FieldCount(ns[0]) + FieldCounts(ns[1..])
  }

  /** How deeply selection sets nest below and including n. */
  function Depth(n: Node): nat {
    (if n.kind.SelectionSet? then 1 else 0) + Depths(n.children)
  }

  function Depths(ns: seq<Node>): nat {
    if ns == [] then 0 else Max(Depth(ns[0]), Depths(ns[1..]))
  }

  /** Every node of a tree, parents first. */
  function Nodes(n: Node): seq<Node>
    decreases n, 0
  {
    [n] + NodesOf(n.children)
  }

  function NodesOf(ns: seq<Node>): seq<Node>
    decreases ns, 1
  {
    if ns == [] then [] else Nodes(ns[0]) + NodesOf(ns[1..])
  }

  function Fields(ns: seq<Node>): seq<Node> {
    if ns == [] then [] else (if ns[0].kind == Field then [ns[0]] else []) + Fields(ns[1..])
  }

  lemma {:induction false} FieldsConcat(a: seq<Node>, b: seq<Node>)
    ensures Fields(a + b) == Fields(a) + Fields(b)
  {
    if a == [] {
      assert a + b == b;
    } else {
      assert (a + b)[0] == a[0] && (a + b)[1..] == a[1..] + b;
      FieldsConcat(a[1..], b);
      ConcatAssociates(if a[0].kind == Field then [a[0]] else [], Fields(a[1..]), Fields(b));
    }
  }

  /** The complexity is the number of field nodes anywhere in the tree. */
  lemma {:induction false} CountIsAllFields(n: Node)
    ensures FieldCount(n) == |Fields(Nodes(n))|
    decreases n, 0
  {
    CountsAreAllFields(n.children);
    FieldsConcat([n], NodesOf(n.children));
    assert [n][1..] == [];
  }

  lemma {:induction false} CountsAreAllFields(ns: seq<Node>)
    ensures FieldCounts(ns) == |Fields(NodesOf(ns))|
    decreases ns, 1
  {
    if ns != [] {
      CountIsAllFields(ns[0]);
      CountsAreAllFields(ns[1..]);
      FieldsConcat(Nodes(ns[0]), NodesOf(ns[1..]));
    }
  }

  /** On some way down from the node there are k selection sets. */
  predicate Nests(n: Node, k: nat)
    decreases n, 0
  {
    || k == 0
    || (n.kind == SelectionSet && (k == 1 || NestsBelow(n.children, k - 1)))
    || NestsBelow(n.children, k)
  }

  predicate NestsBelow(ns: seq<Node>, k: nat)
    decreases ns, 1
  {
    ns != [] && (Nests(ns[0], k) || NestsBelow(ns[1..], k))
  }

  /** The depth is the largest number of selection sets on any way down. */
  lemma {:induction false} DepthIsLongestNesting(n: Node, k: nat)
    ensures Nests(n, k) <==> k <= Depth(n)
    decreases n, 0
  {
    DepthsAreLongestNesting(n.children, k);
    if k > 0 { DepthsAreLongestNesting(n.children, k - 1); }
  }

  lemma {:induction false} DepthsAreLongestNesting(ns: seq<Node>, k: nat)
    ensures k > 0 ==> (NestsBelow(ns, k) <==> k <= Depths(ns))
    decreases ns, 1
  {
    if ns != [] {
      DepthIsLongestNesting(ns[0], k);
      DepthsAreLongestNesting(ns[1..], k);
    }
  }

  class Walker {
    var depth: nat
    var complexity: nat

    constructor ()
      ensures depth == 0 && complexity == 0
    {
      depth, complexity := 0, 0;
    }

    method Walk(node: Node, curDepth: nat)
      requires curDepth <= depth
      modifies this
      ensures complexity == old(complexity) + FieldCount(node)
      ensures depth == Max(old(depth), curDepth + Depth(node))
      decreases node
    {
      if node.kind.Field? { complexity := complexity + 1; }
      var next := curDepth;
      if node.kind.SelectionSet? {
        next := curDepth + 1;
        if next > depth { depth := next; }
      }
      WalkAll(node.children, next);
    }

    method WalkAll(nodes: seq<Node>, curDepth: nat)
      requires curDepth <= depth
      modifies this
      ensures complexity == old(complexity) + FieldCounts(nodes)
      ensures depth == Max(old(depth), curDepth + Depths(nodes))
      decreases nodes
    {
      for i := 0 to |nodes|
        invariant curDepth <= depth
        invariant complexity + FieldCounts(nodes[i..]) == old(complexity) + FieldCounts(nodes)
        invariant Max(depth, curDepth + Depths(nodes[i..])) == Max(old(depth), curDepth + Depths(nodes))
      {
        assert nodes[i..][1..] == nodes[i + 1..];
        Walk(nodes[i], curDepth);
      }
    }
  }

  method AnalyseQueryComplexity(root: Node) returns (depth: nat, complexity: nat)
    ensures depth == Depth(root) && complexity == FieldCount(root)
  {
    var walker := new Walker();
    walker.Walk(root, 0);
    depth, complexity := walker.depth, walker.complexity;
  }

  // --------------------------------- Nodes picked out of a tree weigh less

  lemma {:induction false} CountMember(ns: seq<Node>, n: Node)
    requires n in ns
    ensures FieldCount(n) <= FieldCounts(ns) && Depth(n) <= Depths(ns)
  {
    if n != ns[0] { CountMember(ns[1..], n); }
  }

  lemma {:induction false} CountConcat(a: seq<Node>, b: seq<Node>)
    ensures FieldCounts(a + b) == FieldCounts(a) + FieldCounts(b)
    ensures Depths(a + b) == Max(Depths(a), Depths(b))
  {
    if a == [] {
      assert a + b == b;
    } else {
      assert (a + b)[0] == a[0] && (a + b)[1..] == a[1..] + b;
      CountConcat(a[1..], b);
    }
  }

  lemma CountSingle(n: Node)
    ensures FieldCounts([n]) == FieldCount(n) && Depths([n]) == Depth(n)
  {
    assert [n][1..] == [];
  }

  lemma {:induction false} CollectCounts(ns: seq<Node>)
    ensures FieldCounts(Collect(ns)) <= FieldCounts(ns) && Depths(Collect(ns)) <= Depths(ns)
  {
    if ns != [] {
      var c, rest := ns[0], ns[1..];
      assert ns == [c] + rest;
      CollectCounts(rest);
      InlineCons(c, rest);
      CountConcat(CollectOne(c), Collect(rest));
      CollectOneCounts(c);
    }
  }

  lemma CollectOneCounts(c: Node)
    ensures FieldCounts(CollectOne(c)) <= FieldCount(c) && Depths(CollectOne(c)) <= Depth(c)
  {
    CountSingle(c);
    if c.kind.SelectionWrapper? && c.children != [] {
      CountMember(c.children, c.children[0]);
      CountSingle(c.children[0]);
    }
  }

  lemma {:induction false} InlineCounts(ns: seq<Node>)
    ensures FieldCounts(Inline(ns)) <= FieldCounts(ns) && Depths(Inline(ns)) <= Depths(ns)
    decreases Sizes(ns), 1
  {
    if ns != [] {
      InlineOneCounts(ns[0]);
      InlineCounts(ns[1..]);
      CountConcat(InlineOne(ns[0]), Inline(ns[1..]));
    }
  }

  lemma {:induction false} InlineOneCounts(n: Node)
    ensures FieldCounts(InlineOne(n)) <= FieldCount(n) && Depths(InlineOne(n)) <= Depth(n)
    decreases Size(n), 0
  {
    match n.kind
    case Field => CountSingle(n);
    case SelectionSet => CollectCounts(n.children);
    case SelectionWrapper => InlineCounts(n.children);
    case _ =>
  }
}
