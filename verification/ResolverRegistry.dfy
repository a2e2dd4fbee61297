/**
 * The resolver registry: a nested map with an optional value at every node,
 * reached by a path of keys.  It behaves like one flat map from full paths to
 * resolvers, and its nodes are exactly the prefixes of registered paths.
 */
module ResolverRegistry {
  import opened Wrappers

  type Path = seq<string>

  /** A node of the nested map; None where has_value() is false. */
  datatype Trie<+V> = Trie(value: Option<V>, children: map<string, Trie<V>>)

  function EmptyTrie<V>(): Trie<V> { Trie(None, map[]) }

  /** The node at the end of a path, if all its keys are present. */
  function At<V>(t: Trie<V>, path: Path): Option<Trie<V>>
    decreases |path|
  {
    if path == [] then Some(t)
    else if path[0] in t.children then At(t.children[path[0]], path[1..])
    else None
  }

  function Lookup<V>(t: Trie<V>, path: Path): Option<V> {
    match At(t, path) case None => None case Some(node) => node.value
  }

  /** Index access along the path, creating nodes on the way, then assignment of the value. */
  function Assign<V>(t: Trie<V>, path: Path, v: V): Trie<V>
    decreases |path|
  {
    if path == [] then t.(value := Some(v))
    else
      var child := if path[0] in t.children then t.children[path[0]] else EmptyTrie();
      t.(children := t.children[path[0] := Assign(child, path[1..], v)])
  }

  /** Assignment changes the one path, creates its prefixes and keeps every other node. */
  lemma {:induction false} AfterAssign<V>(t: Trie<V>, path: Path, v: V, p: Path)
    ensures At(Assign(t, path, v), p).Some? <==> At(t, p).Some? || p <= path
    ensures Lookup(Assign(t, path, v), p) == if p == path then Some(v) else Lookup(t, p)
    decreases |path|
  {
    if path != [] && p != [] {
      assert path == [path[0]] + path[1..] && p == [p[0]] + p[1..];
      if p[0] == path[0] {
        var child := if path[0] in t.children then t.children[path[0]] else EmptyTrie();
        AfterAssign(child, path[1..], v, p[1..]);
        assert p <= path <==> p[1..] <= path[1..];
      }
    }
  }

  /** What get_resolver does: throw, or return the node's function, which is empty where none was set. */
  datatype Found<+V> = NotFound | EmptyFunction | Function(f: V)

  class Registry<V> {
    var resolvers: Trie<V>
    ghost var registered: map<Path, V>  // the flat map the nested one stands for

    ghost predicate Valid()
      reads this
    {
      && (forall p: Path :: Lookup(resolvers, p) == if p in registered then Some(registered[p]) else None)
      && (forall p: Path :: At(resolvers, p).Some? <==> IsPrefix(p))
    }

    /** Some registered path starts with p; the root always exists. */
    ghost predicate IsPrefix(p: Path)
      reads this
    {
      p == [] || exists q :: q in registered && p <= q
    }

    constructor ()
      ensures Valid() && registered == map[]
    {
      resolvers := EmptyTrie();
      registered := map[];
    }

    method RegisterResolver(scope: Path, name: string, resolver: V)
      requires Valid()
      modifies this
      ensures Valid() && registered == old(registered)[scope + [name] := resolver]
    {
      var path := scope + [name];
      forall p: Path
        ensures At(Assign(resolvers, path, resolver), p).Some? <==> At(resolvers, p).Some? || p <= path
        ensures Lookup(Assign(resolvers, path, resolver), p)
             == if p == path then Some(resolver) else Lookup(resolvers, p)
      {
        AfterAssign(resolvers, path, resolver, p);
      }
      resolvers := Assign(resolvers, path, resolver);
      registered := registered[path := resolver];
      forall p: Path ensures IsPrefix(p) <==> old(IsPrefix(p)) || p <= path {
        if old(IsPrefix(p)) && p != [] {
          var q :| q in old(registered) && p <= q;
          assert q in registered;
        }
        assert path in registered;
      }
    }

    /** The executor refuses to register the same path twice. */
    method RegisterNewResolver(path: Path, name: string, resolver: V) returns (ok: bool)
      requires Valid()
      modifies this
      ensures Valid() && ok == (path + [name] !in old(registered))
      ensures registered == if ok then old(registered)[path + [name] := resolver] else old(registered)
    {
      var exists' := HasResolver(path, name);
      if exists' { return false; }
      RegisterResolver(path, name, resolver);
      ok := true;
    }

    /** Moves a cursor down the nested map, one key at a time. */
    method Descend(path: Path) returns (node: Option<Trie<V>>)
      ensures node == At(resolvers, path)
    {
      var current := resolvers;
      for i := 0 to |path|
        invariant At(resolvers, path) == At(current, path[i..])
      {
        assert path[i..][1..] == path[i + 1..];
        if path[i] !in current.children { return None; }
        current := current.children[path[i]];
      }
      node := Some(current);
    }

    method HasResolver(path: Path, name: string) returns (r: bool)
      requires Valid()
      ensures r <==> path + [name] in registered
    {
      AtThen(resolvers, path, name);
      var current := Descend(path);
      r := current.Some? && name in current.value.children && current.value.children[name].value.Some?;
    }

    method GetResolver(path: Path, name: string) returns (r: Found<V>)
      requires Valid()
      ensures path + [name] in registered ==> r == Function(registered[path + [name]])
      ensures path + [name] !in registered ==> r == if IsPrefix(path + [name]) then EmptyFunction else NotFound
    {
      AtThen(resolvers, path, name);
      assert At(resolvers, path + [name]).Some? <==> IsPrefix(path + [name]);
      var current := Descend(path);
      if current.None? || name !in current.value.children { return NotFound; }
      var node := current.value.children[name];
      r := if node.value.Some? then Function(node.value.value) else EmptyFunction;
    }
  }

  lemma {:induction false} AtThen<V>(t: Trie<V>, path: Path, name: string)
    ensures At(t, path + [name]) ==
      match At(t, path)
      case None => None
      case Some(node) => if name in node.children then Some(node.children[name]) else None
    decreases |path|
  {
    if path == [] {
      assert (path + [name])[0] == name && (path + [name])[1..] == [];
    } else {
      assert (path + [name])[0] == path[0] && (path + [name])[1..] == path[1..] + [name];
      if path[0] in t.children { AtThen(t.children[path[0]], path[1..], name); }
    }
  }
}
