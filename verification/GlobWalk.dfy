/**
 * The directory walk behind glob: a pattern is cut into segments, the walk
 * follows them through a finite tree without symbolic links, and the paths
 * found are sorted and freed of duplicates.
 *
 * The reference meaning, Selects, says which paths a segment list picks; the
 * walk must find exactly those, whatever order directories are listed in.
 */
module GlobWalk {
  import opened GlobSegment
  import opened Lexicographic

  /** The components of an absolute path; the root is the empty sequence. */
  type Path = seq<string>

  function Parent(p: Path): Path { if p == [] then [] else p[..|p| - 1] }

  datatype FileTree = FileTree(dirs: set<Path>, files: set<Path>) {
    predicate Exists(p: Path) { p in dirs || p in files }

    ghost predicate WellFormed() {
      && [] in dirs && dirs !! files
      && forall p :: p != [] && Exists(p) ==> Parent(p) in dirs
    }

    function Entries(dir: Path): set<string> {
      set p | p in dirs + files && |p| == |dir| + 1 && p[..|dir|] == dir :: p[|dir|]
    }

    function DirsBelow(dir: Path): set<Path> { set d | d in dirs && dir <= d }
  }

  lemma EntriesAreChildren(t: FileTree, dir: Path, n: string)
    ensures n in t.Entries(dir) <==> t.Exists(dir + [n])
  {
    var p := dir + [n];
    assert |p| == |dir| + 1 && p[..|dir|] == dir && p[|dir|] == n;
    if n in t.Entries(dir) {
      var q :| q in t.dirs + t.files && |q| == |dir| + 1 && q[..|dir|] == dir && q[|dir|] == n;
      assert q == p;
    }
  }

  lemma {:induction false} PrefixOfDirIsDir(t: FileTree, d: Path, k: nat)
    requires t.WellFormed() && t.Exists(d) && k < |d|
    ensures d[..k] in t.dirs
    decreases |d|
  {
    assert Parent(d) in t.dirs;
    if k < |d| - 1 {
      PrefixOfDirIsDir(t, Parent(d), k);
      assert Parent(d)[..k] == d[..k];
    }
  }

  // --------------------------------------------------------------- Meaning

  /** d is dir itself or a directory somewhere inside it. */
  predicate Inside(t: FileTree, dir: Path, d: Path) { d == dir || (dir < d && d in t.dirs) }

  predicate IsEntry(t: FileTree, dir: Path, n: string) { dir in t.dirs && t.Exists(dir + [n]) }

  /** The segments, read from directory dir, pick the path target. */
  ghost predicate Selects(t: FileTree, segs: seq<string>, dir: Path, target: Path)
    decreases |segs|
  {
    if segs == [] then t.Exists(dir) && target == dir
    else if segs[0] == "." then Selects(t, segs[1..], dir, target)
    else if segs[0] == ".." then Selects(t, segs[1..], Parent(dir), target)
    else if segs[0] == "**" then
      exists d: Path :: Inside(t, dir, d) && Selects(t, segs[1..], d, target)
    else
      exists n: string :: IsEntry(t, dir, n) && Denotes(segs[0], n) && Selects(t, segs[1..], dir + [n], target)
  }

  lemma {:induction false} SelectedExist(t: FileTree, segs: seq<string>, dir: Path, target: Path)
    requires Selects(t, segs, dir, target)
    ensures t.Exists(target)
    decreases |segs|
  {
    if segs == [] {
    } else if segs[0] == "." {
      SelectedExist(t, segs[1..], dir, target);
    } else if segs[0] == ".." {
      SelectedExist(t, segs[1..], Parent(dir), target);
    } else if segs[0] == "**" {
      var d: Path :| Inside(t, dir, d) && Selects(t, segs[1..], d, target);
      SelectedExist(t, segs[1..], d, target);
    } else {
      var n: string :| IsEntry(t, dir, n) && Denotes(segs[0], n) && Selects(t, segs[1..], dir + [n], target);
      SelectedExist(t, segs[1..], dir + [n], target);
    }
  }

  /** "**" stands here or in one of the subdirectories: the recursion the walk uses. */
  lemma DoubleStarUnfolds(t: FileTree, segs: seq<string>, dir: Path, target: Path)
    requires t.WellFormed() && segs != [] && segs[0] == "**"
    ensures Selects(t, segs, dir, target) <==>
      || Selects(t, segs[1..], dir, target)
      || exists n :: IsEntry(t, dir, n) && dir + [n] in t.dirs && Selects(t, segs, dir + [n], target)
  {
    if Selects(t, segs, dir, target) {
      var d: Path :| Inside(t, dir, d) && Selects(t, segs[1..], d, target);
      if d != dir {
        var n := d[|dir|];
        assert dir + [n] == d[..|dir| + 1];
        if dir + [n] != d { PrefixOfDirIsDir(t, d, |dir| + 1); }
        PrefixOfDirIsDir(t, d, |dir|);
        assert d[..|dir|] == dir;
        assert IsEntry(t, dir, n) && Inside(t, dir + [n], d);
        assert Selects(t, segs, dir + [n], target);
      }
    }
    if Selects(t, segs[1..], dir, target) { assert Inside(t, dir, dir); }
    if n :| IsEntry(t, dir, n) && dir + [n] in t.dirs && Selects(t, segs, dir + [n], target) {
      var d: Path :| Inside(t, dir + [n], d) && Selects(t, segs[1..], d, target);
      assert dir < dir + [n] <= d;
      assert Inside(t, dir, d);
    }
  }

  // --------------------------------------------------- Collapsing of "**"

  ghost predicate SameSelection(t: FileTree, a: seq<string>, b: seq<string>) {
    forall dir: Path, target: Path :: Selects(t, a, dir, target) <==> Selects(t, b, dir, target)
  }

  lemma DoubleStarTwice(t: FileTree, rest: seq<string>)
    ensures SameSelection(t, ["**", "**"] + rest, ["**"] + rest)
  {
    var two, one := ["**", "**"] + rest, ["**"] + rest;
    assert two[1..] == one && one[1..] == rest;
    forall dir: Path, target: Path ensures Selects(t, two, dir, target) <==> Selects(t, one, dir, target) {
      if Selects(t, two, dir, target) {
        var d: Path :| Inside(t, dir, d) && Selects(t, one, d, target);
        var e: Path :| Inside(t, d, e) && Selects(t, rest, e, target);
        assert Inside(t, dir, e);
      }
      if Selects(t, one, dir, target) {
        assert Inside(t, dir, dir);
      }
    }
  }

  lemma {:induction false} SameSelectionAfter(t: FileTree, pre: seq<string>, a: seq<string>, b: seq<string>)
    requires SameSelection(t, a, b)
    ensures SameSelection(t, pre + a, pre + b)
    decreases |pre|
  {
    if pre == [] {
      assert pre + a == a && pre + b == b;
    } else {
      assert (pre + a)[1..] == pre[1..] + a && (pre + b)[1..] == pre[1..] + b;
      SameSelectionAfter(t, pre[1..], a, b);
      forall dir: Path, target: Path
        ensures Selects(t, pre + a, dir, target) <==> Selects(t, pre + b, dir, target)
      {
        if Selects(t, pre + a, dir, target) { SameHead(t, pre + a, pre + b, dir, target); }
        if Selects(t, pre + b, dir, target) { SameHead(t, pre + b, pre + a, dir, target); }
      }
    }
  }

  lemma SameHead(t: FileTree, a: seq<string>, b: seq<string>, dir: Path, target: Path)
    requires a != [] && b != [] && a[0] == b[0] && SameSelection(t, a[1..], b[1..])
    requires Selects(t, a, dir, target)
    ensures Selects(t, b, dir, target)
  {
    if a[0] != "." && a[0] != ".." {
      if a[0] == "**" {
        var d: Path :| Inside(t, dir, d) && Selects(t, a[1..], d, target);
        assert Selects(t, b[1..], d, target);
      } else {
        var n: string :| IsEntry(t, dir, n) && Denotes(a[0], n) && Selects(t, a[1..], dir + [n], target);
        assert Selects(t, b[1..], dir + [n], target);
      }
    }
  }

  ghost predicate NoAdjacentDoubleStars(segs: seq<string>) {
    forall i :: 0 < i < |segs| ==> !(segs[i - 1] == "**" && segs[i] == "**")
  }

  /** Runs of "**" become a single one without changing what is selected in any tree. */
  method CollapseDoubleStars(segs: seq<string>) returns (norm: seq<string>)
    ensures NoAdjacentDoubleStars(norm)
    ensures forall t: FileTree :: SameSelection(t, segs, norm)
  {
    norm := [];
    assert norm + segs[0..] == segs;
    for i := 0 to |segs|
      invariant NoAdjacentDoubleStars(norm)
      invariant forall t: FileTree :: SameSelection(t, segs, norm + segs[i..])
    {
      ghost var before := norm + segs[i..];
      if norm != [] && norm[|norm| - 1] == "**" && segs[i] == "**" {
        ghost var head, rest := norm[..|norm| - 1], segs[i + 1..];
        assert before == head + (["**", "**"] + rest);
        assert norm + rest == head + (["**"] + rest);
        assert norm + segs[i + 1..] == norm + rest;
        forall t: FileTree ensures SameSelection(t, segs, norm + rest) {
          assert SameSelection(t, segs, before);
          DoubleStarTwice(t, rest);
          SameSelectionAfter(t, head, ["**", "**"] + rest, ["**"] + rest);
          forall dir: Path, target: Path
            ensures Selects(t, segs, dir, target) <==> Selects(t, norm + rest, dir, target)
          {
            assert Selects(t, segs, dir, target) <==> Selects(t, before, dir, target);
          }
        }
        continue;
      }
      norm := norm + [segs[i]];
      assert norm + segs[i + 1..] == before;
    }
    assert norm + segs[|segs|..] == norm;
  }

  // --------------------------------------------------------------- The walk

  /** Selected through one of the entries already visited. */
  ghost predicate Through(t: FileTree, segs: seq<string>, dir: Path, names: set<string>, target: Path) {
    exists n :: n in names && Selects(t, segs, dir + [n], target)
  }

  class Collector {
    var out: seq<Path>

    constructor ()
      ensures out == []
    {
      out := [];
    }

    /** Appends exactly the paths the segments from idx on select below dir. */
    method Collect(t: FileTree, dir: Path, segs: seq<string>, idx: nat)
      requires t.WellFormed() && idx <= |segs|
      modifies this
      ensures forall p :: p in out <==> p in old(out) || Selects(t, segs[idx..], dir, p)
      decreases |segs| - idx, t.DirsBelow(dir)
    {
      ghost var here := segs[idx..];
      if idx == |segs| {
        if t.Exists(dir) { out := out + [dir]; }
        return;
      }
      var seg := segs[idx];
      assert here[0] == seg && here[1..] == segs[idx + 1..];
      if seg == "." {
        Collect(t, dir, segs, idx + 1);
        return;
      }
      if seg == ".." {
        Collect(t, Parent(dir), segs, idx + 1);
        return;
      }
      if seg == "**" {
        Collect(t, dir, segs, idx + 1);
        CollectSubdirectories(t, dir, segs, idx);
        forall p ensures p in out <==> p in old(out) || Selects(t, here, dir, p) {
          DoubleStarUnfolds(t, here, dir, p);
        }
        return;
      }
      if dir !in t.dirs { return; }
      CollectMatching(t, dir, segs, idx);
      forall p ensures p in out <==> p in old(out) || Selects(t, here, dir, p) {
        if Selects(t, here, dir, p) {
          var n: string :| IsEntry(t, dir, n) && Denotes(here[0], n) && Selects(t, here[1..], dir + [n], p);
        }
      }
    }

    /** Descends with the "**" kept, directory entries in no particular order. */
    method CollectSubdirectories(t: FileTree, dir: Path, segs: seq<string>, idx: nat)
      requires t.WellFormed() && idx < |segs| && segs[idx] == "**"
      modifies this
      ensures forall p :: p in out <==>
        || p in old(out)
        || exists n :: IsEntry(t, dir, n) && dir + [n] in t.dirs && Selects(t, segs[idx..], dir + [n], p)
      decreases |segs| - idx, t.DirsBelow(dir), 0
    {
      if dir !in t.dirs { return; }
      var todo := t.Entries(dir);
      ghost var done: set<string> := {};
      while todo != {}
        invariant forall n :: n in done ==> dir + [n] in t.dirs
        invariant forall n :: IsEntry(t, dir, n) && dir + [n] in t.dirs ==> n in todo || n in done
        invariant forall n :: n in todo ==> n in t.Entries(dir)
        invariant forall p :: p in out <==> p in old(out) || Through(t, segs[idx..], dir, done, p)
        decreases |todo|
      {
        var n :| n in todo;
        todo := todo - {n};
        if dir + [n] in t.dirs {
          assert dir in t.DirsBelow(dir) && dir !in t.DirsBelow(dir + [n]);
          ghost var before := out;
          Collect(t, dir + [n], segs, idx);
          forall p ensures p in out <==> p in old(out) || Through(t, segs[idx..], dir, done + {n}, p) {
            assert p in out <==> p in before || Selects(t, segs[idx..], dir + [n], p);
          }
          done := done + {n};
        }
      }
    }

    method CollectMatching(t: FileTree, dir: Path, segs: seq<string>, idx: nat)
      requires t.WellFormed() && idx < |segs| && dir in t.dirs
      modifies this
      ensures forall p :: p in out <==>
        || p in old(out)
        || exists n :: IsEntry(t, dir, n) && Denotes(segs[idx], n) && Selects(t, segs[idx + 1..], dir + [n], p)
      decreases |segs| - idx, t.DirsBelow(dir), 0
    {
      var todo := t.Entries(dir);
      ghost var done: set<string> := {};
      while todo != {}
        invariant forall n :: n in done ==> IsEntry(t, dir, n) && Denotes(segs[idx], n)
        invariant forall n :: IsEntry(t, dir, n) && Denotes(segs[idx], n) ==> n in todo || n in done
        invariant forall n :: n in todo ==> n in t.Entries(dir)
        invariant forall p :: p in out <==> p in old(out) || Through(t, segs[idx + 1..], dir, done, p)
        decreases |todo|
      {
        var n :| n in todo;
        todo := todo - {n};
        EntriesAreChildren(t, dir, n);
        var matches := WildcardMatchSegment(segs[idx], n);
        if matches {
          ghost var before := out;
          Collect(t, dir + [n], segs, idx + 1);
          forall p ensures p in out <==> p in old(out) || Through(t, segs[idx + 1..], dir, done + {n}, p) {
            assert p in out <==> p in before || Selects(t, segs[idx + 1..], dir + [n], p);
          }
          done := done + {n};
        }
      }
    }
  }

  // ------------------------------------------------------ Cutting a pattern

  predicate IsSegment(s: string) { s != "" && '/' !in s }

  /** The non-empty pieces between slashes of cur + s, where cur holds no slash. */
  function Segments(cur: string, s: string): seq<string>
    decreases |s|
  {
    var flushed := if cur == "" then [] else [cur];
    if s == "" then flushed
    else if s[0] == '/' then flushed + Segments("", s[1..])
    else Segments(cur + [s[0]], s[1..])
  }

  method SplitSegments(s: string) returns (segs: seq<string>)
    ensures segs == Segments("", s)
  {
    segs := [];
    var cur := "";
    for i := 0 to |s|
      invariant Segments("", s) == segs + Segments(cur, s[i..])
    {
      assert s[i..][1..] == s[i + 1..];
      if s[i] == '/' {
        if cur != "" { segs := segs + [cur]; }
        cur := "";
      } else {
        cur := cur + [s[i]];
      }
    }
    if cur != "" { segs := segs + [cur]; }
  }

  lemma {:induction false} SegmentsAreSegments(cur: string, s: string)
    requires '/' !in cur
    ensures forall g :: g in Segments(cur, s) ==> IsSegment(g)
    decreases |s|
  {
    if s != "" { SegmentsAreSegments(if s[0] == '/' then "" else cur + [s[0]], s[1..]); }
  }

  /** Each segment after at least one slash, slashes may repeat. */
  function JoinSlashes(segs: seq<string>, gaps: seq<nat>): string
    requires |gaps| == |segs|
  {
    if segs == [] then "" else Slashes(gaps[0] + 1) + segs[0] + JoinSlashes(segs[1..], gaps[1..])
  }

  function Slashes(n: nat): string { seq(n, _ => '/') }

  lemma {:induction false} SegmentsOfSlashes(n: nat, s: string)
    ensures Segments("", Slashes(n) + s) == Segments("", s)
    decreases n
  {
    if n == 0 {
      assert Slashes(0) + s == s;
    } else {
      assert (Slashes(n) + s)[1..] == Slashes(n - 1) + s;
      SegmentsOfSlashes(n - 1, s);
    }
  }

  lemma {:induction false} SegmentsOfWord(cur: string, word: string, rest: string)
    requires '/' !in word && cur + word != "" && (rest == "" || rest[0] == '/')
    ensures Segments(cur, word + rest) == [cur + word] + Segments("", rest)
    decreases |word|
  {
    if word == "" {
      assert word + rest == rest && cur + word == cur;
    } else {
      assert (word + rest)[1..] == word[1..] + rest;
      assert cur + [word[0]] + word[1..] == cur + word;
      SegmentsOfWord(cur + [word[0]], word[1..], rest);
    }
  }

  /** Splitting undoes joining, however many slashes separate the segments. */
  lemma {:induction false} SplitUndoesJoin(segs: seq<string>, gaps: seq<nat>)
    requires |gaps| == |segs| && forall g :: g in segs ==> IsSegment(g)
    ensures Segments("", JoinSlashes(segs, gaps)) == segs
    decreases |segs|
  {
    if segs != [] {
      var rest := JoinSlashes(segs[1..], gaps[1..]);
      assert segs[0] in segs;
      assert rest != "" ==> rest[0] == Slashes(gaps[1] + 1)[0];
      SplitUndoesJoin(segs[1..], gaps[1..]);
      SegmentsOfWord("", segs[0], rest);
      SegmentsOfSlashes(gaps[0] + 1, segs[0] + rest);
      assert JoinSlashes(segs, gaps) == Slashes(gaps[0] + 1) + (segs[0] + rest);
      assert "" + segs[0] == segs[0];
    }
  }

  // ------------------------------------------------------------------- Glob

  /** Bytewise comparison of names, then of paths component by component. */
  function CharLess(): (char, char) -> bool { (a, b) => a < b }

  function PathLess(): (Path, Path) -> bool { Lex(Lex(CharLess())) }

  lemma PathOrder()
    ensures StrictTotal(PathLess())
  {
    var byChar := (a: char, b: char) => a < b;
    LexStrictTotal(byChar);
    LexStrictTotal(Lex(byChar));
  }

  predicate IsAbsolute(pattern: string) { pattern != "" && pattern[0] == '/' }

  ghost predicate Globbed(t: FileTree, cwd: Path, pattern: string, target: Path) {
    && pattern != ""
    && Selects(t, Segments("", pattern), if IsAbsolute(pattern) then [] else cwd, target)
  }

  /**
   * All selected paths, each once, in path order.  By StrictlySortedUnique this
   * fixes the result, so it cannot depend on the order directories are listed in.
   */
  method Glob(t: FileTree, cwd: Path, pattern: string) returns (r: seq<Path>)
    requires t.WellFormed()
    ensures StrictlySorted(PathLess(), r)
    ensures forall p :: p in r <==> Globbed(t, cwd, pattern, p)
    ensures forall p :: p in r ==> t.Exists(p)
  {
    PathOrder();
    var segs := SplitSegments(pattern);
    var start := if IsAbsolute(pattern) then [] else cwd;
    if segs == [] {
      NoSegments("", pattern);
      assert pattern != "" ==> pattern[0] in pattern;
      return if pattern != "" && t.Exists([]) then [[]] else [];
    }
    var norm := CollapseDoubleStars(segs);
    assert SameSelection(t, segs, norm);
    var collector := new Collector();
    collector.Collect(t, start, norm, 0);
    assert norm[0..] == norm;
    r := SortUnique(PathLess(), collector.out);
    forall p | p in r ensures t.Exists(p) { SelectedExist(t, segs, start, p); }
  }

  lemma {:induction false} NoSegments(cur: string, s: string)
    requires Segments(cur, s) == []
    ensures cur == "" && forall c :: c in s ==> c == '/'
    decreases |s|
  {
    if s != "" {
      NoSegments(if s[0] == '/' then "" else cur + [s[0]], s[1..]);
      assert s == [s[0]] + s[1..];
    }
  }

  /** Two runs over the same tree agree, whatever order they listed directories in. */
  lemma GlobIsDeterministic(t: FileTree, cwd: Path, pattern: string, a: seq<Path>, b: seq<Path>)
    requires StrictlySorted(PathLess(), a) && forall p :: p in a <==> Globbed(t, cwd, pattern, p)
    requires StrictlySorted(PathLess(), b) && forall p :: p in b <==> Globbed(t, cwd, pattern, p)
    ensures a == b
  {
    PathOrder();
    StrictlySortedUnique(PathLess(), a, b);
  }
}
