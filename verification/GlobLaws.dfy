/**
 * What a glob pattern means, law by law, in terms of its text: each law takes
 * one piece of text off the front of a pattern.  Together they determine the
 * language of every pattern without naming how the text is read.
 */
module GlobLaws {
  import opened GlobSegment
  import opened GlobWalk
  import opened Lexicographic

  // ------------------------------------------ A pattern behind some other text

  lemma {:induction false} ClassBehind(pre: string, p: string, i: nat)
    requires i <= |p|
    ensures ClassEnd(pre + p, |pre| + i) == |pre| + ClassEnd(p, i)
    ensures ClassItems(pre + p, |pre| + i) == ClassItems(p, i)
    decreases |p| - i
  {
    var q := pre + p;
    assert forall k :: i <= k < |p| ==> q[|pre| + k] == p[k];
    if i < |p| && p[i] != ']' {
      assert IsRangeAt(q, |pre| + i) <==> IsRangeAt(p, i);
      if IsRangeAt(p, i) {
        assert |pre| + i + 3 == |pre| + (i + 3);
        ClassBehind(pre, p, i + 3);
      } else {
        assert |pre| + i + 1 == |pre| + (i + 1);
        ClassBehind(pre, p, i + 1);
      }
    }
  }

  lemma TokenBehind(pre: string, p: string, i: nat)
    requires i < |p|
    ensures TokenAt(pre + p, |pre| + i).0 == TokenAt(p, i).0
    ensures TokenAt(pre + p, |pre| + i).1 == |pre| + TokenAt(p, i).1
  {
    var q := pre + p;
    assert forall k :: i <= k < |p| ==> q[|pre| + k] == p[k];
    if p[i] == '[' {
      assert IsNegatedAt(q, |pre| + i) <==> IsNegatedAt(p, i);
      assert ClassBody(q, |pre| + i) == |pre| + ClassBody(p, i);
      ClassBehind(pre, p, ClassBody(p, i));
    }
  }

  lemma {:induction false} MatchesBehind(pre: string, p: string, i: nat, s: string, j: nat)
    requires i <= |p|
    ensures Matches(pre + p, |pre| + i, s, j) <==> Matches(p, i, s, j)
    decreases |p| - i, |s| - j
  {
    if i < |p| {
      assert (pre + p)[|pre| + i] == p[i];
      if p[i] == '*' {
        assert |pre| + i + 1 == |pre| + (i + 1);
        MatchesBehind(pre, p, i + 1, s, j);
        if j < |s| { MatchesBehind(pre, p, i, s, j + 1); }
      } else if j < |s| {
        TokenBehind(pre, p, i);
        MatchesBehind(pre, p, TokenAt(p, i).1, s, j + 1);
      }
    }
  }

  lemma {:induction false} MatchesInRest(p: string, i: nat, s: string, j: nat, k: nat)
    requires j <= |s|
    ensures Matches(p, i, s, j + k) <==> Matches(p, i, s[j..], k)
    decreases |p| - i, |s| - j - k
  {
    if i < |p| {
      if p[i] == '*' {
        MatchesInRest(p, i + 1, s, j, k);
        if j + k < |s| { MatchesInRest(p, i, s, j, k + 1); }
      } else if j + k < |s| {
        assert s[j..][k] == s[j + k];
        MatchesInRest(p, TokenAt(p, i).1, s, j, k + 1);
      }
    }
  }

  /** The rest of the pattern against the rest of the name. */
  lemma RestDenotes(pre: string, p: string, s: string, j: nat)
    requires j <= |s|
    ensures Matches(pre + p, |pre|, s, j) <==> Denotes(p, s[j..])
  {
    MatchesBehind(pre, p, 0, s, j);
    MatchesInRest(p, 0, s, j, 0);
    MatchesIffDenotes(p, s[j..]);
  }

  lemma OneCharacter(t: Token, pre: string, p: string, s: string)
    requires pre != "" && pre[0] != '*' && TokenAt(pre + p, 0) == (t, |pre|)
    ensures Denotes(pre + p, s) <==> s != "" && Accepts(t, s[0]) && Denotes(p, s[1..])
  {
    MatchesIffDenotes(pre + p, s);
    if s != "" { RestDenotes(pre, p, s, 1); }
  }

  // ------------------------------------------------------------------ The laws

  lemma EmptyPattern(s: string)
    ensures Denotes("", s) <==> s == ""
  {
    MatchesIffDenotes("", s);
  }

  lemma QuestionMark(p: string, s: string)
    ensures Denotes("?" + p, s) <==> s != "" && Denotes(p, s[1..])
  {
    OneCharacter(AnyChar, "?", p, s);
  }

  lemma StarLaw(p: string, s: string)
    ensures Denotes("*" + p, s) <==> exists k :: 0 <= k <= |s| && Denotes(p, s[k..])
  {
    var q := "*" + p;
    MatchesIffDenotes(q, s);
    if Matches(q, 0, s, 0) {
      var k := StarWitness(q, 0, s, 0);
      RestDenotes("*", p, s, k);
    }
    if k :| 0 <= k <= |s| && Denotes(p, s[k..]) {
      RestDenotes("*", p, s, k);
      StarReaches(q, 0, s, 0, k);
    }
  }

  lemma PlainCharacter(c: char, p: string, s: string)
    requires c != '*' && c != '?' && c != '[' && c != '\\'
    ensures Denotes([c] + p, s) <==> s != "" && s[0] == c && Denotes(p, s[1..])
  {
    OneCharacter(Literal(c), [c], p, s);
  }

  lemma EscapedCharacter(c: char, p: string, s: string)
    ensures Denotes(['\\', c] + p, s) <==> s != "" && s[0] == c && Denotes(p, s[1..])
  {
    OneCharacter(Literal(c), ['\\', c], p, s);
  }

  lemma TrailingBackslash(s: string)
    ensures !Denotes("\\", s)
  {
    MatchesIffDenotes("\\", s);
  }

  lemma UnclosedBracket(rest: string, s: string)
    requires ']' !in rest
    ensures !Denotes("[" + rest, s)
  {
    var p := "[" + rest;
    assert forall k :: 1 <= k < |p| ==> p[k] == rest[k - 1];
    assert TokenAt(p, 0).0 == Malformed;
    MatchesIffDenotes(p, s);
  }

  // ------------------------------------------------------------ Closed brackets

  /** The text of a bracket expression's body. */
  function ItemsText(items: seq<Item>): string {
    if items == [] then "" else ItemText(items[0]) + ItemsText(items[1..])
  }

  function ItemText(item: Item): string {
    match item case Single(c) => [c] case Range(lo, hi) => [lo, '-', hi]
  }

  /** An item whose text cannot be taken for anything else. */
  predicate PlainItem(item: Item) {
    match item
    case Single(c) => c != ']' && c != '-'
    case Range(lo, hi) => lo != ']' && lo != '-' && hi != ']'
  }

  ghost predicate PlainItems(items: seq<Item>) { forall k :: 0 <= k < |items| ==> PlainItem(items[k]) }

  /** Bytes above 127 come before those below: they are negative as signed characters. */
  predicate UpTo(a: char, b: char) {
    if (a < 128 as char) == (b < 128 as char) then a <= b else 128 as char <= a
  }

  predicate Covers(item: Item, ch: char) {
    match item
    case Single(c) => ch == c
    case Range(lo, hi) => (UpTo(lo, ch) && UpTo(ch, hi)) || (UpTo(hi, ch) && UpTo(ch, lo))
  }

  predicate IsByte(c: char) { c as int < 256 }

  predicate OfBytes(item: Item) {
    match item case Single(c) => IsByte(c) case Range(lo, hi) => IsByte(lo) && IsByte(hi)
  }

  lemma CoversIsInItem(item: Item, ch: char)
    requires OfBytes(item) && IsByte(ch)
    ensures Covers(item, ch) <==> InItem(item, ch)
  {
  }

  /** The first character of plain items is none of those with a meaning of their own. */
  lemma PlainStart(items: seq<Item>, rest: string)
    requires items != [] && PlainItems(items)
    ensures ItemsText(items) != "" && ItemsText(items)[0] != ']' && ItemsText(items)[0] != '-'
  {
    assert PlainItem(items[0]);
  }

  /** One item's text is read as that item. */
  lemma ItemRead(q: string, i: nat, item: Item)
    requires PlainItem(item) && i + |ItemText(item)| < |q| && q[i..i + |ItemText(item)|] == ItemText(item)
    requires q[i + |ItemText(item)|] != '-'
    ensures
      var next := i + |ItemText(item)|;
      ClassEnd(q, i) == ClassEnd(q, next) && ClassItems(q, i) == [item] + ClassItems(q, next)
  {
    var text := q[i..i + |ItemText(item)|];
    assert text[0] == q[i];
    if item.Range? { assert text[1] == q[i + 1] && text[2] == q[i + 2]; }
  }

  /** The body is read as the items it was written from, up to its closing bracket. */
  lemma {:induction false} ItemsRead(pre: string, items: seq<Item>, p: string)
    requires PlainItems(items)
    ensures
      var q := pre + (ItemsText(items) + "]" + p);
      ClassEnd(q, |pre|) == |pre| + |ItemsText(items)| && ClassItems(q, |pre|) == items
    decreases |items|
  {
    var q := pre + (ItemsText(items) + "]" + p);
    if items == [] {
      assert q[|pre|] == ']';
    } else {
      var item, rest := items[0], items[1..];
      assert PlainItem(item) && forall k :: 0 <= k < |rest| ==> rest[k] == items[k + 1];
      var tail := ItemsText(rest) + "]" + p;
      var pre' := pre + ItemText(item);
      assert q == pre' + tail;
      if rest != [] { PlainStart(rest, p); }
      assert q[|pre'|] == tail[0] && tail[0] != '-';
      assert q[|pre|..|pre'|] == ItemText(item);
      ItemRead(q, |pre|, item);
      ItemsRead(pre', rest, p);
      assert items == [item] + rest;
    }
  }

  predicate IsMark(mark: string, items: seq<Item>) {
    || mark == "!" || mark == "^"
    || (mark == "" && (items == [] || (ItemsText(items) != "" && ItemsText(items)[0] !in "!^")))
  }

  lemma BracketToken(mark: string, items: seq<Item>, p: string)
    requires PlainItems(items) && IsMark(mark, items)
    ensures
      var pre := "[" + mark + ItemsText(items) + "]";
      TokenAt(pre + p, 0) == (Class(mark != "", items), |pre|)
  {
    var pre, tail := "[" + mark + ItemsText(items) + "]", ItemsText(items) + "]" + p;
    var q := pre + p;
    assert q == ("[" + mark) + tail;
    ItemsRead("[" + mark, items, p);
    assert q[0] == '[' && |tail| > 0 && q[1] == if mark == "" then tail[0] else mark[0];
    assert tail[0] == if items == [] then ']' else ItemsText(items)[0] by {
      if items != [] { PlainStart(items, p); }
    }
    assert IsNegatedAt(q, 0) <==> mark != "";
    assert ClassBody(q, 0) == |"[" + mark|;
  }

  ghost predicate CoveredBy(items: seq<Item>, ch: char) {
    exists k :: 0 <= k < |items| && Covers(items[k], ch)
  }

  lemma CoveredIsInClass(items: seq<Item>, ch: char)
    requires IsByte(ch) && forall k :: 0 <= k < |items| ==> OfBytes(items[k])
    ensures CoveredBy(items, ch) <==> InClass(items, ch)
  {
    forall k | 0 <= k < |items| ensures Covers(items[k], ch) <==> InItem(items[k], ch) {
      CoversIsInItem(items[k], ch);
    }
  }

  /**
   * A closed bracket stands for one character that one of its items covers, or
   * behind '!' or '^' one that none covers.
   */
  lemma Bracket(mark: string, items: seq<Item>, p: string, s: string)
    requires PlainItems(items) && IsMark(mark, items)
    requires (s != "" ==> IsByte(s[0])) && forall k :: 0 <= k < |items| ==> OfBytes(items[k])
    ensures Denotes("[" + mark + ItemsText(items) + "]" + p, s)
       <==> s != "" && (CoveredBy(items, s[0]) <==> mark == "") && Denotes(p, s[1..])
  {
    BracketToken(mark, items, p);
    OneCharacter(Class(mark != "", items), "[" + mark + ItemsText(items) + "]", p, s);
    if s != "" { CoveredIsInClass(items, s[0]); }
  }

  // --------------------------------------------------------- Patterns of paths

  /** A name that is a pattern for itself only. */
  predicate PlainName(n: string) {
    && n != "" && n != "." && n != ".."
    && forall c :: c in n ==> c != '*' && c != '?' && c != '[' && c != '\\'
  }

  lemma {:induction false} PlainNameDenotes(n: string, name: string)
    requires forall c :: c in n ==> c != '*' && c != '?' && c != '[' && c != '\\'
    ensures Denotes(n, name) <==> name == n
    decreases |n|
  {
    if n == "" {
      EmptyPattern(name);
    } else {
      assert n == [n[0]] + n[1..] && n[0] in n;
      PlainCharacter(n[0], n[1..], name);
      if name != "" {
        assert forall c :: c in n[1..] ==> c in n;
        PlainNameDenotes(n[1..], name[1..]);
        assert name == [name[0]] + name[1..];
      }
    }
  }

  /** A path of plain names selects itself, where it exists. */
  lemma {:induction false} PlainPath(t: FileTree, names: seq<string>, dir: Path, target: Path)
    requires t.WellFormed() && forall n :: n in names ==> PlainName(n)
    ensures Selects(t, names, dir, target) <==> target == dir + names && t.Exists(target)
    decreases |names|
  {
    if names == [] {
      assert dir + names == dir;
    } else {
      var n, rest := names[0], names[1..];
      assert PlainName(n) && n[0] in n && n != "**";
      PlainNameDenotes(n, n);
      assert (dir + [n]) + rest == dir + names;
      PlainPath(t, rest, dir + [n], target);
      if Selects(t, names, dir, target) {
        var m: string :| IsEntry(t, dir, m) && Denotes(n, m) && Selects(t, rest, dir + [m], target);
        PlainNameDenotes(n, m);
      }
      if target == dir + names && t.Exists(target) {
        PrefixOfDirIsDir(t, target, |dir|);
        assert target[..|dir|] == dir && target[..|dir| + 1] == dir + [n];
        if rest != [] { PrefixOfDirIsDir(t, target, |dir| + 1); } else { assert target == dir + [n]; }
        assert IsEntry(t, dir, n);
      }
    }
  }

  /** `.` stays and `..` goes to the parent. */
  lemma {:induction false} Dots(t: FileTree, names: seq<string>, dot: string, dir: Path, target: Path)
    requires t.WellFormed() && forall n :: n in names ==> PlainName(n)
    requires dot == "." || dot == ".."
    ensures Selects(t, names + [dot], dir, target) <==>
      if dot == "." then target == dir + names && t.Exists(target)
      else target == Parent(dir + names) && t.Exists(target) && (names == [] || t.Exists(dir + names))
    decreases |names|
  {
    if names == [] {
      assert names + [dot] == [dot] && [dot][1..] == [] && dir + names == dir;
    } else {
      var n, rest := names[0], names[1..];
      var segs := names + [dot];
      assert segs[0] == n && segs[1..] == rest + [dot] && PlainName(n) && n[0] in n && n != "**";
      assert (dir + [n]) + rest == dir + names;
      Dots(t, rest, dot, dir + [n], target);
      PlainNameDenotes(n, n);
      if Selects(t, segs, dir, target) {
        var m: string :| IsEntry(t, dir, m) && Denotes(n, m) && Selects(t, segs[1..], dir + [m], target);
        PlainNameDenotes(n, m);
        if rest == [] { assert dir + names == dir + [n]; }
      }
      if t.Exists(dir + names) {
        PrefixOfDirIsDir(t, dir + names, |dir|);
        assert (dir + names)[..|dir|] == dir && (dir + names)[..|dir| + 1] == dir + [n];
        if rest != [] { PrefixOfDirIsDir(t, dir + names, |dir| + 1); } else { assert dir + names == dir + [n]; }
        assert IsEntry(t, dir, n);
      }
    }
  }

  /** A double star and a plain name select every path of that name below, at any depth. */
  lemma AnyDepth(t: FileTree, n: string, dir: Path, target: Path)
    requires t.WellFormed() && PlainName(n)
    ensures Selects(t, ["**", n], dir, target) <==>
      && t.Exists(target) && dir < target && target[|target| - 1] == n
  {
    var segs := ["**", n];
    assert segs[1..] == [n];
    if Selects(t, segs, dir, target) {
      var d: Path :| Inside(t, dir, d) && Selects(t, [n], d, target);
      PlainPath(t, [n], d, target);
    }
    if t.Exists(target) && dir < target && target[|target| - 1] == n {
      var d := Parent(target);
      PrefixOfDirIsDir(t, target, |target| - 1);
      assert target == d + [n] && dir <= d;
      PlainPath(t, [n], d, target);
    }
  }

  // ------------------------------------------------------------ The order of paths

  /** Behind common directories and a common start of a name, the lower character comes first, as does what ends. */
  lemma PathsInOrder(dirs: Path, start: string, a: string, b: string, belowA: Path, belowB: Path)
    requires b != "" && (a != "" ==> a[0] < b[0])
    ensures PathLess()(dirs + ([start + a] + belowA), dirs + ([start + b] + belowB))
  {
    NamesInOrder(start, a, b);
    FirstDifference(Lex(CharLess()), dirs, [start + a] + belowA, [start + b] + belowB);
  }

  lemma NamesInOrder(start: string, a: string, b: string)
    requires b != "" && (a != "" ==> a[0] < b[0])
    ensures Lex(CharLess())(start + a, start + b) && start + a != start + b
  {
    FirstDifference(CharLess(), start, a, b);
  }

  lemma DirectoryFirst(dirs: Path, below: Path)
    requires below != []
    ensures PathLess()(dirs, dirs + below)
  {
    FirstDifference(Lex(CharLess()), dirs, [], below);
    assert dirs + [] == dirs;
  }
}
