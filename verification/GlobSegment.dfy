/**
 * Matching of one glob pattern segment against one file name.
 *
 * A pattern is first read as a sequence of tokens; the meaning of a token
 * sequence is a language: a name belongs to it when it can be cut into one
 * piece per token, each piece fitting its token.  The matcher never backtracks
 * further than the most recent '*'; WildcardMatchSegment proves that this is
 * complete.
 *
 * Characters stand for bytes.
 */
module GlobSegment {

  // ---------------------------------------------------------------- Tokens

  datatype Item = Single(c: char) | Range(lo: char, hi: char)

  datatype Token =
    | Star
    | AnyChar
    | Literal(c: char)
    | Class(negated: bool, items: seq<Item>)
    | Malformed  // an unclosed '[' or a trailing backslash

  /** A byte read as a signed char, the order in which class ranges are compared. */
  function SignedByte(c: char): int {
    if c as int < 128 then c as int else c as int - 256
  }

  predicate InItem(item: Item, ch: char) {
    match item
    case Single(c) => c == ch
    case Range(lo, hi) =>
      || SignedByte(lo) <= SignedByte(ch) <= SignedByte(hi)
      || SignedByte(hi) <= SignedByte(ch) <= SignedByte(lo)
  }

  predicate InClass(items: seq<Item>, ch: char) {
    exists k :: 0 <= k < |items| && InItem(items[k], ch)
  }

  predicate IsRangeAt(p: string, i: nat) {
    i + 2 < |p| && p[i + 1] == '-' && p[i + 2] != ']'
  }

  /** The items of a bracket expression whose body starts at i. */
  function ClassItems(p: string, i: nat): seq<Item>
    decreases |p| - i
  {
    if i >= |p| || p[i] == ']' then []
    else if IsRangeAt(p, i) then [Range(p[i], p[i + 2])] + ClassItems(p, i + 3)
    else [Single(p[i])] + ClassItems(p, i + 1)
  }

  /** Where the bracket expression whose body starts at i is closed, or |p|. */
  function ClassEnd(p: string, i: nat): (end: nat)
    requires i <= |p|
    ensures i <= end <= |p|
    ensures end < |p| ==> p[end] == ']'
    decreases |p| - i
  {
    if i >= |p| || p[i] == ']' then i
    else if IsRangeAt(p, i) then ClassEnd(p, i + 3)
    else ClassEnd(p, i + 1)
  }

  predicate IsNegatedAt(p: string, i: nat) {
    i + 1 < |p| && (p[i + 1] == '!' || p[i + 1] == '^')
  }

  function ClassBody(p: string, i: nat): nat {
    if IsNegatedAt(p, i) then i + 2 else i + 1
  }

  /** The token starting at i and the position after it. */
  function TokenAt(p: string, i: nat): (r: (Token, nat))
    requires i < |p|
    ensures i < r.1 <= |p|
  {
    if p[i] == '*' then (Star, i + 1)
    else if p[i] == '?' then (AnyChar, i + 1)
    else if p[i] == '[' then
      var end := ClassEnd(p, ClassBody(p, i));
      if end == |p| then (Malformed, |p|)
      else (Class(IsNegatedAt(p, i), ClassItems(p, ClassBody(p, i))), end + 1)
    else if p[i] == '\\' then
      if i + 1 == |p| then (Malformed, |p|) else (Literal(p[i + 1]), i + 2)
    else (Literal(p[i]), i + 1)
  }

  function Tokens(p: string, i: nat): seq<Token>
    requires i <= |p|
    decreases |p| - i
  {
    if i == |p| then [] else
      var (t, next) := TokenAt(p, i);
      [t] + Tokens(p, next)
  }

  // --------------------------------------------------------------- Meaning

  predicate Accepts(t: Token, c: char) {
    match t
    case AnyChar => true
    case Literal(d) => c == d
    case Class(negated, items) => if negated then !InClass(items, c) else InClass(items, c)
    case _ => false
  }

  predicate Fits(t: Token, piece: string) {
    t.Star? || (|piece| == 1 && Accepts(t, piece[0]))
  }

  ghost predicate FitsAll(ts: seq<Token>, pieces: seq<string>) {
    |pieces| == |ts| && forall k :: 0 <= k < |ts| ==> Fits(ts[k], pieces[k])
  }

  function Concat(pieces: seq<string>): string {
    if pieces == [] then "" else pieces[0] + Concat(pieces[1..])
  }

  /** The language of a token sequence. */
  ghost predicate InLanguage(ts: seq<Token>, name: string) {
    exists pieces: seq<string> :: FitsAll(ts, pieces) && Concat(pieces) == name
  }

  ghost predicate Denotes(pattern: string, name: string) {
    InLanguage(Tokens(pattern, 0), name)
  }

  // ------------------------- Matching by positions in pattern and name

  /** The pattern from i matches the name from j; beyond its end a pattern matches nothing. */
  predicate Matches(p: string, i: nat, s: string, j: nat): (r: bool)
    ensures r ==> j <= |s|
    decreases |p| - i, |s| - j
  {
    if i >= |p| then i == |p| && j == |s|
    else if p[i] == '*' then Matches(p, i + 1, s, j) || (j < |s| && Matches(p, i, s, j + 1))
    else j < |s| && Accepts(TokenAt(p, i).0, s[j]) && Matches(p, TokenAt(p, i).1, s, j + 1)
  }

  /** A star that matches from j leaves the rest to match somewhere further on. */
  lemma {:induction false} StarWitness(p: string, i: nat, s: string, j: nat) returns (k: nat)
    requires i < |p| && p[i] == '*' && Matches(p, i, s, j)
    ensures j <= k <= |s| && Matches(p, i + 1, s, k)
    decreases |s| - j
  {
    if Matches(p, i + 1, s, j) { k := j; } else { k := StarWitness(p, i, s, j + 1); }
  }

  lemma {:induction false} StarReaches(p: string, i: nat, s: string, j: nat, k: nat)
    requires i < |p| && p[i] == '*' && j <= k <= |s|
    requires Matches(p, i + 1, s, k) || Matches(p, i, s, k)
    ensures Matches(p, i, s, j)
    decreases k - j
  {
    if j < k { StarReaches(p, i, s, j + 1, k); }
  }

  lemma {:induction false} InLanguageMatches(p: string, i: nat, pieces: seq<string>, s: string, j: nat)
    requires i <= |p| && j <= |s|
    requires FitsAll(Tokens(p, i), pieces) && Concat(pieces) == s[j..]
    ensures Matches(p, i, s, j)
    decreases |p| - i
  {
    if i < |p| {
      var k := j + |pieces[0]|;
      assert s[k..] == s[j..][|pieces[0]|..] == Concat(pieces[1..]);
      assert pieces[0] == s[j..][..|pieces[0]|];
      assert Tokens(p, i)[1..] == Tokens(p, TokenAt(p, i).1);
      InLanguageMatches(p, TokenAt(p, i).1, pieces[1..], s, k);
      if p[i] == '*' { StarReaches(p, i, s, j, k); }
    }
  }

  lemma {:induction false} MatchesInLanguage(p: string, i: nat, s: string, j: nat) returns (pieces: seq<string>)
    requires i <= |p| && Matches(p, i, s, j)
    ensures FitsAll(Tokens(p, i), pieces) && Concat(pieces) == s[j..]
    decreases |p| - i
  {
    if i == |p| {
      pieces := [];
    } else {
      var k := j + 1;
      if p[i] == '*' { k := StarWitness(p, i, s, j); }
      var rest := MatchesInLanguage(p, TokenAt(p, i).1, s, k);
      pieces := [s[j..k]] + rest;
      assert pieces[1..] == rest;
      assert s[j..k] + s[k..] == s[j..];
    }
  }

  /** Matching by positions decides the language. */
  lemma MatchesIffDenotes(p: string, name: string)
    ensures Matches(p, 0, name, 0) <==> Denotes(p, name)
  {
    assert name[0..] == name;
    if Matches(p, 0, name, 0) { var pieces := MatchesInLanguage(p, 0, name, 0); }
    if Denotes(p, name) {
      var pieces :| FitsAll(Tokens(p, 0), pieces) && Concat(pieces) == name;
      InLanguageMatches(p, 0, pieces, name, 0);
    }
  }

  /** n one-character tokens lead from position i to position k. */
  predicate Hops(p: string, i: nat, n: nat, k: nat)
    decreases n
  {
    if n == 0 then i == k
    else i < |p| && p[i] != '*' && Hops(p, TokenAt(p, i).1, n - 1, k)
  }

  lemma {:induction false} HopsFurther(p: string, i: nat, n: nat, k: nat)
    requires Hops(p, i, n, k) && k < |p| && p[k] != '*'
    ensures Hops(p, i, n + 1, TokenAt(p, k).1)
    decreases n
  {
    if n > 0 { HopsFurther(p, TokenAt(p, i).1, n - 1, k); }
  }

  /** One-character tokens consume exactly one character each. */
  lemma {:induction false} HopsConsume(p: string, i: nat, n: nat, k: nat, s: string, j: nat)
    requires Hops(p, i, n, k) && Matches(p, i, s, j)
    ensures Matches(p, k, s, j + n)
    decreases n
  {
    if n > 0 { HopsConsume(p, TokenAt(p, i).1, n - 1, k, s, j + 1); }
  }

  /** An unclosed bracket or a trailing backslash lies ahead. */
  predicate Broken(p: string, i: nat)
    decreases |p| - i
  {
    i < |p| && (TokenAt(p, i).0.Malformed? || Broken(p, TokenAt(p, i).1))
  }

  lemma {:induction false} BrokenMatchesNothing(p: string, i: nat, s: string, j: nat)
    requires Broken(p, i)
    ensures !Matches(p, i, s, j)
    decreases |p| - i, |s| - j
  {
    if p[i] == '*' {
      BrokenMatchesNothing(p, i + 1, s, j);
      if j < |s| { BrokenMatchesNothing(p, i, s, j + 1); }
    } else if !TokenAt(p, i).0.Malformed? {
      BrokenMatchesNothing(p, TokenAt(p, i).1, s, j + 1);
    }
  }

  lemma {:induction false} HopsToBroken(p: string, i: nat, n: nat, k: nat)
    requires Hops(p, i, n, k) && Broken(p, k)
    ensures Broken(p, i)
    decreases n
  {
    if n > 0 { HopsToBroken(p, TokenAt(p, i).1, n - 1, k); }
  }

  // ---------------------------------------------------------------- Matcher

  /** Whether some item of the bracket body from i on accepts ch. */
  predicate InBody(p: string, i: nat, ch: char)
    decreases |p| - i
  {
    if i >= |p| || p[i] == ']' then false
    else if IsRangeAt(p, i) then InItem(Range(p[i], p[i + 2]), ch) || InBody(p, i + 3, ch)
    else p[i] == ch || InBody(p, i + 1, ch)
  }

  lemma {:induction false} InBodyIffInClass(p: string, i: nat, ch: char)
    ensures InBody(p, i, ch) <==> InClass(ClassItems(p, i), ch)
    decreases |p| - i
  {
    if i < |p| && p[i] != ']' {
      var next := if IsRangeAt(p, i) then i + 3 else i + 1;
      InBodyIffInClass(p, next, ch);
      var items, rest := ClassItems(p, i), ClassItems(p, next);
      assert items[1..] == rest;
      if InClass(rest, ch) {
        var k :| 0 <= k < |rest| && InItem(rest[k], ch);
        assert items[k + 1] == rest[k];
      }
      assert InItem(items[0], ch) ==> InClass(items, ch);
    }
  }

  /** What scanning the bracket at i for ch reports, and where the scan stops. */
  ghost predicate BracketScan(p: string, i: nat, ch: char, ok: bool, end: nat)
    requires i < |p| && p[i] == '['
  {
    && end == ClassEnd(p, ClassBody(p, i))
    && ok == if end < |p| then Accepts(TokenAt(p, i).0, ch) else ch == '['
  }

  /**
   * Scans the bracket expression at pat[i]; the caller's cursor ends on the
   * closing bracket, or past the end when there is none.
   */
  method MatchCharClass(pat: string, i: nat, ch: char) returns (ok: bool, i': nat)
    requires i < |pat| && pat[i] == '['
    ensures BracketScan(pat, i, ch, ok, i')
  {
    i' := i;
    var neg := false;
    if i' + 1 < |pat| && (pat[i' + 1] == '!' || pat[i' + 1] == '^') {
      neg := true;
      i' := i' + 1;
    }
    ok := false;
    var closed := false;
    i' := i' + 1;
    ghost var body := i';
    InBodyIffInClass(pat, body, ch);
    while i' < |pat|
      invariant body <= i' <= |pat|
      invariant InBody(pat, body, ch) == (ok || InBody(pat, i', ch))
      invariant ClassEnd(pat, body) == ClassEnd(pat, i')
    {
      if pat[i'] == ']' {
        closed := true;
        break;
      }
      if i' + 2 < |pat| && pat[i' + 1] == '-' && pat[i' + 2] != ']' {
        var a := pat[i'];
        var b := pat[i' + 2];
        if SignedByte(a) > SignedByte(b) { a, b := b, a; }
        if SignedByte(ch) >= SignedByte(a) && SignedByte(ch) <= SignedByte(b) { ok := true; }
        i' := i' + 2;
      } else {
        if pat[i'] == ch { ok := true; }
      }
      i' := i' + 1;
    }
    if !closed {
      return ch == '[', i';
    }
    ok := if neg then !ok else ok;
  }

  // Between the moves of the matcher.

  /** What the two cursors and the remembered star (the position after it) still have to decide. */
  predicate Open(p: string, s: string, pi: nat, ni: nat, star: int, from: nat) {
    Matches(p, pi, s, ni) || (star > 0 && from < |s| && Matches(p, star - 1, s, from + 1))
  }

  /** Between the remembered star and the cursor lie only one-character tokens. */
  predicate Straight(p: string, pi: nat, ni: nat, star: int, from: nat) {
    star != -1 ==>
      && 0 < star <= |p| && p[star - 1] == '*' && from <= ni
      && if pi <= |p| then Hops(p, star, ni - from, pi) else Broken(p, star)
  }

  /** The loop invariant of the matcher: the two cursors and the star still decide the goal. */
  ghost predicate Undecided(p: string, s: string, goal: bool, pi: nat, ni: nat, star: int, from: nat) {
    && ni <= |s| && pi <= |p| + 1 && from <= ni
    && -1 <= star <= pi && star <= |p|
    && Straight(p, pi, ni, star, from)
    && goal == Open(p, s, pi, ni, star, from)
  }

  /** A newer star takes over: whatever the older one could still match, the newer one can. */
  lemma ReachStar(p: string, s: string, goal: bool, pi: nat, ni: nat, star: int, from: nat)
    requires Undecided(p, s, goal, pi, ni, star, from)
    requires pi < |p| && p[pi] == '*'
    ensures Undecided(p, s, goal, pi + 1, ni, pi + 1, ni)
  {
    if star > 0 && from < |s| && Matches(p, star - 1, s, from + 1) {
      var k := StarWitness(p, star - 1, s, from + 1);
      HopsConsume(p, star, ni - from, pi, s, k);
      StarReaches(p, pi, s, ni, k + ni - from);
    }
  }

  /**
   * Whether the token at pi, not a star, lets ch through, and where the cursor
   * goes next; beyond the end of the pattern for an unclosed bracket.
   */
  predicate StepsTo(p: string, pi: nat, ch: char, ok: bool, next: nat) {
    if pi >= |p| then !ok
    else
      var (t, after) := TokenAt(p, pi);
      && !t.Star?
      && if !ok then !Accepts(t, ch)
         else if t.Malformed? then next == |p| + 1
         else Accepts(t, ch) && next == after
  }

  /** The character is consumed; past an unclosed bracket nothing can match any more. */
  lemma Advance(p: string, s: string, goal: bool, pi: nat, next: nat, ni: nat, star: int, from: nat)
    requires Undecided(p, s, goal, pi, ni, star, from)
    requires ni < |s| && StepsTo(p, pi, s[ni], true, next)
    ensures Undecided(p, s, goal, next, ni + 1, star, from)
  {
    if star != -1 {
      if next <= |p| { HopsFurther(p, star, ni - from, pi); } else { HopsToBroken(p, star, ni - from, pi); }
    }
  }

  /** A dead end is decided by the remembered star, resumed one character further. */
  lemma Retry(p: string, s: string, goal: bool, pi: nat, next: nat, ni: nat, star: int, from: nat)
    requires Undecided(p, s, goal, pi, ni, star, from)
    requires ni < |s| && StepsTo(p, pi, s[ni], false, next)
    ensures star == -1 ==> !goal
    ensures star != -1 ==> Undecided(p, s, goal, star, from + 1, star, from + 1)
  {
  }

  /** Once the name is used up the remembered star cannot help any more. */
  lemma NameExhausted(p: string, s: string, goal: bool, pi: nat, star: int, from: nat)
    requires Undecided(p, s, goal, pi, |s|, star, from)
    ensures goal == Matches(p, pi, s, |s|)
  {
    if star > 0 && from < |s| && Matches(p, star - 1, s, from + 1) {
      var k := StarWitness(p, star - 1, s, from + 1);
      if pi <= |p| {
        HopsConsume(p, star, |s| - from, pi, s, k);
      } else {
        BrokenMatchesNothing(p, star, s, k);
      }
    }
  }

  method MatchOne(pattern: string, pi: nat, ch: char) returns (ok: bool, next: nat)
    requires pi < |pattern| ==> pattern[pi] != '*'
    ensures StepsTo(pattern, pi, ch, ok, next)
  {
    next := pi;
    if pi < |pattern| && pattern[pi] == '?' {
      ok, next := true, pi + 1;
    } else if pi < |pattern| && pattern[pi] == '[' {
      ok, next := MatchCharClass(pattern, pi, ch);
      next := next + 1;
    } else if pi < |pattern| && pattern[pi] == '\\' {
      next := pi + 1;
      ok := next < |pattern| && pattern[next] == ch;
      next := next + 1;
    } else {
      ok := pi < |pattern| && pattern[pi] == ch;
      next := pi + 1;
    }
  }

  /** Backtracks to the most recent star only; it decides the language of the pattern all the same. */
  method WildcardMatchSegment(pattern: string, name: string) returns (r: bool)
    ensures r <==> Denotes(pattern, name)
  {
    var pi: nat, ni: nat := 0, 0;
    var star: int, from: nat := -1, 0;
    ghost var goal := Denotes(pattern, name);
    MatchesIffDenotes(pattern, name);
    while ni < |name|
      invariant Undecided(pattern, name, goal, pi, ni, star, from)
      decreases if star < 0 then |pattern| + 2 else |pattern| + 1 - star,
                |name| - from, |name| - ni
    {
      if pi < |pattern| && pattern[pi] == '*' {
        ReachStar(pattern, name, goal, pi, ni, star, from);
        pi := pi + 1;
        star, from := pi, ni;
      } else {
        var ok, next := MatchOne(pattern, pi, name[ni]);
        if ok {
          Advance(pattern, name, goal, pi, next, ni, star, from);
          pi, ni := next, ni + 1;
        } else {
          Retry(pattern, name, goal, pi, next, ni, star, from);
          if star == -1 { return false; }
          pi, from := star, from + 1;
          ni := from;
        }
      }
    }
    NameExhausted(pattern, name, goal, pi, star, from);
    while pi < |pattern| && pattern[pi] == '*'
      invariant pi <= |pattern| + 1
      invariant goal == Matches(pattern, pi, name, |name|)
    {
      pi := pi + 1;
    }
    r := pi == |pattern|;
  }

  // ------------------------------------------------- What patterns denote

  lemma {:induction false} BrokenIffMalformed(p: string, i: nat)
    requires i <= |p|
    ensures Broken(p, i) <==> Malformed in Tokens(p, i)
    decreases |p| - i
  {
    if i < |p| { BrokenIffMalformed(p, TokenAt(p, i).1); }
  }

  /** A pattern with an unclosed bracket or a trailing backslash matches no name at all. */
  lemma MalformedPatternDenotesNothing(pattern: string, name: string)
    requires Malformed in Tokens(pattern, 0)
    ensures !Denotes(pattern, name)
  {
    BrokenIffMalformed(pattern, 0);
    BrokenMatchesNothing(pattern, 0, name, 0);
    MatchesIffDenotes(pattern, name);
  }

  function Escape(s: string): string {
    if s == "" then "" else ['\\', s[0]] + Escape(s[1..])
  }

  lemma {:induction false} EscapedMatches(p: string, i: nat, s: string, name: string, j: nat)
    requires i <= |p| && p[i..] == Escape(s) && j <= |name|
    ensures Matches(p, i, name, j) <==> name[j..] == s
    decreases |s|
  {
    if s == "" {
      assert i == |p|;
    } else {
      assert p[i..][0] == '\\' && p[i..][1] == s[0];
      assert p[i + 2..] == p[i..][2..] == Escape(s[1..]);
      assert s == [s[0]] + s[1..];
      if j < |name| {
        EscapedMatches(p, i + 2, s[1..], name, j + 1);
        assert name[j..] == [name[j]] + name[j + 1..];
      }
    }
  }

  /** Quoting every character of a name gives a pattern that denotes that name and no other. */
  lemma EscapeRoundTrip(s: string, name: string)
    ensures Denotes(Escape(s), name) <==> name == s
  {
    EscapedMatches(Escape(s), 0, s, name, 0);
    MatchesIffDenotes(Escape(s), name);
    assert name[0..] == name;
  }

  /** What the comment says of an unclosed bracket, that it is compared literally, holds of no such pattern. */
  lemma UnclosedBracketIsNotLiteral(rest: string)
    requires ']' !in rest
    ensures !Denotes("[" + rest, "[" + rest) && Denotes(Escape("[" + rest), "[" + rest)
  {
    var p := "[" + rest;
    assert p[1..] == rest;
    assert forall k :: 1 <= k < |p| ==> p[k] == rest[k - 1];
    assert TokenAt(p, 0).0 == Malformed;
    assert Malformed in Tokens(p, 0);
    MalformedPatternDenotesNothing(p, p);
    EscapeRoundTrip(p, p);
  }
}
