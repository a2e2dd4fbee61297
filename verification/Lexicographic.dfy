/**
 * Lexicographic order on sequences, and the strictly sorted sequence of the
 * elements of a list: what std::sort followed by std::unique leaves behind.
 */
module Lexicographic {

  ghost predicate StrictTotal<T(!new)>(lt: (T, T) -> bool) {
    && (forall a, b, c :: lt(a, b) && lt(b, c) ==> lt(a, c))
    && (forall a, b :: lt(a, b) ==> !lt(b, a))
    && (forall a, b :: a == b || lt(a, b) || lt(b, a))
  }

  predicate LexLess<T(==)>(lt: (T, T) -> bool, a: seq<T>, b: seq<T>) {
    if b == [] then false
    else if a == [] then true
    else if a[0] == b[0] then LexLess(lt, a[1..], b[1..])
    else lt(a[0], b[0])
  }

  function Lex<T(==)>(lt: (T, T) -> bool): (seq<T>, seq<T>) -> bool {
    (a, b) => LexLess(lt, a, b)
  }

  lemma {:induction false} LexTransitive<T(!new)>(lt: (T, T) -> bool, a: seq<T>, b: seq<T>, c: seq<T>)
    requires StrictTotal(lt) && LexLess(lt, a, b) && LexLess(lt, b, c)
    ensures LexLess(lt, a, c)
    decreases |a|
  {
    if a != [] && a[0] == b[0] == c[0] { LexTransitive(lt, a[1..], b[1..], c[1..]); }
  }

  lemma {:induction false} LexTotal<T(!new)>(lt: (T, T) -> bool, a: seq<T>, b: seq<T>)
    requires StrictTotal(lt)
    ensures LexLess(lt, a, b) ==> !LexLess(lt, b, a)
    ensures a == b || LexLess(lt, a, b) || LexLess(lt, b, a)
    decreases |a|
  {
    if a != [] && b != [] && a[0] == b[0] {
      LexTotal(lt, a[1..], b[1..]);
      assert a == [a[0]] + a[1..] && b == [b[0]] + b[1..];
    }
  }

  /** Sequences over a strictly totally ordered alphabet are strictly totally ordered. */
  lemma LexStrictTotal<T(!new)>(lt: (T, T) -> bool)
    requires StrictTotal(lt)
    ensures StrictTotal(Lex(lt))
  {
    var less := Lex(lt);
    forall a, b, c | less(a, b) && less(b, c) ensures less(a, c) { LexTransitive(lt, a, b, c); }
    forall a, b ensures less(a, b) ==> !less(b, a) { LexTotal(lt, a, b); }
    forall a, b ensures a == b || less(a, b) || less(b, a) { LexTotal(lt, a, b); }
  }

  /** The first difference decides, and a sequence comes before its extensions. */
  lemma {:induction false} FirstDifference<T>(lt: (T, T) -> bool, pre: seq<T>, a: seq<T>, b: seq<T>)
    requires a != [] ==> b != [] && a[0] != b[0] && lt(a[0], b[0])
    requires b != []
    ensures LexLess(lt, pre + a, pre + b) && pre + a != pre + b
    decreases |pre|
  {
    if pre == [] {
      assert pre + a == a && pre + b == b;
    } else {
      assert (pre + a)[1..] == pre[1..] + a && (pre + b)[1..] == pre[1..] + b;
      FirstDifference(lt, pre[1..], a, b);
    }
  }

  // ------------------------------------------------------ Sorted and unique

  ghost predicate StrictlySorted<T>(lt: (T, T) -> bool, s: seq<T>) {
    forall i, j :: 0 <= i < j < |s| ==> lt(s[i], s[j])
  }

  /** A set has only one strictly sorted enumeration. */
  lemma {:induction false} StrictlySortedUnique<T(!new)>(lt: (T, T) -> bool, a: seq<T>, b: seq<T>)
    requires StrictTotal(lt) && StrictlySorted(lt, a) && StrictlySorted(lt, b)
    requires forall x :: x in a <==> x in b
    ensures a == b
    decreases |a|
  {
    if a == [] {
      assert forall i :: 0 <= i < |b| ==> b[i] in b;
    } else {
      assert a[0] in b && b[0] in a;
      var i :| 0 <= i < |b| && b[i] == a[0];
      var j :| 0 <= j < |a| && a[j] == b[0];
      assert a[0] == b[0];
      forall x ensures x in a[1..] <==> x in b[1..] {
        if x in a[1..] { assert lt(a[0], x) && x in b; }
        if x in b[1..] { assert lt(b[0], x) && x in a; }
      }
      StrictlySortedUnique(lt, a[1..], b[1..]);
      assert a == [a[0]] + a[1..] && b == [b[0]] + b[1..];
    }
  }

  method InsertSorted<T(!new,==)>(lt: (T, T) -> bool, s: seq<T>, x: T) returns (r: seq<T>)
    requires StrictTotal(lt) && StrictlySorted(lt, s)
    ensures StrictlySorted(lt, r)
    ensures forall y :: y in r <==> y == x || y in s
  {
    var i := 0;
    while i < |s| && lt(s[i], x)
      invariant 0 <= i <= |s|
      invariant forall k :: 0 <= k < i ==> lt(s[k], x)
    {
      i := i + 1;
    }
    if i < |s| && s[i] == x { return s; }
    r := s[..i] + [x] + s[i..];
    Inserted(lt, s, x, i);
  }

  lemma Inserted<T(!new)>(lt: (T, T) -> bool, s: seq<T>, x: T, i: nat)
    requires StrictTotal(lt) && StrictlySorted(lt, s) && i <= |s|
    requires forall k :: 0 <= k < i ==> lt(s[k], x)
    requires i < |s| ==> lt(x, s[i])
    ensures StrictlySorted(lt, s[..i] + [x] + s[i..])
    ensures forall y :: y in s[..i] + [x] + s[i..] <==> y == x || y in s
  {
    var r := s[..i] + [x] + s[i..];
    forall k | i <= k < |s| ensures lt(x, s[k]) {
      if i < k { assert lt(s[i], s[k]); }
    }
    assert forall k :: 0 <= k < |r| ==> r[k] == if k < i then s[k] else if k == i then x else s[k - 1];
    assert s == s[..i] + s[i..];
  }

  method SortUnique<T(!new,==)>(lt: (T, T) -> bool, s: seq<T>) returns (r: seq<T>)
    requires StrictTotal(lt)
    ensures StrictlySorted(lt, r)
    ensures forall x :: x in r <==> x in s
  {
    r := [];
    for i := 0 to |s|
      invariant StrictlySorted(lt, r)
      invariant forall x :: x in r <==> x in s[..i]
    {
      r := InsertSorted(lt, r, s[i]);
    }
    assert s[..|s|] == s;
  }
}
