/**
 * Printing of unsigned numbers in base 10 or 16 and the text-to-number
 * conversion of std::stoul, including white space, signs, the "0x" prefix,
 * ignored trailing text, wrap-around of negative numbers and overflow.
 */
module Numerals {
  import opened Wrappers

  type Base = b: int | b == 10 || b == 16 witness 10

  const ULONG_LIMIT: int := 0x1_0000_0000_0000_0000

  // --------------------------------------------------------------- Digits

  function DigitChar(d: nat): (c: char)
    requires d < 16
    ensures DigitValue(c) == d
  {
    "0123456789abcdef"[d]
  }

  /** The value of a digit in bases up to 16; 16 for any other character. */
  function DigitValue(c: char): (d: nat)
    ensures d <= 16
  {
    if '0' <= c <= '9' then c as int - '0' as int
    else if 'a' <= c <= 'f' then c as int - 'a' as int + 10
    else if 'A' <= c <= 'F' then c as int - 'A' as int + 10
    else 16
  }

  predicate IsDigit(c: char, base: Base) { DigitValue(c) < base }

  function Print(n: nat, base: Base): (s: string)
    ensures s != "" && forall c :: c in s ==> IsDigit(c, base)
    decreases n
  {
    (if n < base then "" else Print(n / base, base)) + [DigitChar(n % base)]
  }

  /** The leading run of digits. */
  function DigitRun(s: string, base: Base): nat
    ensures DigitRun(s, base) <= |s|
  {
    if s == "" || !IsDigit(s[0], base) then 0 else 1 + DigitRun(s[1..], base)
  }

  function Value(s: string, base: Base): nat {
    if s == "" then 0 else Value(s[..|s| - 1], base) * base + DigitValue(s[|s| - 1])
  }

  // ---------------------------------------------------------------- stoul

  predicate IsSpace(c: char) { c == ' ' || '\t' <= c <= '\r' }

  function SkipSpace(s: string): string {
    if s != "" && IsSpace(s[0]) then SkipSpace(s[1..]) else s
  }

  predicate HasSign(s: string) { s != "" && (s[0] == '+' || s[0] == '-') }

  predicate HasHexPrefix(s: string, base: Base) {
    base == 16 && |s| >= 2 && s[0] == '0' && (s[1] == 'x' || s[1] == 'X')
  }

  /** std::stoul: None where it throws. */
  function Stoul(text: string, base: Base): Option<nat> {
    var s := SkipSpace(text);
    var negative := s != "" && s[0] == '-';
    var unsigned := if HasSign(s) then s[1..] else s;
    var digits := if HasHexPrefix(unsigned, base) then unsigned[2..] else unsigned;
    var run := DigitRun(digits, base);
    if run == 0 then
      if HasHexPrefix(unsigned, base) then Some(0) else None
    else
      var v := Value(digits[..run], base);
      if v >= ULONG_LIMIT then None
      else if negative then Some((ULONG_LIMIT - v) % ULONG_LIMIT)
      else Some(v)
  }

  // ---------------------------------------------------------- Round trips

  lemma {:induction false} DigitRunOfDigits(s: string, base: Base)
    requires forall c :: c in s ==> IsDigit(c, base)
    ensures DigitRun(s, base) == |s|
  {
    if s != "" { DigitRunOfDigits(s[1..], base); }
  }

  lemma {:induction false} ValueOfPrint(n: nat, base: Base)
    ensures Value(Print(n, base), base) == n
    decreases n
  {
    var init := if n < base then "" else Print(n / base, base);
    assert Print(n, base)[..|Print(n, base)| - 1] == init;
    if n >= base { ValueOfPrint(n / base, base); }
  }

  lemma DigitIsPlain(c: char, base: Base)
    requires IsDigit(c, base)
    ensures !IsSpace(c) && c != '+' && c != '-' && c != 'x' && c != 'X'
  {
  }

  /** A plain digit string below 2^64 is read as its value. */
  lemma StoulOfDigits(s: string, base: Base)
    requires s != "" && (forall c :: c in s ==> IsDigit(c, base)) && Value(s, base) < ULONG_LIMIT
    ensures Stoul(s, base) == Some(Value(s, base))
  {
    assert s[0] in s;
    DigitIsPlain(s[0], base);
    if |s| >= 2 { assert s[1] in s; DigitIsPlain(s[1], base); }
    DigitRunOfDigits(s, base);
    assert s[..|s|] == s;
  }

  /** std::stoul undoes std::to_string and its hexadecimal counterpart. */
  lemma StoulOfPrint(n: nat, base: Base)
    requires n < ULONG_LIMIT
    ensures Stoul(Print(n, base), base) == Some(n)
  {
    ValueOfPrint(n, base);
    StoulOfDigits(Print(n, base), base);
  }

  lemma PrintInjective(a: nat, b: nat, base: Base)
    requires Print(a, base) == Print(b, base)
    ensures a == b
  {
    ValueOfPrint(a, base);
    ValueOfPrint(b, base);
  }

  // ---------------------------------------- What std::stoul makes of the rest

  lemma {:induction false} RunOfDigitsThen(digits: string, rest: string, base: Base)
    requires forall c :: c in digits ==> IsDigit(c, base)
    requires rest == "" || !IsDigit(rest[0], base)
    ensures DigitRun(digits + rest, base) == |digits|
    decreases |digits|
  {
    if digits == "" {
      assert digits + rest == rest;
    } else {
      assert (digits + rest)[0] == digits[0] && (digits + rest)[1..] == digits[1..] + rest && digits[0] in digits;
      assert forall c :: c in digits[1..] ==> c in digits;
      RunOfDigitsThen(digits[1..], rest, base);
    }
  }

  /** Digits and what follows them show neither white space, nor a sign, nor a prefix. */
  lemma BodyIsPlain(digits: string, rest: string, base: Base)
    requires digits != "" && forall c :: c in digits ==> IsDigit(c, base)
    requires rest == "" || (!IsDigit(rest[0], base) && rest[0] != 'x' && rest[0] != 'X')
    ensures
      var body := digits + rest;
      && body != "" && !IsSpace(body[0]) && !HasSign(body) && !HasHexPrefix(body, base)
      && DigitRun(body, base) == |digits| && body[..|digits|] == digits
  {
    var body := digits + rest;
    assert body[0] == digits[0] && digits[0] in digits;
    DigitIsPlain(digits[0], base);
    if |body| >= 2 {
      if |digits| >= 2 {
        assert body[1] == digits[1] && digits[1] in digits;
        DigitIsPlain(digits[1], base);
      } else {
        assert body[1] == rest[0];
      }
    }
    RunOfDigitsThen(digits, rest, base);
  }

  /** White space is skipped and what follows the digits is ignored; overflow throws. */
  lemma StoulReads(space: string, digits: string, rest: string, base: Base)
    requires forall c :: c in space ==> c == ' ' || c == '\t' || c == '\n'
    requires digits != "" && forall c :: c in digits ==> IsDigit(c, base)
    requires rest == "" || (!IsDigit(rest[0], base) && rest[0] != 'x' && rest[0] != 'X')
    ensures
      var v := Value(digits, base);
      Stoul(space + (digits + rest), base) == if v >= 0x1_0000_0000_0000_0000 then None else Some(v)
  {
    BodyIsPlain(digits, rest, base);
    SpaceIsSkipped(space, digits + rest);
  }

  /** The value after a sign: a negative number wraps around. */
  function SignedValue(negative: bool, v: nat): Option<nat> {
    if v >= 0x1_0000_0000_0000_0000 then None
    else if negative && v != 0 then Some(0x1_0000_0000_0000_0000 - v)
    else Some(v)
  }

  /** A sign is heeded. */
  lemma StoulReadsSigned(space: string, negative: bool, digits: string, rest: string, base: Base)
    requires forall c :: c in space ==> c == ' ' || c == '\t' || c == '\n'
    requires digits != "" && forall c :: c in digits ==> IsDigit(c, base)
    requires rest == "" || (!IsDigit(rest[0], base) && rest[0] != 'x' && rest[0] != 'X')
    ensures Stoul(space + ([if negative then '-' else '+'] + (digits + rest)), base)
         == SignedValue(negative, Value(digits, base))
  {
    var body := digits + rest;
    BodyIsPlain(digits, rest, base);
    SignThen(space, if negative then '-' else '+', body);
    SignedBody(space + ([if negative then '-' else '+'] + body), negative, body, Value(digits, base), base);
  }

  lemma SignThen(space: string, sign: char, body: string)
    requires (forall c :: c in space ==> c == ' ' || c == '\t' || c == '\n') && (sign == '-' || sign == '+')
    ensures
      var s := SkipSpace(space + ([sign] + body));
      s != "" && s[0] == sign && s[1..] == body
  {
    SpaceIsSkipped(space, [sign] + body);
    assert ([sign] + body)[1..] == body;
  }

  lemma SignedBody(text: string, negative: bool, body: string, v: nat, base: Base)
    requires
      var s := SkipSpace(text);
      s != "" && s[0] == (if negative then '-' else '+') && s[1..] == body
    requires !HasHexPrefix(body, base) && DigitRun(body, base) > 0 && Value(body[..DigitRun(body, base)], base) == v
    ensures Stoul(text, base) == SignedValue(negative, v)
  {
    assert v < ULONG_LIMIT ==> (ULONG_LIMIT - v) % ULONG_LIMIT == if v == 0 then 0 else ULONG_LIMIT - v;
  }

  lemma {:induction false} SpaceIsSkipped(space: string, s: string)
    requires (forall c :: c in space ==> c == ' ' || c == '\t' || c == '\n') && s != "" && !IsSpace(s[0])
    ensures SkipSpace(space + s) == s
    decreases |space|
  {
    if space == "" {
      assert space + s == s;
    } else {
      assert (space + s)[0] == space[0] && (space + s)[1..] == space[1..] + s && space[0] in space;
      assert forall c :: c in space[1..] ==> c in space;
      SpaceIsSkipped(space[1..], s);
    }
  }

  /** The value of a digit string, digit by digit. */
  lemma ValueSnoc(digits: string, c: char, base: Base)
    ensures Value("", base) == 0
    ensures Value(digits + [c], base) == Value(digits, base) * base + DigitValue(c)
  {
    assert (digits + [c])[..|digits|] == digits;
  }
}
