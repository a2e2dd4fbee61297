/**
 * The textual form of stored password hashes,
 *   argon2id:t=<iterations>:m=<memory>:p=<lanes>:<salt in hex>:<hash in hex>,
 * its printer and its parser.  The key derivation function is left abstract.
 */
module PasswordHash {
  import opened Numerals
  import opened Wrappers

  type Bytes = seq<bv8>

  /** Password, salt, iterations, memory, lanes; None where the library call fails. */
  type Kdf = (string, Bytes, nat, nat, nat) -> Option<Bytes>

  const ARGON_T: nat := 3
  const ARGON_M: nat := 65536
  const ARGON_P: nat := 1
  const SALT_LEN: nat := 16
  const HASH_LEN: nat := 32
  const UINT32_LIMIT: nat := 0x1_0000_0000

  /** Whatever is derived has the fixed length of the output buffer. */
  ghost predicate FixedLength(kdf: Kdf) {
    forall pw: string, salt: Bytes, t: nat, m: nat, p: nat ::
      kdf(pw, salt, t, m, p).Some? ==> |kdf(pw, salt, t, m, p).value| == HASH_LEN
  }

  // ------------------------------------------------------------------ Hex

  function TwoDigits(v: nat): string
    requires v < 256
  {
    [DigitChar(v / 16), DigitChar(v % 16)]
  }

  function HexOf(b: bv8): string { TwoDigits(b as int) }

  function Hex(data: Bytes): string {
    if data == [] then "" else HexOf(data[0]) + Hex(data[1..])
  }

  method BytesToHex(data: Bytes) returns (s: string)
    ensures s == Hex(data)
  {
    s := "";
    for i := 0 to |data|
      invariant s == Hex(data[..i])
    {
      var two := PaddedHex(data[i] as int);
      HexSnoc(data, i);
      s := s + two;
    }
    assert data[..|data|] == data;
  }

  lemma {:induction false} HexOfConcat(a: Bytes, b: Bytes)
    ensures Hex(a + b) == Hex(a) + Hex(b)
    decreases |a|
  {
    if a == [] {
      assert a + b == b;
    } else {
      assert (a + b)[0] == a[0] && (a + b)[1..] == a[1..] + b;
      HexOfConcat(a[1..], b);
      assert Hex(a) + Hex(b) == HexOf(a[0]) + (Hex(a[1..]) + Hex(b));
    }
  }

  lemma HexSnoc(data: Bytes, i: nat)
    requires i < |data|
    ensures Hex(data[..i + 1]) == Hex(data[..i]) + HexOf(data[i])
  {
    HexOfConcat(data[..i], [data[i]]);
    assert data[..i] + [data[i]] == data[..i + 1];
    assert [data[i]][1..] == [] && Hex([data[i]]) == HexOf(data[i]) + "";
  }

  /** Printing with width 2 and fill '0' gives exactly two digits. */
  method PaddedHex(v: nat) returns (two: string)
    requires v < 256
    ensures two == TwoDigits(v)
  {
    var digits := Print(v, 16);
    OneDigit(if v < 16 then v else v / 16);
    two := (if |digits| < 2 then "0" else "") + digits;
  }

  lemma OneDigit(d: nat)
    requires d < 16
    ensures Print(d, 16) == [DigitChar(d)]
  {
  }

  function UnhexByte(two: string): Option<bv8> {
    match Stoul(two, 16)
    case None => None
    case Some(v) => Some((v % 256) as bv8)
  }

  /** None where the text has odd length or a pair is not a number. */
  function Unhex(hex: string): Option<Bytes>
    decreases |hex|
  {
    if hex == "" then Some([])
    else if |hex| == 1 then None
    else match (UnhexByte(hex[..2]), Unhex(hex[2..])) {
      case (Some(b), Some(rest)) => Some([b] + rest)
      case _ => None
    }
  }

  function Prepend(out: Bytes, r: Option<Bytes>): Option<Bytes> {
    match r
    case None => None
    case Some(rest) => Some(out + rest)
  }

  method HexToBytes(hex: string) returns (r: Option<Bytes>)
    ensures r == Unhex(hex)
  {
    if |hex| % 2 != 0 {
      OddLengthIsRejected(hex);
      return None;
    }
    var out: Bytes := [];
    var i := 0;
    ghost var pairs := |hex| / 2;
    ghost var done := 0;
    PrependToAll(hex);
    while i < |hex|
      invariant 0 <= i <= |hex| == 2 * pairs && i == 2 * done
      invariant Unhex(hex) == Prepend(out, Unhex(hex[i..]))
    {
      UnhexStep(out, hex, i);
      var b := UnhexByte(hex[i..i + 2]);
      if b.None? { return None; }
      out := out + [b.value];
      i, done := i + 2, done + 1;
    }
    PrependToNone(out, hex);
    r := Some(out);
  }

  lemma PrependToAll(hex: string)
    ensures Unhex(hex) == Prepend([], Unhex(hex[0..]))
  {
    assert hex[0..] == hex;
    if Unhex(hex).Some? { assert [] + Unhex(hex).value == Unhex(hex).value; }
  }

  lemma PrependToNone(out: Bytes, hex: string)
    ensures Prepend(out, Unhex(hex[|hex|..])) == Some(out)
  {
    assert hex[|hex|..] == "" && out + [] == out;
  }

  lemma UnhexStep(out: Bytes, hex: string, i: nat)
    requires i + 2 <= |hex|
    ensures Prepend(out, Unhex(hex[i..])) ==
      match UnhexByte(hex[i..i + 2]) { case None => None case Some(b) => Prepend(out + [b], Unhex(hex[i + 2..])) }
  {
    var rest := hex[i..];
    assert rest[..2] == hex[i..i + 2] && rest[2..] == hex[i + 2..];
    if UnhexByte(rest[..2]).Some? && Unhex(rest[2..]).Some? {
      var b, more := UnhexByte(rest[..2]).value, Unhex(rest[2..]).value;
      assert out + ([b] + more) == out + [b] + more;
    }
  }

  lemma {:induction false} OddLengthIsRejected(hex: string)
    requires |hex| % 2 == 1
    ensures Unhex(hex).None?
    decreases |hex|
  {
    if |hex| > 1 { OddLengthIsRejected(hex[2..]); }
  }

  lemma TwoDigitsValue(v: nat)
    requires v < 256
    ensures Stoul(TwoDigits(v), 16) == Some(v)
  {
    var s := TwoDigits(v);
    assert s[..1] == [DigitChar(v / 16)] && s[..1][..0] == "";
    assert Value(s[..1], 16) == v / 16;
    assert Value(s, 16) == v;
    StoulOfDigits(s, 16);
  }

  lemma UnhexByteOfHex(b: bv8)
    ensures UnhexByte(HexOf(b)) == Some(b)
  {
    TwoDigitsValue(b as int);
    ByteOfInt(b);
  }

  lemma ByteOfInt(b: bv8)
    ensures ((b as int) % 256) as bv8 == b
  {
    assert (b as int) % 256 == b as int;
  }

  /** Hex parsing undoes hex printing for every byte string. */
  lemma {:induction false} UnhexOfHex(data: Bytes)
    ensures Unhex(Hex(data)) == Some(data)
  {
    if data != [] {
      var s := Hex(data);
      assert s[..2] == HexOf(data[0]) && s[2..] == Hex(data[1..]);
      UnhexByteOfHex(data[0]);
      UnhexOfHex(data[1..]);
      assert Unhex(s) == Some([data[0]] + data[1..]);
      assert data == [data[0]] + data[1..];
    }
  }

  lemma {:induction false} HexHasNoColon(data: Bytes)
    ensures ':' !in Hex(data) && |Hex(data)| == 2 * |data|
  {
    if data != [] { HexHasNoColon(data[1..]); }
  }

  // ------------------------------------------------------ Splitting at ':'

  /** What repeated std::getline reads: no field after a final separator. */
  function Fields(s: string): seq<string>
    decreases |s|
  {
    if s == "" then [] else
      var k := FirstColon(s);
      if k == |s| then [s] else [s[..k]] + Fields(s[k + 1..])
  }

  function FirstColon(s: string): (k: nat)
    ensures k <= |s| && ':' !in s[..k] && (k < |s| ==> s[k] == ':')
  {
    if s == "" || s[0] == ':' then 0 else 1 + FirstColon(s[1..])
  }

  function Join(parts: seq<string>): string
    requires parts != []
  {
    if |parts| == 1 then parts[0] else parts[0] + ":" + Join(parts[1..])
  }

  method SplitFields(s: string) returns (parts: seq<string>)
    ensures parts == Fields(s)
  {
    parts := [];
    var i := 0;
    assert s[0..] == s;
    while i < |s|
      invariant 0 <= i <= |s|
      invariant parts + Fields(s[i..]) == Fields(s)
    {
      var k := FindColon(s, i);
      NextField(s, i, k);
      parts := parts + [s[i..k]];
      i := if k == |s| then k else k + 1;
    }
    assert s[i..] == "";
  }

  method FindColon(s: string, i: nat) returns (k: nat)
    requires i <= |s|
    ensures i <= k <= |s| && ':' !in s[i..k] && (k < |s| ==> s[k] == ':')
  {
    k := i;
    while k < |s| && s[k] != ':'
      invariant i <= k <= |s|
      invariant ':' !in s[i..k]
    {
      k := k + 1;
    }
  }

  lemma NextField(s: string, i: nat, k: nat)
    requires i < |s| && i <= k <= |s| && ':' !in s[i..k] && (k < |s| ==> s[k] == ':')
    ensures Fields(s[i..]) == [s[i..k]] + Fields(s[if k == |s| then k else k + 1..])
  {
    var rest := s[i..];
    assert rest[..k - i] == s[i..k];
    FirstColonIs(rest, k - i);
    if k == |s| {
      assert rest == s[i..k] && s[k..] == "";
      assert Fields(rest) == [rest] + [];
    } else {
      assert rest[k - i + 1..] == s[k + 1..];
    }
  }

  lemma {:induction false} FirstColonIs(s: string, k: nat)
    requires k <= |s| && ':' !in s[..k] && (k < |s| ==> s[k] == ':')
    ensures FirstColon(s) == k
    decreases |s|
  {
    if k > 0 {
      assert s[0] == s[..k][0] && forall c :: c in s[1..][..k - 1] ==> c in s[..k];
      FirstColonIs(s[1..], k - 1);
    }
  }

  /** Splitting undoes joining when no part holds a colon and the last is not empty. */
  lemma {:induction false} FieldsOfJoin(parts: seq<string>)
    requires parts != [] && parts[|parts| - 1] != ""
    requires forall i :: 0 <= i < |parts| ==> ':' !in parts[i]
    ensures Fields(Join(parts)) == parts
    decreases |parts|
  {
    if |parts| == 1 {
      FieldsOfLast(parts[0]);
    } else {
      FieldsOfJoin(parts[1..]);
      FieldsOfFirst(parts[0], Join(parts[1..]));
    }
  }

  lemma FieldsOfLast(part: string)
    requires part != "" && ':' !in part
    ensures Fields(part) == [part]
  {
    assert part[..|part|] == part;
    FirstColonIs(part, |part|);
  }

  lemma FieldsOfFirst(part: string, rest: string)
    requires ':' !in part
    ensures Fields(part + ":" + rest) == [part] + Fields(rest)
  {
    var s := part + ":" + rest;
    var k := |part|;
    assert s[..k] == part && s[k] == ':' && s[k + 1..] == rest;
    FirstColonIs(s, k);
  }

  // ------------------------------------------- Constant-time comparison

  /** Or-ing the xor of all byte pairs is zero exactly for equal byte strings. */
  method SameBytes(a: Bytes, b: Bytes) returns (same: bool)
    requires |a| == |b|
    ensures same <==> a == b
  {
    var diff: bv8 := 0;
    for i := 0 to |a|
      invariant diff == 0 <==> a[..i] == b[..i]
    {
      OrXorIsZero(diff, a[i], b[i]);
      assert a[..i + 1] == a[..i] + [a[i]] && b[..i + 1] == b[..i] + [b[i]];
      diff := diff | (a[i] ^ b[i]);
    }
    assert a[..|a|] == a && b[..|b|] == b;
    same := diff == 0;
  }

  lemma OrXorIsZero(d: bv8, x: bv8, y: bv8)
    ensures d | (x ^ y) == 0 <==> d == 0 && x == y
  {
  }

  // --------------------------------------------------- Hash and verify

  datatype HashResult = Hashed(stored: string) | EmptyPassword | DerivationFailed

  function PartsOf(t: string, m: string, p: string, salt: string, hash: string): seq<string> {
    ["argon2id", "t=" + t, "m=" + m, "p=" + p, salt, hash]
  }

  function StoredParts(salt: Bytes, hash: Bytes): seq<string> {
    PartsOf(Print(ARGON_T, 10), Print(ARGON_M, 10), Print(ARGON_P, 10), Hex(salt), Hex(hash))
  }

  method Format(t: string, m: string, p: string, salt: string, hash: string) returns (text: string)
    ensures text == Join(PartsOf(t, m, p, salt, hash))
  {
    text := "argon2id:t=" + t + ":m=" + m + ":p=" + p + ":" + salt + ":" + hash;
    var q := PartsOf(t, m, p, salt, hash);
    JoinOfSix(q);
    assert q[0] + ":" + q[1] == "argon2id:t=" + t;
    assert ":" + q[2] == ":m=" + m;
    assert ":" + q[3] == ":p=" + p;
    assert text == (q[0] + ":" + q[1]) + (":" + q[2]) + (":" + q[3]) + ":" + q[4] + ":" + q[5];
    assert text == q[0] + ":" + q[1] + ":" + q[2] + ":" + q[3] + ":" + q[4] + ":" + q[5];
  }

  lemma Parameters()
    ensures Print(ARGON_T, 10) == "3" && Print(ARGON_M, 10) == "65536" && Print(ARGON_P, 10) == "1"
  {
    assert Print(6, 10) == "6" && Print(65, 10) == "65" && Print(655, 10) == "655" && Print(6553, 10) == "6553";
  }

  lemma TagsText()
    ensures "argon2id" + ":" + ("t=" + "3") == "argon2id:t=3"
    ensures "argon2id:t=3" + ":" + ("m=" + "65536") == "argon2id:t=3:m=65536"
    ensures "argon2id:t=3:m=65536" + ":" + ("p=" + "1") + ":" == "argon2id:t=3:m=65536:p=1:"
  {
  }

  lemma SixAssociate(a: string, b: string, c: string, d: string, e: string, f: string)
    ensures (((a + ":" + b) + ":" + c) + ":" + d + ":") + e + ":" + f
         == a + ":" + b + ":" + c + ":" + d + ":" + e + ":" + f
  {
  }

  /** The stored text, character by character. */
  lemma StoredText(salt: Bytes, hash: Bytes)
    ensures Join(StoredParts(salt, hash)) == "argon2id:t=3:m=65536:p=1:" + Hex(salt) + ":" + Hex(hash)
  {
    var q := StoredParts(salt, hash);
    Parameters();
    JoinOfSix(q);
    SixAssociate(q[0], q[1], q[2], q[3], q[4], q[5]);
    TagsText();
  }

  /** The random salt is a parameter. */
  method HashPassword(kdf: Kdf, plaintext: string, salt: Bytes) returns (r: HashResult)
    requires |salt| == SALT_LEN
    ensures plaintext == "" ==> r.EmptyPassword?
    ensures plaintext != "" ==>
      match kdf(plaintext, salt, ARGON_T, ARGON_M, ARGON_P)
      case None => r.DerivationFailed?
      case Some(hash) =>
        && r == Hashed(Join(StoredParts(salt, hash)))
        && r == Hashed("argon2id:t=3:m=65536:p=1:" + Hex(salt) + ":" + Hex(hash))
  {
    if plaintext == "" { return EmptyPassword; }
    var hash := kdf(plaintext, salt, ARGON_T, ARGON_M, ARGON_P);
    if hash.None? { return DerivationFailed; }
    var saltHex := BytesToHex(salt);
    var hashHex := BytesToHex(hash.value);
    var text := Format(Print(ARGON_T, 10), Print(ARGON_M, 10), Print(ARGON_P, 10), saltHex, hashHex);
    StoredText(salt, hash.value);
    r := Hashed(text);
  }

  lemma JoinOfSix(q: seq<string>)
    requires |q| == 6
    ensures Join(q) == q[0] + ":" + q[1] + ":" + q[2] + ":" + q[3] + ":" + q[4] + ":" + q[5]
  {
    assert q[4..][1..] == q[5..] && q[3..][1..] == q[4..] && q[2..][1..] == q[3..] && q[1..][1..] == q[2..];
    assert Join(q[5..]) == q[5];
    assert Join(q[4..]) == q[4] + ":" + Join(q[5..]);
    assert Join(q[3..]) == q[3] + ":" + Join(q[4..]);
    assert Join(q[2..]) == q[2] + ":" + Join(q[3..]);
    assert Join(q[1..]) == q[1] + ":" + Join(q[2..]);
  }

  /** The number after a two-character tag such as "t=", as a 32-bit value. */
  function TaggedNumber(part: string): Option<nat> {
    if |part| < 2 then None else
      match Stoul(part[2..], 10)
      case None => None
      case Some(v) => Some(v % UINT32_LIMIT)
  }

  datatype Parsed = Parsed(t: nat, m: nat, p: nat, salt: Bytes, hash: Bytes)

  function ParseStored(stored: string): Option<Parsed> {
    var q := Fields(stored);
    if |q| != 6 || q[0] != "argon2id" then None else
      match (TaggedNumber(q[1]), TaggedNumber(q[2]), TaggedNumber(q[3]), Unhex(q[4]), Unhex(q[5])) {
        case (Some(t), Some(m), Some(p), Some(salt), Some(hash)) => Some(Parsed(t, m, p, salt, hash))
        case _ => None
      }
  }

  /** The text parses and the password derives the stored bytes. */
  ghost predicate Accepts(kdf: Kdf, plaintext: string, stored: string) {
    && ParseStored(stored).Some?
    && var q := ParseStored(stored).value;
       kdf(plaintext, q.salt, q.t, q.m, q.p) == Some(q.hash)
  }

  method VerifyPassword(kdf: Kdf, plaintext: string, stored: string) returns (ok: bool)
    ensures ok <==> Accepts(kdf, plaintext, stored)
  {
    var parts := SplitFields(stored);
    if |parts| != 6 || parts[0] != "argon2id" { return false; }
    var t, m, p := TaggedNumber(parts[1]), TaggedNumber(parts[2]), TaggedNumber(parts[3]);
    if t.None? || m.None? || p.None? { return false; }
    var salt := HexToBytes(parts[4]);
    if salt.None? { return false; }
    var expected := HexToBytes(parts[5]);
    if expected.None? { return false; }
    var computed := kdf(plaintext, salt.value, t.value, m.value, p.value);
    if computed.None? || |computed.value| != |expected.value| { return false; }
    ok := SameBytes(computed.value, expected.value);
  }

  lemma TaggedNumberOfPrint(tag: string, n: nat)
    requires |tag| == 2 && n < UINT32_LIMIT
    ensures TaggedNumber(tag + Print(n, 10)) == Some(n)
  {
    StoulOfPrint(n, 10);
    TaggedNumberOf(tag, Print(n, 10), n);
  }

  lemma TaggedNumberOf(tag: string, digits: string, n: nat)
    requires |tag| == 2 && n < UINT32_LIMIT && Stoul(digits, 10) == Some(n)
    ensures TaggedNumber(tag + digits) == Some(n)
  {
    assert (tag + digits)[2..] == digits;
  }

  lemma DecimalHasNoColon(tag: string, n: nat)
    requires ':' !in tag
    ensures ':' !in tag + Print(n, 10)
  {
  }

  lemma FieldsOfStored(salt: Bytes, hash: Bytes)
    requires hash != []
    ensures Fields(Join(StoredParts(salt, hash))) == StoredParts(salt, hash)
  {
    HexHasNoColon(salt);
    HexHasNoColon(hash);
    DecimalHasNoColon("t=", ARGON_T);
    DecimalHasNoColon("m=", ARGON_M);
    DecimalHasNoColon("p=", ARGON_P);
    FieldsOfSix("t=" + Print(ARGON_T, 10), "m=" + Print(ARGON_M, 10), "p=" + Print(ARGON_P, 10), Hex(salt), Hex(hash));
  }

  lemma FieldsOfSix(t: string, m: string, p: string, salt: string, hash: string)
    requires ':' !in t && ':' !in m && ':' !in p && ':' !in salt && ':' !in hash && hash != ""
    ensures Fields(Join(["argon2id", t, m, p, salt, hash])) == ["argon2id", t, m, p, salt, hash]
  {
    FieldsOfJoin(["argon2id", t, m, p, salt, hash]);
  }

  /** The parser recovers the parameters, the salt and the hash the printer wrote. */
  lemma ParseUndoesPrint(salt: Bytes, hash: Bytes)
    requires hash != []
    ensures ParseStored(Join(StoredParts(salt, hash))) == Some(Parsed(ARGON_T, ARGON_M, ARGON_P, salt, hash))
  {
    FieldsOfStored(salt, hash);
    TaggedNumberOfPrint("t=", ARGON_T);
    TaggedNumberOfPrint("m=", ARGON_M);
    TaggedNumberOfPrint("p=", ARGON_P);
    UnhexOfHex(salt);
    UnhexOfHex(hash);
  }

  /**
   * A candidate is accepted against the text stored for a password, with any
   * salt, exactly when both derive the same bytes; so the password itself is.
   */
  lemma AcceptsWhatWasHashed(kdf: Kdf, plaintext: string, salt: Bytes, candidate: string)
    requires FixedLength(kdf) && kdf(plaintext, salt, ARGON_T, ARGON_M, ARGON_P).Some?
    ensures
      var hash := kdf(plaintext, salt, ARGON_T, ARGON_M, ARGON_P);
      var stored := Join(StoredParts(salt, hash.value));
      && (Accepts(kdf, candidate, stored) <==> kdf(candidate, salt, ARGON_T, ARGON_M, ARGON_P) == hash)
      && Accepts(kdf, plaintext, stored)
  {
    ParseUndoesPrint(salt, kdf(plaintext, salt, ARGON_T, ARGON_M, ARGON_P).value);
  }

  /** Each byte is its high and then its low digit, in lower case. */
  lemma HexDigits(data: Bytes, i: nat)
    requires i < |data|
    ensures |Hex(data)| == 2 * |data|
    ensures Hex(data)[2 * i] == "0123456789abcdef"[(data[i] as int) / 16]
    ensures Hex(data)[2 * i + 1] == "0123456789abcdef"[(data[i] as int) % 16]
  {
    HexHasNoColon(data);
    HexHasNoColon(data[..i]);
    HexSnoc(data, i);
    assert data == data[..i + 1] + data[i + 1..];
    HexOfConcat(data[..i + 1], data[i + 1..]);
    assert HexOf(data[i])[0] == DigitChar((data[i] as int) / 16);
    LowerCaseDigit((data[i] as int) / 16);
    LowerCaseDigit((data[i] as int) % 16);
  }

  lemma LowerCaseDigit(d: nat)
    requires d < 16
    ensures DigitChar(d) == "0123456789abcdef"[d]
  {
  }

  /** A text that has not six fields, or names another function, is accepted for no password. */
  lemma OthersAreRefused(kdf: Kdf, plaintext: string, stored: string)
    requires |Fields(stored)| != 6 || Fields(stored)[0] != "argon2id"
    ensures !Accepts(kdf, plaintext, stored)
  {
  }

  /** A number behind a two-character tag, whichever, is cut to 32 bits. */
  lemma TaggedDigits(tag: string, digits: string)
    requires |tag| == 2 && digits != "" && (forall c :: c in digits ==> IsDigit(c, 10))
    requires Value(digits, 10) < 0x1_0000_0000_0000_0000
    ensures TaggedNumber(tag + digits) == Some(Value(digits, 10) % 0x1_0000_0000)
  {
    StoulOfDigits(digits, 10);
    assert (tag + digits)[2..] == digits;
  }

  ghost predicate IsNumber(digits: string) {
    digits != "" && (forall c :: c in digits ==> '0' <= c <= '9') && Value(digits, 10) < 0x1_0000_0000_0000_0000
  }

  lemma ParsedFields(q: seq<string>, t: nat, m: nat, p: nat, salt: Bytes, hash: Bytes)
    requires |q| == 6 && q[0] == "argon2id" && Fields(Join(q)) == q
    requires TaggedNumber(q[1]) == Some(t) && TaggedNumber(q[2]) == Some(m) && TaggedNumber(q[3]) == Some(p)
    requires Unhex(q[4]) == Some(salt) && Unhex(q[5]) == Some(hash)
    ensures ParseStored(Join(q)) == Some(Parsed(t, m, p, salt, hash))
  {
  }

  /** Any six fields: the parameters are those written, not the program's own, and the tags are not looked at. */
  lemma AcceptsSixFields(
      kdf: Kdf, plaintext: string, tags: seq<string>, t: string, m: string, p: string, salt: Bytes, hash: Bytes)
    requires |tags| == 3 && (forall i :: 0 <= i < 3 ==> |tags[i]| == 2 && ':' !in tags[i])
    requires IsNumber(t) && IsNumber(m) && IsNumber(p) && hash != []
    ensures
      var stored := Join(["argon2id", tags[0] + t, tags[1] + m, tags[2] + p, Hex(salt), Hex(hash)]);
      Accepts(kdf, plaintext, stored) <==>
        kdf(plaintext, salt, Value(t, 10) % 0x1_0000_0000, Value(m, 10) % 0x1_0000_0000, Value(p, 10) % 0x1_0000_0000)
          == Some(hash)
  {
    var q := ["argon2id", tags[0] + t, tags[1] + m, tags[2] + p, Hex(salt), Hex(hash)];
    HexHasNoColon(salt);
    HexHasNoColon(hash);
    TaggedDigits(tags[0], t);
    TaggedDigits(tags[1], m);
    TaggedDigits(tags[2], p);
    FieldsOfSix(q[1], q[2], q[3], q[4], q[5]);
    UnhexOfHex(salt);
    UnhexOfHex(hash);
    ParsedFields(q, Value(t, 10) % UINT32_LIMIT, Value(m, 10) % UINT32_LIMIT, Value(p, 10) % UINT32_LIMIT, salt, hash);
  }
}
