/** Stored password hashes (internal/auth/password.go): how they are printed and
    read back, and what verifying one says. Argon2 itself is a parameter. */
module PasswordHash {
  import opened Base64

  const ARGON2_VERSION: nat := 19

  datatype Params = Params(memoryKiB: nat, iterations: nat, parallelism: nat, saltLength: nat, keyLength: nat)

  const ARGON2_PARAMS := Params(19 * 1024, 2, 1, 16, 32)

  const UINT32: nat := 0x1_0000_0000
  const UINT8: nat := 0x100

  /** What the fields of the source's type can hold. */
  predicate InRange(p: Params) {
    && p.memoryKiB < UINT32 && p.iterations < UINT32 && p.parallelism < UINT8
    && p.saltLength < UINT32 && p.keyLength < UINT32
  }

  datatype Decoded = Hash(params: Params, salt: seq<Byte>, key: seq<Byte>) | Invalid | Incompatible

  // ---------------------------------------------------------------------
  // Decimal numbers
  // ---------------------------------------------------------------------

  predicate IsDigit(c: char) {
    '0' <= c <= '9'
  }

  function Digit(d: nat): char
    requires d < 10
  {
    (d + '0' as int) as char
  }

  function Decimal(n: nat): string {
    if n < 10 then [Digit(n)] else Decimal(n / 10) + [Digit(n % 10)]
  }

  function DigitValue(c: char): nat
    requires IsDigit(c)
  {
    var v: int := c as int - '0' as int;
    v
  }

  function DigitsValue(s: string): nat
    requires forall c :: c in s ==> IsDigit(c)
  {
    if s == "" then 0
    else
      assert s[|s| - 1] in s;
      DigitsValue(s[..|s| - 1]) * 10 + DigitValue(s[|s| - 1])
  }

  lemma {:induction false} DecimalReads(n: nat)
    ensures Decimal(n) != "" && forall c :: c in Decimal(n) ==> IsDigit(c)
    ensures DigitsValue(Decimal(n)) == n
  {
    if n >= 10 {
      DecimalReads(n / 10);
      assert Decimal(n)[..|Decimal(n)| - 1] == Decimal(n / 10);
    }
  }

  /** Decimal, digit by digit, and what its digits are worth. */
  lemma DecimalIsPositional(n: nat, d: nat)
    requires d < 10
    ensures Decimal(d) == [('0' as int + d) as char]
    ensures n > 0 ==> Decimal(10 * n + d) == Decimal(n) + [('0' as int + d) as char]
    ensures forall digits: string :: (forall c :: c in digits ==> '0' <= c <= '9') ==>
              DigitsValue(digits + [('0' as int + d) as char]) == 10 * DigitsValue(digits) + d
    ensures DigitsValue("") == 0
  {
    forall digits: string | forall c :: c in digits ==> '0' <= c <= '9'
      ensures DigitsValue(digits + [('0' as int + d) as char]) == 10 * DigitsValue(digits) + d
    {
      var more := digits + [('0' as int + d) as char];
      assert more[..|more| - 1] == digits;
    }
  }

  // ---------------------------------------------------------------------
  // Scanning, as Sscanf does it: each number may be preceded by blanks, and
  // whatever follows the last one is ignored.
  // ---------------------------------------------------------------------

  datatype Scanned = Number(value: nat, rest: string) | Mismatch

  predicate IsBlank(c: char) {
    c == ' ' || c == '\t' || c == '\r'
  }

  function SkipBlanks(s: string): string {
    if s != "" && IsBlank(s[0]) then SkipBlanks(s[1..]) else s
  }

  /** How many digits a text starts with. */
  function DigitCount(s: string): (n: nat)
    ensures n <= |s| && forall c :: c in s[..n] ==> IsDigit(c)
  {
    if s != "" && IsDigit(s[0]) then
      assert s[..1 + DigitCount(s[1..])] == [s[0]] + s[1..][..DigitCount(s[1..])];
      1 + DigitCount(s[1..])
    else 0
  }

  function ScanDigits(s: string, limit: nat): Scanned {
    var n := DigitCount(s);
    if n == 0 || DigitsValue(s[..n]) >= limit then Mismatch
    else Number(DigitsValue(s[..n]), s[n..])
  }

  function ScanUint(s: string, limit: nat): Scanned {
    ScanDigits(SkipBlanks(s), limit)
  }

  /** A signed number of 64 bits; what follows it is ignored. */
  function ScanInt(s: string): Option<int> {
    var t := SkipBlanks(s);
    if t != "" && t[0] == '-' then
      match ScanDigits(t[1..], 0x8000_0000_0000_0001)
      case Number(v, _) => var n: int := v; Some(0 - n)
      case Mismatch => None
    else
      match ScanDigits(if t != "" && t[0] == '+' then t[1..] else t, 0x8000_0000_0000_0000)
      case Number(v, _) => Some(v)
      case Mismatch => None
  }

  function Literal(s: string, prefix: string): Option<string> {
    if prefix <= s then Some(s[|prefix|..]) else None
  }

  /** A literal followed by a number. */
  function ScanField(s: string, prefix: string, limit: nat): Scanned {
    match Literal(s, prefix)
    case None => Mismatch
    case Some(rest) => ScanUint(rest, limit)
  }

  lemma {:induction false} DigitCountOf(digits: string, rest: string)
    requires forall c :: c in digits ==> IsDigit(c)
    requires rest == "" || !IsDigit(rest[0])
    ensures DigitCount(digits + rest) == |digits|
  {
    if digits == "" {
      assert digits + rest == rest;
    } else {
      DigitCountOf(digits[1..], rest);
      assert (digits + rest)[1..] == digits[1..] + rest;
    }
  }

  lemma ScanPrinted(prefix: string, n: nat, rest: string, limit: nat)
    requires n < limit && (rest == "" || !IsDigit(rest[0]))
    ensures ScanField(prefix + Decimal(n) + rest, prefix, limit) == Number(n, rest)
  {
    hide Decimal, DigitsValue, DigitCount;
    DecimalReads(n);
    DigitCountOf(Decimal(n), rest);
    var s := Decimal(n) + rest;
    assert prefix + Decimal(n) + rest == prefix + s;
    assert (prefix + s)[|prefix|..] == s;
    assert s[0] in Decimal(n);
    assert s[..|Decimal(n)|] == Decimal(n) && s[|Decimal(n)|..] == rest;
  }

  /** A number as it may stand after a literal: blanks, digits, and then no digit. */
  ghost predicate Numeral(s: string, blanks: string, digits: string, rest: string) {
    && s == blanks + digits + rest
    && (forall c :: c in blanks ==> c == ' ' || c == '\t' || c == '\r')
    && digits != "" && (forall c :: c in digits ==> '0' <= c <= '9')
    && (rest != "" ==> !('0' <= rest[0] <= '9'))
  }

  lemma {:induction false} BlanksSkipped(blanks: string, t: string)
    requires forall c :: c in blanks ==> IsBlank(c)
    requires t != "" ==> !IsBlank(t[0])
    ensures SkipBlanks(blanks + t) == t
  {
    if blanks == "" {
      assert blanks + t == t;
    } else {
      BlanksSkipped(blanks[1..], t);
      assert (blanks + t)[1..] == blanks[1..] + t;
    }
  }

  lemma {:induction false} SkippedBlanks(s: string) returns (blanks: string)
    ensures s == blanks + SkipBlanks(s) && forall c :: c in blanks ==> IsBlank(c)
    ensures SkipBlanks(s) != "" ==> !IsBlank(SkipBlanks(s)[0])
  {
    blanks := "";
    if s != "" && IsBlank(s[0]) {
      var more := SkippedBlanks(s[1..]);
      blanks := [s[0]] + more;
      assert s == [s[0]] + s[1..];
      assert [s[0]] + (more + SkipBlanks(s)) == blanks + SkipBlanks(s);
    }
  }

  lemma {:induction false} DigitsEnd(s: string)
    ensures DigitCount(s) < |s| ==> !IsDigit(s[DigitCount(s)])
  {
    if s != "" && IsDigit(s[0]) {
      DigitsEnd(s[1..]);
    }
  }

  /** Scanning finds the numeral if there is one, and what it finds is one. */
  lemma NumeralIsScanned(s: string, blanks: string, digits: string, rest: string, limit: nat)
    requires Numeral(s, blanks, digits, rest)
    ensures ScanUint(s, limit)
         == if DigitsValue(digits) < limit then Number(DigitsValue(digits), rest) else Mismatch
  {
    hide DigitsValue, DigitCount;
    var t := digits + rest;
    assert s == blanks + t;
    assert t[0] in digits;
    BlanksSkipped(blanks, t);
    DigitCountOf(digits, rest);
    assert t[..|digits|] == digits && t[|digits|..] == rest;
  }

  lemma DigitsAre(u: string, blanks: string, limit: nat) returns (digits: string, rest: string)
    requires ScanDigits(u, limit).Number? && forall c :: c in blanks ==> IsBlank(c)
    ensures var n := ScanDigits(u, limit);
            && u == digits + rest && rest == n.rest && DigitsValue(digits) == n.value < limit
            && Numeral(blanks + digits + rest, blanks, digits, rest)
  {
    hide DigitsValue, DigitCount;
    DigitsEnd(u);
    digits, rest := u[..DigitCount(u)], u[DigitCount(u)..];
    assert u == digits + rest;
  }

  lemma ScannedIsNumeral(s: string, limit: nat) returns (blanks: string, digits: string)
    requires ScanUint(s, limit).Number?
    ensures var n := ScanUint(s, limit);
            Numeral(s, blanks, digits, n.rest) && DigitsValue(digits) == n.value < limit
  {
    hide DigitsValue, ScanDigits, Numeral, SkipBlanks;
    blanks := SkippedBlanks(s);
    var rest;
    digits, rest := DigitsAre(SkipBlanks(s), blanks, limit);
    assert blanks + (digits + rest) == blanks + digits + rest;
  }

  // ---------------------------------------------------------------------
  // The stored form
  // ---------------------------------------------------------------------

  function Split(s: string): (parts: seq<string>)
    ensures parts != []
  {
    if s == "" then [""]
    else
      var parts := Split(s[1..]);
      if s[0] == '$' then [""] + parts else [[s[0]] + parts[0]] + parts[1..]
  }

  /** The parts with a dollar sign between each and the next. */
  function Join(parts: seq<string>): string
    requires parts != []
  {
    if |parts| == 1 then parts[0] else parts[0] + "$" + Join(parts[1..])
  }

  lemma {:induction false} SplitFirst(part: string, rest: string)
    requires '$' !in part
    ensures Split(part) == [part]
    ensures Split(part + "$" + rest) == [part] + Split(rest)
  {
    var s := part + "$" + rest;
    if part == "" {
      assert s[1..] == rest;
    } else {
      SplitFirst(part[1..], rest);
      assert s[1..] == part[1..] + "$" + rest;
      assert Split(s) == [[s[0]] + part[1..]] + Split(rest);
      assert [part[0]] + part[1..] == part;
    }
  }

  lemma {:induction false} SplitJoined(parts: seq<string>)
    requires parts != [] && forall part :: part in parts ==> '$' !in part
    ensures Split(Join(parts)) == parts
  {
    if |parts| == 1 {
      SplitFirst(parts[0], "");
    } else {
      SplitJoined(parts[1..]);
      SplitFirst(parts[0], Join(parts[1..]));
    }
  }

  lemma {:induction false} SplitThenJoin(s: string)
    ensures Join(Split(s)) == s && forall part :: part in Split(s) ==> '$' !in part
  {
    if s != "" {
      SplitThenJoin(s[1..]);
      var parts := Split(s[1..]);
      assert s == [s[0]] + s[1..];
      if s[0] == '$' {
        assert Join([""] + parts) == "" + "$" + Join(parts);
      } else {
        JoinOneMore(s[0], parts);
      }
    }
  }

  lemma JoinOneMore(c: char, parts: seq<string>)
    requires parts != []
    ensures Join([[c] + parts[0]] + parts[1..]) == [c] + Join(parts)
    ensures c != '$' && (forall part :: part in parts ==> '$' !in part) ==>
              forall part :: part in [[c] + parts[0]] + parts[1..] ==> '$' !in part
  {
    var more := [[c] + parts[0]] + parts[1..];
    assert more[1..] == parts[1..];
    if |parts| > 1 {
      var tail := Join(parts[1..]);
      assert ([c] + parts[0]) + "$" + tail == [c] + (parts[0] + "$" + tail);
    }
    assert parts[0] in parts && forall part :: part in parts[1..] ==> part in parts;
  }

  /** Splitting finds the parts without a dollar sign that the text joins. */
  lemma SplitExactly(s: string, parts: seq<string>)
    requires parts != []
    ensures Split(s) == parts <==> Join(parts) == s && forall part :: part in parts ==> '$' !in part
  {
    SplitThenJoin(s);
    if Join(parts) == s && forall part :: part in parts ==> '$' !in part {
      SplitJoined(parts);
    }
  }

  function Cost(p: Params): string {
    "m=" + Decimal(p.memoryKiB) + ",t=" + Decimal(p.iterations) + ",p=" + Decimal(p.parallelism)
  }

  /** The parts of the stored form; the first is empty, so it starts with a
      dollar sign. */
  function Parts(p: Params, salt: seq<Byte>, key: seq<Byte>): (parts: seq<string>)
    ensures |parts| == 6
  {
    ["", "argon2id", "v=" + Decimal(ARGON2_VERSION), Cost(p), Encode(salt), Encode(key)]
  }

  function Print(p: Params, salt: seq<Byte>, key: seq<Byte>): string {
    Join(Parts(p, salt, key))
  }

  /** The stored form, spelt out. */
  lemma PrintedForm(p: Params, salt: seq<Byte>, key: seq<Byte>)
    ensures Print(p, salt, key)
         == "$argon2id$v=19$m=" + Decimal(p.memoryKiB) + ",t=" + Decimal(p.iterations) + ",p="
            + Decimal(p.parallelism) + "$" + Encode(salt) + "$" + Encode(key)
  {
    hide Encode, Decimal, Cost, Join, Print;
    CostIs(p);
    PrintIs(p, salt, key);
    JoinSix("", "argon2id", "v=19", Cost(p), Encode(salt), Encode(key));
    var cost := Decimal(p.memoryKiB) + ",t=" + Decimal(p.iterations) + ",p=" + Decimal(p.parallelism);
    Glued(cost, Encode(salt), Encode(key));
    PrefixCost("$argon2id$v=19$m=", Decimal(p.memoryKiB), ",t=", Decimal(p.iterations), ",p=", Decimal(p.parallelism));
  }

  lemma PrefixCost(prefix: string, a: string, b: string, c: string, d: string, e: string)
    ensures prefix + (a + b + c + d + e) == prefix + a + b + c + d + e
  {
  }

  lemma CostIs(p: Params)
    ensures Cost(p) == "m=" + (Decimal(p.memoryKiB) + ",t=" + Decimal(p.iterations) + ",p=" + Decimal(p.parallelism))
  {
    hide Decimal;
    PrefixCost("m=", Decimal(p.memoryKiB), ",t=", Decimal(p.iterations), ",p=", Decimal(p.parallelism));
  }

  lemma PrintIs(p: Params, salt: seq<Byte>, key: seq<Byte>)
    ensures Print(p, salt, key) == Join(["", "argon2id", "v=19", Cost(p), Encode(salt), Encode(key)])
  {
    hide Encode, Cost, Join;
    assert Decimal(19) == "19" && "v=" + "19" == "v=19";
  }

  lemma JoinSix(a: string, b: string, c: string, d: string, e: string, f: string)
    ensures Join([a, b, c, d, e, f]) == a + "$" + (b + "$" + (c + "$" + (d + "$" + (e + "$" + f))))
  {
    assert Join([e, f]) == e + "$" + f;
    assert Join([d, e, f]) == d + "$" + Join([e, f]);
    assert Join([c, d, e, f]) == c + "$" + Join([d, e, f]);
    assert Join([b, c, d, e, f]) == b + "$" + Join([c, d, e, f]);
  }

  lemma Glued(cost: string, x: string, y: string)
    ensures "" + "$" + ("argon2id" + "$" + ("v=19" + "$" + ("m=" + cost + "$" + (x + "$" + y))))
         == "$argon2id$v=19$m=" + cost + "$" + x + "$" + y
  {
    var tail := cost + "$" + x + "$" + y;
    assert "m=" + cost + "$" + (x + "$" + y) == "m=" + tail;
    assert "v=19" + "$" + ("m=" + tail) == "v=19$m=" + tail;
    assert "argon2id" + "$" + ("v=19$m=" + tail) == "argon2id$v=19$m=" + tail;
    assert "" + "$" + ("argon2id$v=19$m=" + tail) == "$argon2id$v=19$m=" + tail;
  }

  function DecodeVersion(s: string): Option<int> {
    match Literal(s, "v=")
    case None => None
    case Some(rest) => ScanInt(rest)
  }

  function DecodeCost(s: string): Option<(nat, nat, nat)> {
    match ScanField(s, "m=", UINT32)
    case Mismatch => None
    case Number(m, afterM) =>
      match ScanField(afterM, ",t=", UINT32)
      case Mismatch => None
      case Number(t, afterT) =>
        match ScanField(afterT, ",p=", UINT8)
        case Mismatch => None
        case Number(p, _) => Some((m, t, p))
  }

  function DecodeHash(encoded: string): Decoded {
    DecodeParts(Split(encoded))
  }

  function DecodeParts(parts: seq<string>): Decoded {
    if |parts| != 6 || parts[0] != "" then Invalid
    else if parts[1] != "argon2id" then Incompatible
    else
      var version := DecodeVersion(parts[2]);
      if version.None? then Invalid
      else if version.value != ARGON2_VERSION then Incompatible
      else
        match DecodeCost(parts[3])
        case None => Invalid
        case Some(cost) =>
          var salt, key := Decode(parts[4]), Decode(parts[5]);
          if salt.None? || key.None? || |salt.value| == 0 || |key.value| == 0 then Invalid
          else Hash(Params(cost.0, cost.1, cost.2, |salt.value| % UINT32, |key.value| % UINT32), salt.value, key.value)
  }

  // ---------------------------------------------------------------------
  // Which texts are hashes
  // ---------------------------------------------------------------------

  /** The texts around and between the numbers of a stored hash. */
  datatype Form = Form(vBlanks: string, sign: string, v: string, vRest: string,
                       mBlanks: string, m: string, tBlanks: string, t: string, pBlanks: string, p: string,
                       pRest: string,
                       salt: string, key: string)

  ghost function Version(f: Form): string {
    f.vBlanks + f.sign + f.v + f.vRest
  }

  ghost function AfterT(f: Form): string {
    ",p=" + (f.pBlanks + f.p + f.pRest)
  }

  ghost function AfterM(f: Form): string {
    ",t=" + (f.tBlanks + f.t + AfterT(f))
  }

  ghost function Text(f: Form): string {
    "" + "$" + ("argon2id" + "$" + ("v=" + Version(f) + "$"
      + ("m=" + (f.mBlanks + f.m + AfterM(f)) + "$" + (f.salt + "$" + f.key))))
  }

  /** A text of this form says that. */
  ghost predicate Says(f: Form, p: Params, salt: seq<Byte>, key: seq<Byte>) {
    && Numeral(f.vBlanks + f.v + f.vRest, f.vBlanks, f.v, f.vRest) && (f.sign == "" || f.sign == "+")
    && DigitsValue(f.v) == 19 && '$' !in f.vRest
    && Numeral(f.mBlanks + f.m + AfterM(f), f.mBlanks, f.m, AfterM(f))
    && Numeral(f.tBlanks + f.t + AfterT(f), f.tBlanks, f.t, AfterT(f))
    && Numeral(f.pBlanks + f.p + f.pRest, f.pBlanks, f.p, f.pRest) && '$' !in f.pRest
    && DigitsValue(f.m) == p.memoryKiB < 0x1_0000_0000 && DigitsValue(f.t) == p.iterations < 0x1_0000_0000
    && DigitsValue(f.p) == p.parallelism < 0x100
    && '$' !in f.salt && SkipLineBreaks(f.salt) == Encode(salt) && '$' !in f.key && SkipLineBreaks(f.key) == Encode(key)
    && salt != [] && |salt| % 0x1_0000_0000 == p.saltLength && key != [] && |key| % 0x1_0000_0000 == p.keyLength
  }

  lemma SignedIsScanned(blanks: string, sign: string, digits: string, rest: string)
    requires Numeral(blanks + digits + rest, blanks, digits, rest) && (sign == "" || sign == "+")
    requires DigitsValue(digits) == 19
    ensures ScanInt(blanks + sign + digits + rest) == Some(19)
  {
    hide DigitsValue, DigitCount;
    var t := digits + rest;
    assert t[0] in digits && t[0] == digits[0];
    assert blanks + sign + digits + rest == blanks + (sign + t);
    BlanksSkipped(blanks, sign + t);
    DigitCountOf(digits, rest);
    assert t[..|digits|] == digits && t[|digits|..] == rest;
    if sign == "" {
      assert sign + t == t;
    } else {
      assert (sign + t)[1..] == t;
    }
  }

  lemma ScannedIsSigned(s: string) returns (blanks: string, sign: string, digits: string, rest: string)
    requires ScanInt(s) == Some(19)
    ensures s == blanks + sign + digits + rest && (sign == "" || sign == "+")
    ensures Numeral(blanks + digits + rest, blanks, digits, rest) && DigitsValue(digits) == 19
  {
    hide DigitsValue, ScanDigits, Numeral, ScanInt;
    blanks := SkippedBlanks(s);
    var u, limit;
    sign, u, limit := SignIs(s);
    digits, rest := DigitsAre(u, blanks, limit);
    assert blanks + (sign + (digits + rest)) == blanks + sign + digits + rest;
  }

  lemma SignIs(s: string) returns (sign: string, u: string, limit: nat)
    requires ScanInt(s) == Some(19)
    ensures SkipBlanks(s) == sign + u && (sign == "" || sign == "+")
    ensures ScanDigits(u, limit).Number? && ScanDigits(u, limit).value == 19
  {
    hide ScanDigits, SkipBlanks;
    var t := SkipBlanks(s);
    sign := if t != "" && t[0] == '+' then "+" else "";
    u := t[|sign|..];
    assert t == sign + u;
    limit := 0x8000_0000_0000_0000;
  }

  /** Every text that says so is decoded to it. */
  lemma WhatIsSaidIsDecoded(f: Form, p: Params, salt: seq<Byte>, key: seq<Byte>)
    requires Says(f, p, salt, key)
    ensures DecodeHash(Text(f)) == Hash(p, salt, key)
  {
    hide Numeral, DecodeParts, Split, Join, Encode, Decode, SkipLineBreaks, DigitsValue, Version, AfterM, AfterT, Says;
    var parts := PartsOf(f);
    PartsAreDecoded(f, p, salt, key);
    NoDollarIn(f, p, salt, key);
    JoinSix(parts[0], parts[1], parts[2], parts[3], parts[4], parts[5]);
    SplitJoined(parts);
  }

  ghost function PartsOf(f: Form): (parts: seq<string>)
    ensures |parts| == 6
  {
    ["", "argon2id", "v=" + Version(f), "m=" + (f.mBlanks + f.m + AfterM(f)), f.salt, f.key]
  }

  lemma NoDollarIn(f: Form, p: Params, salt: seq<Byte>, key: seq<Byte>)
    requires Says(f, p, salt, key)
    ensures forall part :: part in PartsOf(f) ==> '$' !in part
  {
    hide DigitsValue, Encode, SkipLineBreaks;
    assert '$' !in Version(f);
    assert '$' !in AfterT(f);
    assert '$' !in AfterM(f);
  }

  lemma CostIsDecoded(f: Form, p: Params, salt: seq<Byte>, key: seq<Byte>)
    requires Says(f, p, salt, key)
    ensures DecodeCost("m=" + (f.mBlanks + f.m + AfterM(f))) == Some((p.memoryKiB, p.iterations, p.parallelism))
  {
    hide Numeral, DigitsValue, ScanUint, Encode, SkipLineBreaks;
    NumeralIsScanned(f.mBlanks + f.m + AfterM(f), f.mBlanks, f.m, AfterM(f), UINT32);
    NumeralIsScanned(f.tBlanks + f.t + AfterT(f), f.tBlanks, f.t, AfterT(f), UINT32);
    NumeralIsScanned(f.pBlanks + f.p + f.pRest, f.pBlanks, f.p, f.pRest, UINT8);
    FieldAfter("m=", f.mBlanks + f.m + AfterM(f), UINT32);
    FieldAfter(",t=", f.tBlanks + f.t + AfterT(f), UINT32);
    FieldAfter(",p=", f.pBlanks + f.p + f.pRest, UINT8);
  }

  lemma FieldAfter(prefix: string, s: string, limit: nat)
    ensures ScanField(prefix + s, prefix, limit) == ScanUint(s, limit)
  {
    assert (prefix + s)[|prefix|..] == s;
  }

  lemma PartsAreDecoded(f: Form, p: Params, salt: seq<Byte>, key: seq<Byte>)
    requires Says(f, p, salt, key)
    ensures DecodeParts(PartsOf(f)) == Hash(p, salt, key)
  {
    hide Numeral, Encode, Decode, SkipLineBreaks, DigitsValue, DecodeCost, ScanInt, AfterM, AfterT;
    CostIsDecoded(f, p, salt, key);
    SignedIsScanned(f.vBlanks, f.sign, f.v, f.vRest);
    assert ("v=" + Version(f))[2..] == Version(f);
    DecodeIsInverse(f.salt, salt);
    DecodeIsInverse(f.key, key);
  }

  lemma FieldIsThere(s: string, prefix: string, limit: nat) returns (blanks: string, digits: string)
    requires ScanField(s, prefix, limit).Number?
    ensures var n := ScanField(s, prefix, limit);
            && s == prefix + (blanks + digits + n.rest)
            && Numeral(blanks + digits + n.rest, blanks, digits, n.rest) && DigitsValue(digits) == n.value < limit
  {
    hide ScanUint, DigitsValue;
    var rest := s[|prefix|..];
    assert s == prefix + rest;
    blanks, digits := ScannedIsNumeral(rest, limit);
    NumeralIs(rest, blanks, digits, ScanUint(rest, limit).rest);
  }

  lemma NumeralIs(s: string, blanks: string, digits: string, rest: string)
    requires Numeral(s, blanks, digits, rest)
    ensures s == blanks + digits + rest
  {
  }

  /** And whatever is decoded to it says so. */
  lemma WhatIsDecodedIsSaid(encoded: string, p: Params, salt: seq<Byte>, key: seq<Byte>) returns (f: Form)
    requires DecodeHash(encoded) == Hash(p, salt, key)
    ensures encoded == Text(f) && Says(f, p, salt, key)
  {
    hide Numeral, Split, Join, Encode, Decode, SkipLineBreaks, DigitsValue, ScanField, ScanInt;
    var parts := Split(encoded);
    SplitThenJoin(encoded);
    var vb, sign, v, vr := ScannedIsSigned(parts[2][2..]);
    var mb, m := FieldIsThere(parts[3], "m=", UINT32);
    var afterM := ScanField(parts[3], "m=", UINT32).rest;
    var tb, t := FieldIsThere(afterM, ",t=", UINT32);
    var afterT := ScanField(afterM, ",t=", UINT32).rest;
    var pb, pd := FieldIsThere(afterT, ",p=", UINT8);
    var pr := ScanField(afterT, ",p=", UINT8).rest;
    f := Form(vb, sign, v, vr, mb, m, tb, t, pb, pd, pr, parts[4], parts[5]);
    assert AfterT(f) == afterT && AfterM(f) == afterM;
    assert parts[2] == "v=" + Version(f);
    DecodeIsInverse(parts[4], salt);
    DecodeIsInverse(parts[5], key);
    assert parts == [parts[0], parts[1], parts[2], parts[3], parts[4], parts[5]];
    JoinSix(parts[0], parts[1], parts[2], parts[3], parts[4], parts[5]);
    assert parts[2] in parts && parts[3] in parts && parts[4] in parts && parts[5] in parts;
    InTail("v=", vb + sign + v, vr);
    InTail("m=", mb + m, afterM);
    InTail(",t=", tb + t, afterT);
    InTail(",p=", pb + pd, pr);
  }

  lemma InTail(prefix: string, s: string, tail: string)
    ensures forall c :: c in tail ==> c in prefix + (s + tail)
  {
    var whole := prefix + (s + tail);
    assert forall i :: 0 <= i < |tail| ==> tail[i] == whole[|whole| - |tail| + i];
  }

  /** A text is refused as incompatible, not as malformed, exactly if it has the
      six parts but names another algorithm or a version other than 19. */
  lemma IncompatibleExactly(encoded: string)
    ensures DecodeHash(encoded).Incompatible? <==>
              var parts := Split(encoded);
              && |parts| == 6 && parts[0] == ""
              && (parts[1] == "argon2id" ==>
                    && |parts[2]| >= 2 && parts[2][..2] == "v="
                    && ScanInt(parts[2][2..]).Some? && ScanInt(parts[2][2..]) != Some(19))
  {
    hide Split, ScanInt, DecodeCost, Decode;
  }

  lemma CostBack(p: Params)
    requires InRange(p)
    ensures DecodeCost(Cost(p)) == Some((p.memoryKiB, p.iterations, p.parallelism))
  {
    var afterT := ",p=" + Decimal(p.parallelism);
    var afterM := ",t=" + Decimal(p.iterations) + afterT;
    assert Cost(p) == "m=" + Decimal(p.memoryKiB) + afterM;
    assert afterT == ",p=" + Decimal(p.parallelism) + "";
    ScanPrinted("m=", p.memoryKiB, afterM, UINT32);
    ScanPrinted(",t=", p.iterations, afterT, UINT32);
    ScanPrinted(",p=", p.parallelism, "", UINT8);
  }

  lemma NoDollar(p: Params, bytes: seq<Byte>)
    ensures '$' !in Cost(p) && '$' !in Encode(bytes)
  {
    DecimalReads(p.memoryKiB);
    DecimalReads(p.iterations);
    DecimalReads(p.parallelism);
    EncodedIsBase64(bytes);
  }

  lemma VersionBack()
    ensures DecodeVersion("v=" + Decimal(ARGON2_VERSION)) == Some(ARGON2_VERSION)
    ensures '$' !in "v=" + Decimal(ARGON2_VERSION)
  {
    hide Decimal, DigitsValue, DigitCount;
    var digits := Decimal(ARGON2_VERSION);
    DecimalReads(ARGON2_VERSION);
    DigitCountOf(digits, "");
    assert digits + "" == digits && ("v=" + digits)[2..] == digits && digits[..|digits|] == digits;
    assert digits[0] in digits;
  }

  /** A printed hash reads back as what was printed, for all parameters a hash
      can have been made under. */
  lemma PrintThenDecode(p: Params, salt: seq<Byte>, key: seq<Byte>)
    requires InRange(p) && 0 < |salt| == p.saltLength && 0 < |key| == p.keyLength
    ensures DecodeHash(Print(p, salt, key)) == Hash(p, salt, key)
  {
    hide Split, Join, Parts, DecodeParts;
    PartsHaveNoDollar(p, salt, key);
    SplitJoined(Parts(p, salt, key));
    PartsBack(p, salt, key);
  }

  lemma PartsHaveNoDollar(p: Params, salt: seq<Byte>, key: seq<Byte>)
    ensures forall part :: part in Parts(p, salt, key) ==> '$' !in part
  {
    VersionBack();
    NoDollar(p, salt);
    NoDollar(p, key);
    hide Decimal, Cost, Encode;
    var parts := Parts(p, salt, key);
    forall part | part in parts ensures '$' !in part {
      var i :| 0 <= i < 6 && parts[i] == part;
    }
  }

  lemma PartsBack(p: Params, salt: seq<Byte>, key: seq<Byte>)
    requires InRange(p) && 0 < |salt| == p.saltLength && 0 < |key| == p.keyLength
    ensures DecodeParts(Parts(p, salt, key)) == Hash(p, salt, key)
  {
    hide Decimal, Cost, DecodeVersion, DecodeCost, Encode, Decode;
    VersionBack();
    CostBack(p);
    DecodeEncoded(salt);
    DecodeEncoded(key);
  }

  // ---------------------------------------------------------------------
  // Verification
  // ---------------------------------------------------------------------

  /** Argon2id: a key for a password, a salt and parameters. */
  type Derive = (string, seq<Byte>, Params) -> seq<Byte>

  datatype Verdict = Checked(matches: bool, needsRehash: bool) | Malformed(why: Decoded)

  function HashPassword(derive: Derive, salt: seq<Byte>, password: string): string {
    Print(ARGON2_PARAMS, salt, derive(password, salt, ARGON2_PARAMS))
  }

  function VerifyPassword(derive: Derive, encoded: string, password: string): Verdict {
    match DecodeHash(encoded)
    case Hash(stored, salt, key) =>
      if derive(password, salt, stored) != key then Checked(false, false)
      else Checked(true, stored != ARGON2_PARAMS)
    case why => Malformed(why)
  }

  /** Any stored text, and what verifying against it says. */
  lemma VerdictOn(derive: Derive, encoded: string, password: string, p: Params, salt: seq<Byte>, key: seq<Byte>)
    requires DecodeHash(encoded) == Hash(p, salt, key)
    ensures VerifyPassword(derive, encoded, password)
         == if derive(password, salt, p) == key then Checked(true, p != Params(19456, 2, 1, 16, 32))
            else Checked(false, false)
  {
    hide DecodeHash;
  }

  lemma FreshForm(derive: Derive, salt: seq<Byte>, password: string)
    ensures HashPassword(derive, salt, password)
         == "$argon2id$v=19$m=19456,t=2,p=1$" + Encode(salt) + "$"
            + Encode(derive(password, salt, Params(19456, 2, 1, 16, 32)))
  {
    hide Encode, Print;
    var key := derive(password, salt, ARGON2_PARAMS);
    PrintedForm(ARGON2_PARAMS, salt, key);
    assert Decimal(19456) == "19456" && Decimal(2) == "2" && Decimal(1) == "1";
    hide Decimal;
    assert "$argon2id$v=19$m=" + "19456" + ",t=" + "2" + ",p=" + "1" + "$" == "$argon2id$v=19$m=19456,t=2,p=1$";
  }

  /** A hash made under any past parameters still verifies: it matches exactly
      the passwords that derive the same key, and asks to be replaced exactly if
      its parameters are not the current ones. */
  lemma PastHashesVerify(derive: Derive, p: Params, salt: seq<Byte>, password: string, attempt: string)
    requires InRange(p) && 0 < |salt| == p.saltLength && 0 < |derive(password, salt, p)| == p.keyLength
    ensures var stored := Print(p, salt, derive(password, salt, p));
            && VerifyPassword(derive, stored, password) == Checked(true, p != ARGON2_PARAMS)
            && (VerifyPassword(derive, stored, attempt) == Checked(true, p != ARGON2_PARAMS) <==>
                  derive(attempt, salt, p) == derive(password, salt, p))
            && (VerifyPassword(derive, stored, attempt) == Checked(false, false) <==>
                  derive(attempt, salt, p) != derive(password, salt, p))
  {
    PrintThenDecode(p, salt, derive(password, salt, p));
  }

  /** So a fresh hash verifies and asks for nothing. */
  lemma FreshHashVerifies(derive: Derive, salt: seq<Byte>, password: string)
    requires |salt| == ARGON2_PARAMS.saltLength && |derive(password, salt, ARGON2_PARAMS)| == ARGON2_PARAMS.keyLength
    ensures VerifyPassword(derive, HashPassword(derive, salt, password), password) == Checked(true, false)
  {
    PastHashesVerify(derive, ARGON2_PARAMS, salt, password, password);
  }
}
