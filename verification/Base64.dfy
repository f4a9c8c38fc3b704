/** Base64 without padding, as the stored hashes use it: the alphabet of section
    4 of RFC 4648, no padding (section 3.2), strict about leftover bits
    (section 3.5), line breaks in the input skipped. */
module Base64 {

  type Byte = b: int | 0 <= b < 256

  type Sextet = v: int | 0 <= v < 64

  datatype Option<T> = None | Some(value: T)

  function Char(v: Sextet): char {
    if v < 26 then (v + 'A' as int) as char
    else if v < 52 then (v - 26 + 'a' as int) as char
    else if v < 62 then (v - 52 + '0' as int) as char
    else if v == 62 then '+' else '/'
  }

  predicate IsBase64(c: char) {
    'A' <= c <= 'Z' || 'a' <= c <= 'z' || '0' <= c <= '9' || c == '+' || c == '/'
  }

  function Value(c: char): Sextet
    requires IsBase64(c)
  {
    if 'A' <= c <= 'Z' then c as int - 'A' as int
    else if 'a' <= c <= 'z' then c as int - 'a' as int + 26
    else if '0' <= c <= '9' then c as int - '0' as int + 52
    else if c == '+' then 62 else 63
  }

  lemma CharValue(v: Sextet)
    ensures IsBase64(Char(v)) && Value(Char(v)) == v
  {
  }

  lemma ValueChar(c: char)
    requires IsBase64(c)
    ensures Char(Value(c)) == c
  {
  }

  // Three bytes are the same 24 bits as four groups of six. A byte that is
  // missing at the end counts as zero.

  function First(a: Byte): Sextet { a / 4 }
  function Second(a: Byte, b: Byte): Sextet { a % 4 * 16 + b / 16 }
  function Third(b: Byte, c: Byte): Sextet { b % 16 * 4 + c / 64 }
  function Fourth(c: Byte): Sextet { c % 64 }

  function ByteA(v0: Sextet, v1: Sextet): Byte { v0 * 4 + v1 / 16 }
  function ByteB(v1: Sextet, v2: Sextet): Byte { v1 % 16 * 16 + v2 / 4 }
  function ByteC(v2: Sextet, v3: Sextet): Byte { v2 % 4 * 64 + v3 }

  lemma BytesBack(a: Byte, b: Byte, c: Byte)
    ensures ByteA(First(a), Second(a, b)) == a
    ensures ByteB(Second(a, b), Third(b, c)) == b
    ensures ByteC(Third(b, c), Fourth(c)) == c
    ensures Second(a, 0) % 16 == 0 && Third(b, 0) % 4 == 0
  {
    hide ByteA, ByteB, ByteC, First, Second, Third, Fourth;
    FirstByteBack(a, b);
    SecondByteBack(a, b, c);
    ThirdByteBack(b, c);
    MissingBytesAreZero(a, b);
  }

  lemma FirstByteBack(a: Byte, b: Byte)
    ensures ByteA(First(a), Second(a, b)) == a
  {
    assert Second(a, b) / 16 == a % 4;
  }

  lemma SecondByteBack(a: Byte, b: Byte, c: Byte)
    ensures ByteB(Second(a, b), Third(b, c)) == b
  {
    assert Second(a, b) % 16 == b / 16;
    assert Third(b, c) / 4 == b % 16;
  }

  lemma ThirdByteBack(b: Byte, c: Byte)
    ensures ByteC(Third(b, c), Fourth(c)) == c
  {
    var low, high := c / 64, b % 16;
    assert Third(b, c) == high * 4 + low && 0 <= low < 4;
    assert (high * 4 + low) % 4 == low;
  }

  lemma MissingBytesAreZero(a: Byte, b: Byte)
    ensures Second(a, 0) % 16 == 0 && Third(b, 0) % 4 == 0
  {
  }

  lemma SextetsBack(v0: Sextet, v1: Sextet, v2: Sextet, v3: Sextet)
    ensures First(ByteA(v0, v1)) == v0
    ensures Second(ByteA(v0, v1), ByteB(v1, v2)) == v1
    ensures Third(ByteB(v1, v2), ByteC(v2, v3)) == v2
    ensures Fourth(ByteC(v2, v3)) == v3
    ensures v1 % 16 == 0 ==> Second(ByteA(v0, v1), 0) == v1
    ensures v2 % 4 == 0 ==> Third(ByteB(v1, v2), 0) == v2
  {
  }

  function Encode(b: seq<Byte>): string {
    if |b| == 0 then ""
    else if |b| == 1 then [Char(First(b[0])), Char(Second(b[0], 0))]
    else if |b| == 2 then [Char(First(b[0])), Char(Second(b[0], b[1])), Char(Third(b[1], 0))]
    else
      [Char(First(b[0])), Char(Second(b[0], b[1])), Char(Third(b[1], b[2])), Char(Fourth(b[2]))] + Encode(b[3..])
  }

  predicate IsLineBreak(c: char) {
    c == '\r' || c == '\n'
  }

  function SkipLineBreaks(s: string): string {
    if s == "" then ""
    else if IsLineBreak(s[0]) then SkipLineBreaks(s[1..])
    else [s[0]] + SkipLineBreaks(s[1..])
  }

  function Decode(s: string): Option<seq<Byte>> {
    DecodeClean(SkipLineBreaks(s))
  }

  /** A last group of one character, a character outside the alphabet and
      leftover bits that are not zero are errors. */
  function DecodeClean(s: string): Option<seq<Byte>> {
    if s == "" then Some([])
    else if |s| == 1 || !IsBase64(s[0]) || !IsBase64(s[1]) then None
    else
      var v0, v1 := Value(s[0]), Value(s[1]);
      if |s| == 2 then
        if v1 % 16 == 0 then Some([ByteA(v0, v1)]) else None
      else if !IsBase64(s[2]) then None
      else
        var v2 := Value(s[2]);
        if |s| == 3 then
          if v2 % 4 == 0 then Some([ByteA(v0, v1), ByteB(v1, v2)]) else None
        else if !IsBase64(s[3]) then None
        else
          match DecodeClean(s[4..])
          case None => None
          case Some(rest) =>
            Some([ByteA(v0, v1), ByteB(v1, v2), ByteC(v2, Value(s[3]))] + rest)
  }

  lemma {:induction false} EncodeThenDecode(b: seq<Byte>)
    ensures DecodeClean(Encode(b)) == Some(b)
  {
    hide Char, IsBase64, Value, First, Second, Third, Fourth, ByteA, ByteB, ByteC;
    if |b| == 1 {
      BytesBack(b[0], 0, 0);
      CharValue(First(b[0]));
      CharValue(Second(b[0], 0));
      assert b == [b[0]];
    } else if |b| == 2 {
      BytesBack(b[0], b[1], 0);
      CharValue(First(b[0]));
      CharValue(Second(b[0], b[1]));
      CharValue(Third(b[1], 0));
      assert b == [b[0], b[1]];
    } else if |b| > 2 {
      BytesBack(b[0], b[1], b[2]);
      CharValue(First(b[0]));
      CharValue(Second(b[0], b[1]));
      CharValue(Third(b[1], b[2]));
      CharValue(Fourth(b[2]));
      EncodeThenDecode(b[3..]);
      assert Encode(b)[4..] == Encode(b[3..]);
      assert b == [b[0], b[1], b[2]] + b[3..];
    }
  }

  lemma {:induction false} DecodeThenEncode(s: string)
    requires DecodeClean(s).Some?
    ensures Encode(DecodeClean(s).value) == s
  {
    hide Char, IsBase64, Value, First, Second, Third, Fourth, ByteA, ByteB, ByteC;
    if s != "" {
      ValueChar(s[0]);
      ValueChar(s[1]);
      var v0, v1 := Value(s[0]), Value(s[1]);
      if |s| == 2 {
        SextetsBack(v0, v1, 0, 0);
      } else {
        ValueChar(s[2]);
        var v2 := Value(s[2]);
        if |s| == 3 {
          SextetsBack(v0, v1, v2, 0);
        } else {
          ValueChar(s[3]);
          SextetsBack(v0, v1, v2, Value(s[3]));
          DecodeThenEncode(s[4..]);
          assert DecodeClean(s).value[3..] == DecodeClean(s[4..]).value;
          assert s == [s[0], s[1], s[2], s[3]] + s[4..];
        }
      }
    }
  }

  /** The six bits the i-th character stands for, out of two bytes. */
  ghost function Six(b: seq<Byte>, i: nat): int
    requires 6 * i / 8 < |b|
  {
    var j := 6 * i / 8;
    var high: int, low: int := b[j], if j + 1 < |b| then b[j + 1] else 0;
    (high * 256 + low) / (match i % 4 case 0 => 1024 case 1 => 16 case 2 => 64 case _ => 256) % 64
  }

  lemma SixLater(b: seq<Byte>, i: nat)
    requires i >= 4 && 6 * i / 8 < |b|
    ensures 6 * (i - 4) / 8 < |b[3..]| && Six(b, i) == Six(b[3..], i - 4)
  {
    assert 6 * i / 8 == 6 * (i - 4) / 8 + 3 && i % 4 == (i - 4) % 4;
  }

  lemma By16(q: int, r: int)
    requires 0 <= r < 16
    ensures (16 * q + r) / 16 == q
  {
  }

  lemma By64(q: int, r: int)
    requires 0 <= r < 64
    ensures (64 * q + r) / 64 == q && (64 * q + r) % 64 == r
  {
  }

  lemma By256(q: int, r: int)
    requires 0 <= r < 256
    ensures (256 * q + r) / 256 == q
  {
  }

  lemma By1024(q: int, r: int)
    requires 0 <= r < 1024
    ensures (1024 * q + r) / 1024 == q
  {
  }

  lemma FirstOfTwo(a: Byte, low: Byte)
    ensures var high: int, x: int := a, low; (high * 256 + x) / 1024 % 64 == First(a)
  {
    var high: int, x: int := a, low;
    By1024(high / 4, high % 4 * 256 + x);
    assert high * 256 + x == 1024 * (high / 4) + (high % 4 * 256 + x);
    By64(0, high / 4);
  }

  lemma SecondOfTwo(a: Byte, low: Byte)
    ensures var high: int, x: int := a, low; (high * 256 + x) / 16 % 64 == Second(a, low)
  {
    var high: int, x: int := a, low;
    By16(high * 16 + x / 16, x % 16);
    assert high * 256 + x == 16 * (high * 16 + x / 16) + x % 16;
    By64(high / 4, high % 4 * 16 + x / 16);
    assert high * 16 + x / 16 == 64 * (high / 4) + (high % 4 * 16 + x / 16);
  }

  lemma ThirdOfTwo(a: Byte, low: Byte)
    ensures var high: int, x: int := a, low; (high * 256 + x) / 64 % 64 == Third(a, low)
  {
    var high: int, x: int := a, low;
    By64(high * 4 + x / 64, x % 64);
    assert high * 256 + x == 64 * (high * 4 + x / 64) + x % 64;
    By64(high / 16, high % 16 * 4 + x / 64);
    assert high * 4 + x / 64 == 64 * (high / 16) + (high % 16 * 4 + x / 64);
  }

  lemma FourthOfTwo(a: Byte, low: Byte)
    ensures var high: int, x: int := a, low; (high * 256 + x) / 256 % 64 == Fourth(a)
  {
    var high: int, x: int := a, low;
    By256(high, x);
  }

  lemma {:induction false} EncodesSix(b: seq<Byte>, i: nat)
    ensures |Encode(b)| == (8 * |b| + 5) / 6
    ensures i < |Encode(b)| ==> 6 * i / 8 < |b| && 0 <= Six(b, i) < 64 && Encode(b)[i] == Char(Six(b, i))
    decreases |b|
  {
    hide Char, Six, First, Second, Third, Fourth;
    if |b| >= 3 {
      EncodesSix(b[3..], if i >= 4 then i - 4 else 0);
      if i < 4 {
        FirstSix(b, i);
      } else if i < |Encode(b)| {
        SixLater(b, i);
      }
    } else if i < |Encode(b)| {
      FirstSix(b, i);
    }
  }

  lemma FirstSix(b: seq<Byte>, i: nat)
    requires i < 4 && i < |Encode(b)|
    ensures 6 * i / 8 < |b| && 0 <= Six(b, i) < 64 && Encode(b)[i] == Char(Six(b, i))
  {
    hide Char, First, Second, Third, Fourth;
    var j := 6 * i / 8;
    var low := if j + 1 < |b| then b[j + 1] else 0;
    FirstOfTwo(b[j], low);
    SecondOfTwo(b[j], low);
    ThirdOfTwo(b[j], low);
    FourthOfTwo(b[j], low);
    SixIs(b, i);
  }

  lemma SixIs(b: seq<Byte>, i: nat)
    requires 6 * i / 8 < |b| && i < 4
    ensures var j := 6 * i / 8;
            var high: int, low: int := b[j], if j + 1 < |b| then b[j + 1] else 0;
            && (i == 0 ==> Six(b, i) == (high * 256 + low) / 1024 % 64)
            && (i == 1 ==> Six(b, i) == (high * 256 + low) / 16 % 64)
            && (i == 2 ==> Six(b, i) == (high * 256 + low) / 64 % 64)
            && (i == 3 ==> Six(b, i) == (high * 256 + low) / 256 % 64)
  {
  }

  /** What encoding is: a byte is eight bits, a character stands for the next six
      of them, zeros fill the last one up. */
  lemma EncodesBits(b: seq<Byte>, i: nat)
    ensures |Encode(b)| == (8 * |b| + 5) / 6
    ensures i < |Encode(b)| ==> 6 * i / 8 < |b|
    ensures i < |Encode(b)| ==>
              var j, c := 6 * i / 8, Encode(b)[i] as int;
              var high: int, low: int := b[j], if j + 1 < |b| then b[j + 1] else 0;
              var v := (high * 256 + low) / (match i % 4 case 0 => 1024 case 1 => 16 case 2 => 64 case _ => 256) % 64;
              c == if v < 26 then 'A' as int + v else if v < 52 then 'a' as int + (v - 26)
                   else if v < 62 then '0' as int + (v - 52) else if v == 62 then '+' as int else '/' as int
  {
    hide Encode;
    EncodesSix(b, i);
  }

  lemma SkipOne(s: string)
    requires s != ""
    ensures SkipLineBreaks(s) == (if s[0] == '\r' || s[0] == '\n' then "" else [s[0]]) + SkipLineBreaks(s[1..])
  {
  }

  /** Exactly carriage returns and line feeds are skipped. */
  lemma {:induction false} SkipsOnlyLineBreaks(a: string, c: char, rest: string)
    ensures SkipLineBreaks("") == ""
    ensures SkipLineBreaks(a + [c] + rest)
         == SkipLineBreaks(a) + (if c == '\r' || c == '\n' then "" else [c]) + SkipLineBreaks(rest)
  {
    var s := a + [c] + rest;
    if a == "" {
      assert s[0] == c && s[1..] == rest;
    } else {
      SkipsOnlyLineBreaks(a[1..], c, rest);
      assert s[0] == a[0] && s[1..] == a[1..] + [c] + rest;
      hide SkipLineBreaks;
      SkipOne(s);
      SkipOne(a);
    }
  }

  lemma {:induction false} NothingToSkip(s: string)
    requires forall c :: c in s ==> !IsLineBreak(c)
    ensures SkipLineBreaks(s) == s
  {
    if s != "" {
      NothingToSkip(s[1..]);
    }
  }

  lemma {:induction false} EncodedIsBase64(b: seq<Byte>)
    ensures forall c :: c in Encode(b) ==> IsBase64(c)
    ensures b != [] ==> Encode(b) != ""
  {
    if |b| >= 3 {
      EncodedIsBase64(b[3..]);
    }
  }

  /** Strict decoding accepts, up to line breaks, exactly the encodings: a text
      decodes to some bytes if and only if it is what they encode to. */
  lemma DecodeIsInverse(s: string, b: seq<Byte>)
    ensures Decode(s) == Some(b) <==> SkipLineBreaks(s) == Encode(b)
  {
    EncodeThenDecode(b);
    if Decode(s) == Some(b) {
      DecodeThenEncode(SkipLineBreaks(s));
    }
  }

  lemma DecodeEncoded(b: seq<Byte>)
    ensures Decode(Encode(b)) == Some(b)
  {
    EncodedIsBase64(b);
    NothingToSkip(Encode(b));
    EncodeThenDecode(b);
  }
}
