/** The text of HTTP headers: lines, white space, numbers, casing and encoding. */
module HttpText {
  import opened Common

  type bytes = seq<byte>

  const CR: byte := 13
  const LF: byte := 10
  const CRLF: bytes := [CR, LF]

  // ---------- Lines ----------

  function IndexOf(s: bytes, b: byte): (r: Option<nat>)
    ensures r.Some? ==> r.value < |s| && s[r.value] == b && b !in s[..r.value]
    ensures r.None? ==> b !in s
  {
    if s == [] then None else if s[0] == b then Some(0) else
    match IndexOf(s[1..], b)
    case None => None
    case Some(i) => assert s[..i + 1] == [s[0]] + s[1..][..i]; Some(i + 1)
  }

  function StripCr(s: bytes): bytes {
    if s != [] && s[|s| - 1] == CR then s[..|s| - 1] else s
  }

  /** `str::lines`. */
  function Lines(s: bytes): seq<bytes> {
    if s == [] then [] else
    match IndexOf(s, LF)
    case None => [s]
    case Some(i) => [StripCr(s[..i])] + Lines(s[i + 1..])
  }

  predicate Plain(line: bytes) {
    CR !in line && LF !in line
  }

  /** Lines with a line break between each two. */
  function JoinLines(lines: seq<bytes>): bytes
    requires |lines| > 0
  {
    if |lines| == 1 then lines[0] else lines[0] + (CRLF + JoinLines(lines[1..]))
  }

  lemma {:induction false} IndexOfFirst(a: bytes, b: byte, rest: bytes)
    requires b !in a
    ensures IndexOf(a + ([b] + rest), b) == Some(|a|)
  {
    var s := a + ([b] + rest);
    if a != [] {
      assert s[1..] == a[1..] + ([b] + rest);
      IndexOfFirst(a[1..], b, rest);
    }
  }

  lemma LineAtFeed(line: bytes, rest: bytes, s: bytes)
    requires LF !in line && s == line + ([LF] + rest)
    ensures Lines(s) == [StripCr(line)] + Lines(rest)
  {
    IndexOfFirst(line, LF, rest);
    assert s[..|line|] == line && s[|line| + 1..] == rest;
  }

  lemma BreakIsFeed(line: bytes, rest: bytes)
    ensures line + (CRLF + rest) == (line + [CR]) + ([LF] + rest)
    ensures StripCr(line + [CR]) == line
  {
    assert CRLF + rest == [CR] + ([LF] + rest);
    assert (line + [CR])[..|line|] == line;
  }

  lemma LineAtBreak(line: bytes, rest: bytes, s: bytes)
    requires LF !in line && s == line + (CRLF + rest)
    ensures Lines(s) == [line] + Lines(rest)
  {
    BreakIsFeed(line, rest);
    LineAtFeed(line + [CR], rest, s);
  }

  lemma LastLine(line: bytes)
    requires LF !in line && line != []
    ensures Lines(line) == [line]
  {
  }

  /** A line ends at a line feed, with or without a carriage return before it, or where the text ends. */
  lemma FirstLine(line: bytes, rest: bytes)
    requires Plain(line)
    ensures Lines(line + (CRLF + rest)) == [line] + Lines(rest)
    ensures Lines(line + ([LF] + rest)) == [line] + Lines(rest)
    ensures line != [] ==> Lines(line) == [line]
  {
    LineAtBreak(line, rest, line + (CRLF + rest));
    LineAtFeed(line, rest, line + ([LF] + rest));
    if line != [] {
      LastLine(line);
    }
  }

  /** The lines of joined lines are these lines; the last must not be empty, as a final line break adds no line. */
  lemma {:induction false} LinesOfJoined(lines: seq<bytes>)
    requires |lines| > 0 && lines[|lines| - 1] != [] && forall i :: 0 <= i < |lines| ==> Plain(lines[i])
    ensures Lines(JoinLines(lines)) == lines
  {
    if |lines| == 1 {
      FirstLine(lines[0], []);
      assert lines == [lines[0]];
    } else {
      LinesOfJoined(lines[1..]);
      FirstLine(lines[0], JoinLines(lines[1..]));
      assert lines == [lines[0]] + lines[1..];
    }
  }

  // ---------- White space ----------

  /** Tab, line feed, vertical tab, form feed, carriage return and space. */
  const WHITE_SPACE: bytes := [9, 10, 11, 12, 13, 32]

  predicate AllWhite(s: bytes) {
    forall i :: 0 <= i < |s| ==> s[i] in WHITE_SPACE
  }

  predicate IsSpace(b: byte) { b == 32 || 9 <= b <= 13 }

  function TrimStart(s: bytes): bytes {
    if s != [] && IsSpace(s[0]) then TrimStart(s[1..]) else s
  }

  function TrimEnd(s: bytes): bytes {
    if s != [] && IsSpace(s[|s| - 1]) then TrimEnd(s[..|s| - 1]) else s
  }

  function Trim(s: bytes): bytes { TrimEnd(TrimStart(s)) }

  lemma SpaceIsWhite(b: byte)
    ensures IsSpace(b) <==> b in WHITE_SPACE
  {
    assert b in WHITE_SPACE ==> exists i :: 0 <= i < 6 && WHITE_SPACE[i] == b;
    assert IsSpace(b) ==> b == WHITE_SPACE[if b == 32 then 5 else b - 9];
  }

  lemma {:induction false} TrimStartCuts(s: bytes) returns (a: bytes)
    ensures s == a + TrimStart(s) && AllWhite(a)
    ensures TrimStart(s) != [] ==> TrimStart(s)[0] !in WHITE_SPACE
  {
    a := [];
    if s != [] {
      SpaceIsWhite(s[0]);
      if IsSpace(s[0]) {
        var b := TrimStartCuts(s[1..]);
        a := [s[0]] + b;
      }
    }
  }

  lemma {:induction false} TrimEndCuts(s: bytes) returns (b: bytes)
    ensures s == TrimEnd(s) + b && AllWhite(b)
    ensures TrimEnd(s) != [] ==> TrimEnd(s)[|TrimEnd(s)| - 1] !in WHITE_SPACE && TrimEnd(s)[0] == s[0]
  {
    b := [];
    if s != [] {
      var n := |s| - 1;
      SpaceIsWhite(s[n]);
      if IsSpace(s[n]) {
        var c := TrimEndCuts(s[..n]);
        b := c + [s[n]];
      }
    }
  }

  /** Trimming cuts off white space on both sides, and all of it. */
  lemma TrimCuts(s: bytes) returns (a: bytes, b: bytes)
    ensures s == a + Trim(s) + b && AllWhite(a) && AllWhite(b)
    ensures Trim(s) != [] ==> Trim(s)[0] !in WHITE_SPACE && Trim(s)[|Trim(s)| - 1] !in WHITE_SPACE
  {
    a := TrimStartCuts(s);
    b := TrimEndCuts(TrimStart(s));
    assert a + (Trim(s) + b) == a + Trim(s) + b;
  }

  // ---------- Numbers ----------

  predicate IsDigit(b: byte) { 48 <= b <= 57 }

  function Digits(s: bytes): (n: Option<nat>) {
    if s == [] then Some(0) else
    var init := Digits(s[..|s| - 1]);
    var last := s[|s| - 1];
    if init.None? || !IsDigit(last) then None else Some(10 * init.value + (last - 48))
  }

  /** Without a leading plus sign that something follows. */
  function Unsigned(s: bytes): bytes {
    if |s| > 1 && s[0] == 43 then s[1..] else s
  }

  /** `str::parse` for a 64-bit unsigned number: an optional plus sign, then digits, no overflow. */
  function ParseU64(s: bytes): Option<nat> {
    var d := Unsigned(s);
    if d == [] || Digits(d).None? || Digits(d).value >= 0x1_0000_0000_0000_0000 then None else Digits(d)
  }

  function Decimal(n: nat): (s: bytes)
    ensures s != [] && forall i :: 0 <= i < |s| ==> IsDigit(s[i])
  {
    if n < 10 then [48 + n] else Decimal(n / 10) + [48 + n % 10]
  }

  lemma {:induction false} DigitsDecimal(n: nat)
    ensures Digits(Decimal(n)) == Some(n)
  {
    if n >= 10 {
      DigitsDecimal(n / 10);
      assert Decimal(n)[..|Decimal(n)| - 1] == Decimal(n / 10);
    }
  }

  lemma TrimDecimal(n: nat)
    ensures Trim([32] + Decimal(n)) == Decimal(n)
  {
    var d := Decimal(n);
    assert ([32] + d)[1..] == d;
    assert IsDigit(d[0]) && IsDigit(d[|d| - 1]);
    assert TrimStart(d) == d;
  }

  lemma ParseDecimal(n: nat)
    requires n < 0x1_0000_0000_0000_0000
    ensures ParseU64(Decimal(n)) == Some(n)
  {
    DigitsDecimal(n);
    assert IsDigit(Decimal(n)[0]);
  }

  function Zeros(k: nat): bytes {
    if k == 0 then [] else Zeros(k - 1) + [48]
  }

  lemma {:induction false} DigitsOfZeros(k: nat)
    ensures Digits(Zeros(k)) == Some(0)
  {
    if k > 0 {
      DigitsOfZeros(k - 1);
      assert Zeros(k)[..|Zeros(k)| - 1] == Zeros(k - 1);
    }
  }

  lemma {:induction false} DigitsPadded(k: nat, n: nat)
    ensures Digits(Zeros(k) + Decimal(n)) == Some(n)
  {
    var s := Zeros(k) + Decimal(n);
    if n >= 10 {
      DigitsPadded(k, n / 10);
      assert s[..|s| - 1] == Zeros(k) + Decimal(n / 10);
    } else {
      DigitsOfZeros(k);
      assert s[..|s| - 1] == Zeros(k);
    }
  }

  lemma {:induction false} DigitsArePadded(s: bytes) returns (k: nat)
    requires s != [] && Digits(s).Some?
    ensures s == Zeros(k) + Decimal(Digits(s).value)
  {
    var init, last := s[..|s| - 1], s[|s| - 1];
    var m := Digits(init).value;
    k := 0;
    assert s == init + [last];
    if init != [] {
      k := DigitsArePadded(init);
      if m == 0 {
        assert init == Zeros(k + 1);
        k := k + 1;
      } else {
        NextDigit(m, last);
        assert Zeros(k) + Decimal(m) + [last] == Zeros(k) + (Decimal(m) + [last]);
      }
    }
  }

  lemma NextDigit(m: nat, last: byte)
    requires m > 0 && IsDigit(last)
    ensures Decimal(10 * m + (last - 48)) == Decimal(m) + [last]
  {
  }

  /** Parsing accepts exactly the decimal numbers below 2^64, with any leading zeros and a plus sign or none. */
  lemma ParsesDecimals(s: bytes, n: nat)
    ensures ParseU64(s) == Some(n) <==>
              n < 0x1_0000_0000_0000_0000 && exists k :: Unsigned(s) == Zeros(k) + Decimal(n)
  {
    if ParseU64(s) == Some(n) {
      var k := DigitsArePadded(Unsigned(s));
    }
    if k :| Unsigned(s) == Zeros(k) + Decimal(n) {
      DigitsPadded(k, n);
    }
  }

  // ---------- Casing ----------

  function LowerByte(b: byte): byte { if 65 <= b <= 90 then b + 32 else b }

  function LowerBytes(s: bytes): (r: bytes)
    ensures |r| == |s| && forall i :: 0 <= i < |s| ==> r[i] == LowerByte(s[i])
  {
    seq(|s|, i requires 0 <= i < |s| => LowerByte(s[i]))
  }

  /** Two bytes have the same lower case exactly if they are equal or the two cases of one ASCII letter. */
  lemma SameLowerByte(a: byte, b: byte)
    ensures LowerByte(a) == LowerByte(b) <==>
              a == b || (65 <= a <= 90 && b == a + 32) || (65 <= b <= 90 && a == b + 32)
    ensures LowerByte(a) == a <==> !(65 <= a <= 90)
  {
  }

  // ---------- UTF-8 ----------

  /** Whether s is well-formed UTF-8 (section 4 of RFC 3629). */
  predicate ValidUtf8(s: bytes) {
    if s == [] then true
    else if s[0] < 0x80 then ValidUtf8(s[1..])
    else if 0xC2 <= s[0] <= 0xDF then |s| >= 2 && Tail(s[1]) && ValidUtf8(s[2..])
    else if 0xE0 <= s[0] <= 0xEF then
      |s| >= 3 && Tail(s[1]) && Tail(s[2]) && (s[0] == 0xE0 ==> s[1] >= 0xA0) && (s[0] == 0xED ==> s[1] < 0xA0)
      && ValidUtf8(s[3..])
    else if 0xF0 <= s[0] <= 0xF4 then
      |s| >= 4 && Tail(s[1]) && Tail(s[2]) && Tail(s[3])
      && (s[0] == 0xF0 ==> s[1] >= 0x90) && (s[0] == 0xF4 ==> s[1] < 0x90)
      && ValidUtf8(s[4..])
    else false
  }

  predicate Tail(b: byte) { 0x80 <= b <= 0xBF }

  /** What UTF-8 encodes: the code points but the surrogates. */
  predicate Scalar(c: int) {
    0 <= c < 0xD800 || 0xE000 <= c < 0x110000
  }

  /** The encoding of one code point (section 3 of RFC 3629). */
  function Utf8(c: int): bytes
    requires Scalar(c)
  {
    if c < 0x80 then [c]
    else if c < 0x800 then [0xC0 + c / 0x40, 0x80 + c % 0x40]
    else if c < 0x10000 then [0xE0 + c / 0x1000, 0x80 + c / 0x40 % 0x40, 0x80 + c % 0x40]
    else [0xF0 + c / 0x40000, 0x80 + c / 0x1000 % 0x40, 0x80 + c / 0x40 % 0x40, 0x80 + c % 0x40]
  }

  predicate AllScalars(text: seq<int>) {
    forall i :: 0 <= i < |text| ==> Scalar(text[i])
  }

  function EncodeUtf8(text: seq<int>): bytes
    requires AllScalars(text)
  {
    if text == [] then [] else Utf8(text[0]) + EncodeUtf8(text[1..])
  }

  /** Bytes that pass as the encoding of one code point, the rest apart. */
  predicate OneCharacter(u: bytes) {
    || (|u| == 1 && u[0] < 0x80)
    || (|u| == 2 && 0xC2 <= u[0] <= 0xDF && Tail(u[1]))
    || (|u| == 3 && 0xE0 <= u[0] <= 0xEF && Tail(u[1]) && Tail(u[2])
        && (u[0] == 0xE0 ==> u[1] >= 0xA0) && (u[0] == 0xED ==> u[1] < 0xA0))
    || (|u| == 4 && 0xF0 <= u[0] <= 0xF4 && Tail(u[1]) && Tail(u[2]) && Tail(u[3])
        && (u[0] == 0xF0 ==> u[1] >= 0x90) && (u[0] == 0xF4 ==> u[1] < 0x90))
  }

  lemma ScalarIsCharacter(c: int)
    requires Scalar(c)
    ensures OneCharacter(Utf8(c))
  {
  }

  lemma CharacterFirst(u: bytes, rest: bytes)
    requires OneCharacter(u)
    ensures ValidUtf8(u + rest) <==> ValidUtf8(rest)
  {
    var s := u + rest;
    assert s[|u|..] == rest;
    assert forall i :: 0 <= i < |u| ==> s[i] == u[i];
  }

  lemma {:induction false} EncodedIsValid(text: seq<int>)
    requires AllScalars(text)
    ensures ValidUtf8(EncodeUtf8(text))
  {
    if text != [] {
      EncodedIsValid(text[1..]);
      ScalarIsCharacter(text[0]);
      CharacterFirst(Utf8(text[0]), EncodeUtf8(text[1..]));
    }
  }

  lemma TwoBytes(a: byte, b: byte) returns (c: int)
    requires OneCharacter([a, b])
    ensures Scalar(c) && Utf8(c) == [a, b]
  {
    c := 0x40 * (a as int - 0xC0) + (b as int - 0x80);
  }

  lemma ThreeBytes(a: byte, b: byte, d: byte) returns (c: int)
    requires OneCharacter([a, b, d])
    ensures Scalar(c) && Utf8(c) == [a, b, d]
  {
    c := 0x1000 * (a as int - 0xE0) + 0x40 * (b as int - 0x80) + (d as int - 0x80);
    assert c / 0x40 == 0x40 * (a as int - 0xE0) + (b as int - 0x80);
  }

  lemma FourBytes(a: byte, b: byte, d: byte, e: byte) returns (c: int)
    requires OneCharacter([a, b, d, e])
    ensures Scalar(c) && Utf8(c) == [a, b, d, e]
  {
    c := 0x40000 * (a as int - 0xF0) + 0x1000 * (b as int - 0x80) + 0x40 * (d as int - 0x80) + (e as int - 0x80);
    assert c / 0x40 == 0x1000 * (a as int - 0xF0) + 0x40 * (b as int - 0x80) + (d as int - 0x80);
    assert c / 0x1000 == 0x40 * (a as int - 0xF0) + (b as int - 0x80);
  }

  lemma CharacterDecodes(u: bytes) returns (c: int)
    requires OneCharacter(u)
    ensures Scalar(c) && Utf8(c) == u
  {
    if |u| == 1 {
      c := u[0];
    } else if |u| == 2 {
      assert u == [u[0], u[1]];
      c := TwoBytes(u[0], u[1]);
    } else if |u| == 3 {
      assert u == [u[0], u[1], u[2]];
      c := ThreeBytes(u[0], u[1], u[2]);
    } else {
      assert u == [u[0], u[1], u[2], u[3]];
      c := FourBytes(u[0], u[1], u[2], u[3]);
    }
  }

  /** The length of the character at the head of a valid text. */
  lemma HeadCharacter(s: bytes) returns (n: nat)
    requires s != [] && ValidUtf8(s)
    ensures 0 < n <= |s| && OneCharacter(s[..n]) && ValidUtf8(s[n..])
  {
    n := if s[0] < 0x80 then 1 else if s[0] <= 0xDF then 2 else if s[0] <= 0xEF then 3 else 4;
  }

  lemma {:induction false} ValidDecodes(s: bytes) returns (text: seq<int>)
    requires ValidUtf8(s)
    ensures AllScalars(text) && EncodeUtf8(text) == s
    decreases |s|
  {
    if s == [] {
      return [];
    }
    var n := HeadCharacter(s);
    var c := CharacterDecodes(s[..n]);
    var rest := ValidDecodes(s[n..]);
    text := [c] + rest;
    assert text[1..] == rest;
    assert s == s[..n] + s[n..];
  }

  /** The test accepts exactly the encodings of texts. */
  lemma ValidUtf8IffEncoded(s: bytes)
    ensures ValidUtf8(s) <==> exists text :: AllScalars(text) && EncodeUtf8(text) == s
  {
    if ValidUtf8(s) {
      var text := ValidDecodes(s);
    }
    if text :| AllScalars(text) && EncodeUtf8(text) == s {
      EncodedIsValid(text);
    }
  }
}
