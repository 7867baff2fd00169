/** Finding a response's header and body in a byte stream that arrives in arbitrary pieces. */
module HttpFraming {
  import opened Common
  import opened HttpText

  const SEPARATOR: bytes := [CR, LF, CR, LF]

  // ---------- The end of the header ----------

  predicate SeparatorAt(data: bytes, i: nat) {
    i + 4 <= |data| && data[i] == CR && data[i + 1] == LF && data[i + 2] == CR && data[i + 3] == LF
  }

  function FindHeaderEndFrom(data: bytes, i: nat): (r: Option<nat>)
    ensures r.Some? ==>
      i <= r.value && SeparatorAt(data, r.value) && forall j: nat :: i <= j < r.value ==> !SeparatorAt(data, j)
    ensures r.None? ==> forall j: nat :: i <= j ==> !SeparatorAt(data, j)
    decreases |data| - i
  {
    if i + 4 > |data| then None else if SeparatorAt(data, i) then Some(i) else FindHeaderEndFrom(data, i + 1)
  }

  function FindHeaderEnd(data: bytes): Option<nat> {
    FindHeaderEndFrom(data, 0)
  }

  /** Once found, the header's end does not move as more bytes arrive. */
  lemma HeaderEndStable(data: bytes, more: bytes)
    requires FindHeaderEnd(data).Some?
    ensures FindHeaderEnd(data + more) == FindHeaderEnd(data)
  {
    var p := FindHeaderEnd(data).value;
    assert SeparatorAt(data + more, p);
    assert forall j: nat :: j < p ==> (SeparatorAt(data + more, j) <==> SeparatorAt(data, j));
  }

  // ---------- The DoH client's reader ----------

  // "Content-Length:" and "content-length:"
  const CL_TITLE: bytes := [67, 111, 110, 116, 101, 110, 116, 45, 76, 101, 110, 103, 116, 104, 58]
  const CL_LOWER: bytes := [99, 111, 110, 116, 101, 110, 116, 45, 108, 101, 110, 103, 116, 104, 58]
  const CT_LOWER: bytes := [99, 111, 110, 116, 101, 110, 116, 45, 116, 121, 112, 101, 58]

  predicate LengthLine(line: bytes) { CL_TITLE <= line || CL_LOWER <= line }

  function LengthInLines(lines: seq<bytes>): Option<nat> {
    if lines == [] then None else
    if LengthLine(lines[0]) then ParseU64(Trim(lines[0][15..])) else LengthInLines(lines[1..])
  }

  /** The content length a header declares, as the DoH client pieces it. */
  function DeclaredLength(header: bytes): Option<nat> {
    if ValidUtf8(header) then LengthInLines(Lines(header)) else None
  }

  function ContentLength(response: bytes): Option<nat> {
    match FindHeaderEnd(response)
    case None => None
    case Some(p) => DeclaredLength(response[..p])
  }

  function OrZero(n: Option<nat>): nat { if n.Some? then n.value else 0 }

  /** The reader stops here: the header has ended and the declared body is in. */
  predicate Done(response: bytes) {
    var p := FindHeaderEnd(response);
    p.Some? && |response| - (p.value + 4) >= OrZero(ContentLength(response))
  }

  /** The bytes the reader takes from the stream; each element of pieces is what one read returns. */
  function Consume(response: bytes, pieces: seq<bytes>): bytes
    decreases |pieces|
  {
    if Done(response) || pieces == [] then response else Consume(response + pieces[0], pieces[1..])
  }

  function ExtractBody(response: bytes): Option<bytes> {
    match FindHeaderEnd(response)
    case None => None
    case Some(p) => Some(response[p + 4..])
  }

  method ReadResponse(pieces: seq<bytes>) returns (body: Option<bytes>)
    ensures body == ExtractBody(Consume([], pieces))
  {
    var response: bytes := [];
    var next := 0;
    while FindHeaderEnd(response).None?
      invariant 0 <= next <= |pieces|
      invariant Consume(response, pieces[next..]) == Consume([], pieces)
      decreases |pieces| - next
    {
      if next == |pieces| {
        break;
      }
      assert pieces[next..][1..] == pieces[next + 1..];
      response := response + pieces[next];
      next := next + 1;
    }
    var contentLength := OrZero(ContentLength(response));
    var headerEnd := if FindHeaderEnd(response).Some? then FindHeaderEnd(response).value else 0;
    var totalBody := SaturatingSub(|response|, headerEnd + 4);
    while totalBody < contentLength
      invariant 0 <= next <= |pieces|
      invariant Consume(response, pieces[next..]) == Consume([], pieces)
      invariant FindHeaderEnd(response).Some? ==>
        && headerEnd == FindHeaderEnd(response).value && totalBody == |response| - (headerEnd + 4)
        && contentLength == OrZero(ContentLength(response))
      invariant FindHeaderEnd(response).None? ==> contentLength == 0 && next == |pieces|
      decreases |pieces| - next
    {
      if next == |pieces| {
        break;
      }
      assert pieces[next..][1..] == pieces[next + 1..];
      HeaderEndStable(response, pieces[next]);
      assert (response + pieces[next])[..headerEnd] == response[..headerEnd];
      response := response + pieces[next];
      totalBody := totalBody + |pieces[next]|;
      next := next + 1;
    }
    body := ExtractBody(response);
  }

  function Flatten(pieces: seq<bytes>): bytes {
    if pieces == [] then [] else pieces[0] + Flatten(pieces[1..])
  }

  ghost predicate NonEmptyReads(pieces: seq<bytes>) {
    forall i :: 0 <= i < |pieces| ==> pieces[i] != []
  }

  /** A response whose header is h; the separator must not already begin inside h. */
  ghost predicate HeaderIs(h: bytes) {
    FindHeaderEnd(h + SEPARATOR) == Some(|h|)
  }

  lemma ResponseHeader(h: bytes, body: bytes)
    requires HeaderIs(h)
    ensures FindHeaderEnd(h + SEPARATOR + body) == Some(|h|)
    ensures ContentLength(h + SEPARATOR + body) == DeclaredLength(h)
    ensures ExtractBody(h + SEPARATOR + body) == Some(body)
  {
    HeaderEndStable(h + SEPARATOR, body);
    assert (h + SEPARATOR + body)[..|h|] == h;
    assert (h + SEPARATOR + body)[|h| + 4..] == body;
  }

  /** A proper prefix of a response is done only when the declared length is shorter than the body. */
  lemma PrefixDone(h: bytes, body: bytes, response: bytes)
    requires HeaderIs(h) && response <= h + SEPARATOR + body
    ensures Done(response) <==> |response| >= |h| + 4 + OrZero(DeclaredLength(h))
  {
    var all := h + SEPARATOR + body;
    ResponseHeader(h, body);
    if FindHeaderEnd(response).Some? {
      HeaderEndStable(response, all[|response|..]);
      assert response + all[|response|..] == all;
      assert response[..|h|] == h;
    } else {
      PrefixSeparator(all, response, |h|);
    }
  }

  lemma PrefixSeparator(all: bytes, response: bytes, i: nat)
    requires response <= all
    ensures i + 4 <= |response| ==> (SeparatorAt(all, i) <==> SeparatorAt(response, i))
  {
    assert response == all[..|response|];
  }

  /** Reading takes the whole response when the declared length covers the body. */
  lemma {:induction false} ConsumeAll(h: bytes, body: bytes, response: bytes, pieces: seq<bytes>)
    requires HeaderIs(h) && OrZero(DeclaredLength(h)) >= |body|
    requires NonEmptyReads(pieces) && response + Flatten(pieces) == h + SEPARATOR + body
    ensures Consume(response, pieces) == h + SEPARATOR + body
    decreases |pieces|
  {
    PrefixDone(h, body, response);
    if pieces != [] {
      assert |Flatten(pieces)| >= |pieces[0]| > 0;
      assert response + pieces[0] + Flatten(pieces[1..]) == h + SEPARATOR + body;
      ConsumeAll(h, body, response + pieces[0], pieces[1..]);
    }
  }

  function Singles(s: bytes): (r: seq<bytes>)
    ensures NonEmptyReads(r)
  {
    if s == [] then [] else [[s[0]]] + Singles(s[1..])
  }

  lemma {:induction false} FlattenSingles(s: bytes)
    ensures Flatten(Singles(s)) == s
  {
    if s != [] {
      FlattenSingles(s[1..]);
      assert Singles(s)[1..] == Singles(s[1..]);
    }
  }

  /** Byte by byte the reader stops as soon as the declared length is reached. */
  lemma {:induction false} ConsumeSingles(h: bytes, body: bytes, response: bytes, rest: bytes)
    requires HeaderIs(h) && OrZero(DeclaredLength(h)) < |body|
    requires response + rest == h + SEPARATOR + body && |response| <= |h| + 4 + OrZero(DeclaredLength(h))
    ensures |Consume(response, Singles(rest))| == |h| + 4 + OrZero(DeclaredLength(h))
    decreases |rest|
  {
    PrefixDone(h, body, response);
    if !Done(response) {
      assert rest == [rest[0]] + rest[1..];
      assert response + [rest[0]] + rest[1..] == h + SEPARATOR + body;
      assert Singles(rest)[1..] == Singles(rest[1..]);
      ConsumeSingles(h, body, response + [rest[0]], rest[1..]);
    }
  }

  /**
    The body is recovered from every way of splitting the response into reads exactly when the
    length the client recognises in the header is at least the body's; without a line in one of the
    two recognised spellings that length is 0.
   */
  lemma SplitIndependence(h: bytes, body: bytes)
    requires HeaderIs(h)
    ensures (forall pieces :: NonEmptyReads(pieces) && Flatten(pieces) == h + SEPARATOR + body
               ==> ExtractBody(Consume([], pieces)) == Some(body))
        <==> OrZero(DeclaredLength(h)) >= |body|
  {
    var all := h + SEPARATOR + body;
    ResponseHeader(h, body);
    if OrZero(DeclaredLength(h)) >= |body| {
      forall pieces | NonEmptyReads(pieces) && Flatten(pieces) == all
        ensures ExtractBody(Consume([], pieces)) == Some(body)
      {
        assert [] + Flatten(pieces) == Flatten(pieces);
        ConsumeAll(h, body, [], pieces);
      }
    } else {
      var pieces := Singles(all);
      FlattenSingles(all);
      assert [] + all == all;
      ConsumeSingles(h, body, [], all);
      if ExtractBody(Consume([], pieces)) == Some(body) {
        BodyIsSuffix(Consume([], pieces), h, body, pieces);
      }
    }
  }

  lemma BodyIsSuffix(response: bytes, h: bytes, body: bytes, pieces: seq<bytes>)
    requires HeaderIs(h) && Flatten(pieces) == h + SEPARATOR + body && response == Consume([], pieces)
    requires ExtractBody(response) == Some(body)
    ensures |response| == |h| + 4 + |body|
  {
    ConsumePrefix([], pieces);
    assert [] + Flatten(pieces) == Flatten(pieces);
    var all := h + SEPARATOR + body;
    ResponseHeader(h, body);
    HeaderEndStable(response, all[|response|..]);
    assert response + all[|response|..] == all;
  }

  lemma {:induction false} ConsumePrefix(response: bytes, pieces: seq<bytes>)
    ensures Consume(response, pieces) <= response + Flatten(pieces)
    decreases |pieces|
  {
    if !Done(response) && pieces != [] {
      ConsumePrefix(response + pieces[0], pieces[1..]);
      assert response + pieces[0] + Flatten(pieces[1..]) == response + Flatten(pieces);
    }
  }

  lemma {:induction false} FirstLengthLine(lines: seq<bytes>, k: nat)
    requires k < |lines| && LengthLine(lines[k])
    requires forall i :: 0 <= i < k ==> !LengthLine(lines[i])
    ensures LengthInLines(lines) == ParseU64(Trim(lines[k][15..]))
  {
    if k > 0 {
      FirstLengthLine(lines[1..], k - 1);
    }
  }

  /** A length line as servers write it gives its number. */
  lemma DecimalLengthLine(name: bytes, n: nat)
    requires (name == CL_TITLE || name == CL_LOWER) && n < 0x1_0000_0000_0000_0000
    ensures var line := name + [32] + Decimal(n);
            LengthLine(line) && ParseU64(Trim(line[15..])) == Some(n)
  {
    var line := name + [32] + Decimal(n);
    assert line == name + ([32] + Decimal(n));
    assert line[15..] == [32] + Decimal(n);
    TrimDecimal(n);
    ParseDecimal(n);
  }

  // ---------- Headers given as lines ----------

  /** The lines of a header, the status line first. */
  predicate HeaderLines(lines: seq<bytes>) {
    |lines| > 0 && forall i :: 0 <= i < |lines| ==> Plain(lines[i]) && lines[i] != []
  }

  lemma NoBreakInLine(line: bytes, rest: bytes, j: nat)
    requires Plain(line) && j < |line|
    ensures !SeparatorAt(line + rest, j)
  {
    assert (line + rest)[j] == line[j] && line[j] in line;
  }

  lemma NoSeparatorAtBreak(line: bytes, rest: bytes, j: nat)
    requires Plain(line) && rest != [] && rest[0] != CR && j < |line| + 2
    ensures !SeparatorAt(line + (CRLF + rest), j)
  {
    var s := line + (CRLF + rest);
    if j < |line| {
      NoBreakInLine(line, CRLF + rest, j);
    } else {
      assert s[|line| + 1] == LF && s[|line| + 2] == rest[0];
    }
  }

  lemma SeparatorBehind(front: bytes, rest: bytes, j: nat)
    requires j >= |front|
    ensures SeparatorAt(front + rest, j) <==> SeparatorAt(rest, j - |front|)
  {
  }

  lemma {:induction false} NoEarlierSeparator(lines: seq<bytes>, j: nat)
    requires HeaderLines(lines) && j < |JoinLines(lines)|
    ensures !SeparatorAt(JoinLines(lines) + SEPARATOR, j)
  {
    if |lines| == 1 {
      NoBreakInLine(lines[0], SEPARATOR, j);
    } else {
      var line, later := lines[0], JoinLines(lines[1..]);
      JoinStartsPlain(lines[1..]);
      assert JoinLines(lines) + SEPARATOR == line + (CRLF + (later + SEPARATOR));
      if j < |line| + 2 {
        NoSeparatorAtBreak(line, later + SEPARATOR, j);
      } else {
        assert line + (CRLF + (later + SEPARATOR)) == (line + CRLF) + (later + SEPARATOR);
        SeparatorBehind(line + CRLF, later + SEPARATOR, j);
        NoEarlierSeparator(lines[1..], j - |line| - 2);
      }
    }
  }

  lemma JoinStartsPlain(lines: seq<bytes>)
    requires HeaderLines(lines)
    ensures JoinLines(lines) != [] && JoinLines(lines)[0] != CR
  {
    assert lines[0][0] in lines[0];
  }

  /** Joined lines are a header: the first separator is the one behind them. */
  lemma JoinedHeaderIs(lines: seq<bytes>)
    requires HeaderLines(lines)
    ensures HeaderIs(JoinLines(lines))
  {
    var h := JoinLines(lines);
    assert SeparatorAt(h + SEPARATOR, |h|);
    forall j: nat | j < |h| ensures !SeparatorAt(h + SEPARATOR, j) {
      NoEarlierSeparator(lines, j);
    }
  }

  /**
    A response whose first length line, in either recognised casing and with any white space, gives the
    length of its body is returned exactly, however it is split into reads; status line and field
    lines may be any others, as long as they are UTF-8.
   */
  lemma LengthLineGivesBody(lines: seq<bytes>, body: bytes, k: nat, pieces: seq<bytes>)
    requires HeaderLines(lines) && ValidUtf8(JoinLines(lines)) && k < |lines|
    requires forall i :: 0 <= i < k ==> !LengthLine(lines[i])
    requires LengthLine(lines[k]) && ParseU64(Trim(lines[k][15..])) == Some(|body|)
    requires NonEmptyReads(pieces) && Flatten(pieces) == JoinLines(lines) + SEPARATOR + body
    ensures ExtractBody(Consume([], pieces)) == Some(body)
  {
    LinesOfJoined(lines);
    JoinedHeaderIs(lines);
    FirstLengthLine(lines, k);
    SplitIndependence(JoinLines(lines), body);
  }

  /** Without a length line the client takes the length to be 0, and only empty bodies survive every split. */
  lemma NoLengthLineLosesBody(lines: seq<bytes>, body: bytes)
    requires HeaderLines(lines) && forall i :: 0 <= i < |lines| ==> !LengthLine(lines[i])
    ensures (forall pieces :: NonEmptyReads(pieces) && Flatten(pieces) == JoinLines(lines) + SEPARATOR + body
               ==> ExtractBody(Consume([], pieces)) == Some(body))
        <==> body == []
  {
    LinesOfJoined(lines);
    JoinedHeaderIs(lines);
    NoLengthLine(lines);
    SplitIndependence(JoinLines(lines), body);
  }

  lemma {:induction false} NoLengthLine(lines: seq<bytes>)
    requires forall i :: 0 <= i < |lines| ==> !LengthLine(lines[i])
    ensures LengthInLines(lines) == None
  {
    if lines != [] {
      NoLengthLine(lines[1..]);
    }
  }
}
