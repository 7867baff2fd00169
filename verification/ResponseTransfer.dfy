/** The proxy's read-forward-cache loop: a response goes to the client as it arrives and, if complete, to the cache. */
module ResponseTransfer {
  import opened Common
  import opened HttpFraming
  import opened HttpText

  const BUFFER_SIZE: nat := 8192
  const MAX_HEADER: nat := 65536

  datatype Head = Head(contentType: Option<bytes>, contentLength: Option<nat>)

  /** Later header lines override earlier ones; names are matched in any casing. */
  function ScanLines(lines: seq<bytes>): Head {
    if lines == [] then Head(None, None) else
    var n := |lines| - 1;
    var head, line, lower := ScanLines(lines[..n]), lines[n], LowerBytes(lines[n]);
    if CT_LOWER <= lower then head.(contentType := Some(Trim(line[13..])))
    else if CL_LOWER <= lower then head.(contentLength := ParseU64(Trim(line[15..])))
    else head
  }

  function HeadOf(response: bytes): Head {
    match FindHeaderEnd(response)
    case None => Head(None, None)
    case Some(p) => var lines := Lines(response[..p]); if lines == [] then Head(None, None) else ScanLines(lines[1..])
  }

  method ParseResponseHeaders(response: bytes) returns (head: Head)
    ensures head == HeadOf(response)
  {
    var headerEnd := FindHeaderEnd(response);
    head := Head(None, None);
    if headerEnd.None? {
      return;
    }
    var lines := Lines(response[..headerEnd.value]);
    var i := 1;
    while i < |lines|
      invariant 1 <= i && (i <= |lines| || lines == [])
      invariant head == if lines == [] then Head(None, None) else ScanLines(lines[1..i])
    {
      assert lines[1..i + 1][..i - 1] == lines[1..i];
      var lower := LowerBytes(lines[i]);
      if CT_LOWER <= lower {
        head := head.(contentType := Some(Trim(lines[i][13..])));
      } else if CL_LOWER <= lower {
        head := head.(contentLength := ParseU64(Trim(lines[i][15..])));
      }
      i := i + 1;
    }
    assert lines != [] ==> lines[1..i] == lines[1..];
  }

  /** The line gives the header field of that name, in any casing. */
  predicate Names(line: bytes, name: bytes) {
    name <= LowerBytes(line)
  }

  /** Line i is the last one that gives the field. */
  ghost predicate LastNamed(lines: seq<bytes>, i: nat, name: bytes) {
    i < |lines| && Names(lines[i], name) && forall j :: i < j < |lines| ==> !Names(lines[j], name)
  }

  lemma NotBoth(line: bytes)
    requires Names(line, CT_LOWER)
    ensures !Names(line, CL_LOWER)
  {
    assert LowerBytes(line)[8] == CT_LOWER[8] != CL_LOWER[8];
  }

  lemma {:induction false} ScanFindsLastLength(lines: seq<bytes>, i: nat)
    requires LastNamed(lines, i, CL_LOWER)
    ensures ScanLines(lines).contentLength == ParseU64(Trim(lines[i][15..]))
  {
    var n := |lines| - 1;
    if Names(lines[n], CT_LOWER) {
      NotBoth(lines[n]);
    }
    if i < n {
      assert LastNamed(lines[..n], i, CL_LOWER);
      ScanFindsLastLength(lines[..n], i);
    }
  }

  lemma {:induction false} ScanFindsLastType(lines: seq<bytes>, i: nat)
    requires LastNamed(lines, i, CT_LOWER)
    ensures ScanLines(lines).contentType == Some(Trim(lines[i][13..]))
  {
    var n := |lines| - 1;
    if i < n {
      assert LastNamed(lines[..n], i, CT_LOWER);
      ScanFindsLastType(lines[..n], i);
    }
  }

  lemma {:induction false} ScanFindsNothing(lines: seq<bytes>)
    ensures (forall i :: 0 <= i < |lines| ==> !Names(lines[i], CL_LOWER)) ==> ScanLines(lines).contentLength.None?
    ensures (forall i :: 0 <= i < |lines| ==> !Names(lines[i], CT_LOWER)) ==> ScanLines(lines).contentType.None?
  {
    if lines != [] {
      ScanFindsNothing(lines[..|lines| - 1]);
    }
  }

  /**
    The fields of a response with these header lines are those of the last lines that name them, the
    status line apart: the length parsed, the type trimmed, and None for a field that no line names.
   */
  lemma FieldsAreLastLines(status: bytes, lines: seq<bytes>, body: bytes)
    requires HeaderLines([status] + lines)
    ensures var head := HeadOf(JoinLines([status] + lines) + SEPARATOR + body);
            && (forall i: nat :: LastNamed(lines, i, CL_LOWER) ==> head.contentLength == ParseU64(Trim(lines[i][15..])))
            && (forall i: nat :: LastNamed(lines, i, CT_LOWER) ==> head.contentType == Some(Trim(lines[i][13..])))
            && ((forall i :: 0 <= i < |lines| ==> !Names(lines[i], CL_LOWER)) ==> head.contentLength.None?)
            && ((forall i :: 0 <= i < |lines| ==> !Names(lines[i], CT_LOWER)) ==> head.contentType.None?)
  {
    var all := [status] + lines;
    HeadScansLines(all, body);
    assert all[1..] == lines;
    forall i: nat | LastNamed(lines, i, CL_LOWER)
      ensures ScanLines(lines).contentLength == ParseU64(Trim(lines[i][15..]))
    {
      ScanFindsLastLength(lines, i);
    }
    forall i: nat | LastNamed(lines, i, CT_LOWER)
      ensures ScanLines(lines).contentType == Some(Trim(lines[i][13..]))
    {
      ScanFindsLastType(lines, i);
    }
    ScanFindsNothing(lines);
  }

  lemma HeadScansLines(lines: seq<bytes>, body: bytes)
    requires HeaderLines(lines)
    ensures HeadOf(JoinLines(lines) + SEPARATOR + body) == ScanLines(lines[1..])
  {
    var h := JoinLines(lines);
    JoinedHeaderIs(lines);
    ResponseHeader(h, body);
    LinesOfJoined(lines);
    assert (h + SEPARATOR + body)[..|h|] == h;
  }

  lemma HeadStable(data: bytes, more: bytes)
    requires FindHeaderEnd(data).Some?
    ensures HeadOf(data + more) == HeadOf(data)
  {
    HeaderEndStable(data, more);
    var p := FindHeaderEnd(data).value;
    assert (data + more)[..p] == data[..p];
  }

  predicate CanCache(head: Head, cacheable: bytes -> bool) {
    head.contentLength.Some? && head.contentType.Some? && cacheable(head.contentType.value)
  }

  /** How the header loop ends; buf is what it has read. */
  datatype HeaderRead = HeaderRead(buf: bytes, rest: bytes, failed: bool)

  /** What has been read so far neither has the whole header nor is too long. */
  ghost predicate MoreWanted(stream: bytes, before: nat) {
    before <= |stream| && before <= MAX_HEADER && FindHeaderEnd(stream[..before]).None?
  }

  /** The reading of the header up to n bytes ended with one read for which there was a need. */
  ghost predicate LastRead(stream: bytes, n: nat) {
    exists before: nat :: before < n <= before + BUFFER_SIZE && MoreWanted(stream, before)
  }

  /** Reads until the header is complete, the stream ends, or more than MAX_HEADER bytes came without one. */
  method ReadHeader(stream: bytes, endsInError: bool) returns (r: HeaderRead)
    ensures r.buf + r.rest == stream
    ensures r.failed ==> endsInError && FindHeaderEnd(stream).None?
    ensures !r.failed && FindHeaderEnd(r.buf).None? ==> r.rest == [] || |r.buf| > MAX_HEADER
    ensures r.buf != [] ==> LastRead(r.buf, |r.buf|)
  {
    var buf: bytes, rest := [], stream;
    while true
      invariant buf + rest == stream && FindHeaderEnd(buf).None? && |buf| <= MAX_HEADER
      invariant buf != [] ==> LastRead(buf, |buf|)
      decreases |rest|
    {
      if rest == [] {
        assert buf == stream;
        return HeaderRead(buf, rest, endsInError);
      }
      var n :| 1 <= n <= |rest| && n <= BUFFER_SIZE;
      ghost var before := buf;
      buf, rest := buf + rest[..n], rest[n..];
      assert buf[..|before|] == before;
      assert MoreWanted(buf, |before|);
      if FindHeaderEnd(buf).Some? || |buf| > MAX_HEADER {
        return HeaderRead(buf, rest, false);
      }
    }
  }

  /** Reads towards totalBody bytes of body, forwarding what it reads; first came with the header. */
  method ReadBody(first: bytes, stream: bytes, totalBody: nat) returns (body: bytes, forwarded: bytes, rest: bytes)
    ensures body == first + forwarded && forwarded + rest == stream
    ensures |body| < totalBody ==> rest == []
    ensures |body| > totalBody ==> forwarded == []
    ensures |body| == totalBody <==> |first| <= totalBody <= |first| + |stream|
  {
    body, forwarded, rest := first, [], stream;
    while |body| < totalBody
      invariant body == first + forwarded && forwarded + rest == stream
      invariant |body| > totalBody ==> forwarded == []
      decreases |rest|
    {
      if rest == [] {
        break;
      }
      var toRead := if BUFFER_SIZE < totalBody - |body| then BUFFER_SIZE else totalBody - |body|;
      var n :| 1 <= n <= |rest| && n <= toRead;
      body := body + rest[..n];
      forwarded := forwarded + rest[..n];
      rest := rest[n..];
    }
  }

  /**
    The transfer, however the stream is cut into reads.  stream is all the server will send before it
    closes the connection or, if endsInError, the connection breaks; rest is left to the plain copy
    that follows.
   */
  method TransferAndCache(stream: bytes, endsInError: bool, cacheable: bytes -> bool)
    returns (sent: bytes, rest: bytes, cached: Option<bytes>, failed: bool, ghost headerRead: nat)
    // the client receives the stream's bytes, all of them, in order, once
    ensures !failed ==> sent + rest == stream
    ensures failed ==> endsInError && FindHeaderEnd(stream).None? && sent == [] && cached == None
    // only a complete body, as long as declared, is cached
    ensures cached.Some? ==>
      && FindHeaderEnd(stream).Some? && CanCache(HeadOf(stream), cacheable)
      && HeadOf(stream).contentLength == Some(|cached.value|)
      && sent == stream[..FindHeaderEnd(stream).value + 4] + cached.value
    // and it is cached exactly when the header came complete with the first headerRead bytes, these
    // did not go beyond the declared body, and all of that body is in the stream
    ensures headerRead <= |stream| && (headerRead > 0 ==> LastRead(stream, headerRead))
    ensures cached.Some? <==>
      && !failed && FindHeaderEnd(stream[..headerRead]).Some? && CanCache(HeadOf(stream), cacheable)
      && headerRead <= FindHeaderEnd(stream[..headerRead]).value + 4 + HeadOf(stream).contentLength.value <= |stream|
    // in particular whenever the response is all the stream holds
    ensures CompleteResponse(stream) && CanCache(HeadOf(stream), cacheable) ==>
      !failed && cached == Some(stream[FindHeaderEnd(stream).value + 4..])
  {
    var h := ReadHeader(stream, endsInError);
    cached, failed, rest, headerRead := None, h.failed, h.rest, |h.buf|;
    assert stream[..headerRead] == h.buf;
    SameLastRead(stream, h.buf);
    if failed {
      return [], rest, None, true, headerRead;
    }
    var head := ParseResponseHeaders(h.buf);
    sent := h.buf;
    HeaderFits(stream, h.buf, rest);
    if CanCache(head, cacheable) {
      var pos := FindHeaderEnd(h.buf).value;
      var body, forwarded;
      body, forwarded, rest := ReadBody(h.buf[pos + 4..], h.rest, head.contentLength.value);
      sent := sent + forwarded;
      Pieces(stream, h.buf, pos + 4, forwarded, rest);
      if |body| == head.contentLength.value {
        cached := Some(body);
      }
    }
  }

  lemma SameLastRead(stream: bytes, buf: bytes)
    requires buf <= stream && (buf != [] ==> LastRead(buf, |buf|))
    ensures buf != [] ==> LastRead(stream, |buf|)
  {
    if buf != [] {
      var before: nat :| before < |buf| <= before + BUFFER_SIZE && MoreWanted(buf, before);
      assert stream[..before] == buf[..before];
      assert MoreWanted(stream, before);
    }
  }

  lemma Pieces(stream: bytes, buf: bytes, start: nat, forwarded: bytes, rest: bytes)
    requires start <= |buf| && buf + (forwarded + rest) == stream
    ensures buf + forwarded + rest == stream
    ensures buf + forwarded == stream[..start] + (buf[start..] + forwarded)
    ensures rest == [] ==> buf[start..] + forwarded == stream[start..]
    ensures |stream| == start + |buf[start..] + forwarded| + |rest|
  {
    assert buf == buf[..start] + buf[start..];
  }

  /** The stream is one response and nothing else, with a header the reader accepts. */
  predicate CompleteResponse(stream: bytes) {
    && FindHeaderEnd(stream).Some?
    && FindHeaderEnd(stream).value + 4 <= MAX_HEADER
    && HeadOf(stream).contentLength == Some(|stream| - (FindHeaderEnd(stream).value + 4))
  }

  /**
    A stream that is one response, given by its header lines and body, is one that the transfer caches
    whole: the last length line must give the body's length and the last type line a cacheable type.
   */
  lemma CompleteIsCacheable(
    status: bytes, lines: seq<bytes>, body: bytes, i: nat, j: nat, cacheable: bytes -> bool)
    requires HeaderLines([status] + lines) && |JoinLines([status] + lines)| + 4 <= MAX_HEADER
    requires LastNamed(lines, i, CL_LOWER) && ParseU64(Trim(lines[i][15..])) == Some(|body|)
    requires LastNamed(lines, j, CT_LOWER) && cacheable(Trim(lines[j][13..]))
    ensures var stream := JoinLines([status] + lines) + SEPARATOR + body;
            && CompleteResponse(stream) && CanCache(HeadOf(stream), cacheable)
            && stream[FindHeaderEnd(stream).value + 4..] == body
  {
    var h := JoinLines([status] + lines);
    FieldsAreLastLines(status, lines, body);
    JoinedHeaderIs([status] + lines);
    ResponseHeader(h, body);
    assert (h + SEPARATOR + body)[|h| + 4..] == body;
  }

  lemma HeaderFits(stream: bytes, buf: bytes, rest: bytes)
    requires buf + rest == stream
    ensures FindHeaderEnd(buf).Some? ==> FindHeaderEnd(stream) == FindHeaderEnd(buf) && HeadOf(stream) == HeadOf(buf)
    ensures FindHeaderEnd(buf).None? && (rest == [] || |buf| > MAX_HEADER) ==> !CompleteResponse(stream)
  {
    if FindHeaderEnd(buf).Some? {
      HeadStable(buf, rest);
      HeaderEndStable(buf, rest);
    } else if FindHeaderEnd(stream).Some? {
      PrefixSeparator(stream, buf, FindHeaderEnd(stream).value);
      assert rest == [] ==> buf == stream;
    }
  }
}
