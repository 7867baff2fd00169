/** The DNS wire format the DoH client writes and reads (sections 3.1 and 4.1 of RFC 1035). */
module DnsMessage {
  import opened Common

  type Label = seq<byte>

  const DOT: byte := 46

  // ---------- Domain names ----------

  /** `str::split('.')`: always at least one label. */
  function Split(domain: seq<byte>): (labels: seq<Label>)
    ensures |labels| > 0
  {
    if domain == [] then [[]] else
    var rest := Split(domain[1..]);
    if domain[0] == DOT then [[]] + rest else [[domain[0]] + rest[0]] + rest[1..]
  }

  function Join(labels: seq<Label>): seq<byte>
    requires |labels| > 0
  {
    if |labels| == 1 then labels[0] else labels[0] + [DOT] + Join(labels[1..])
  }

  lemma {:induction false} JoinSplit(domain: seq<byte>)
    ensures Join(Split(domain)) == domain
  {
    if domain != [] {
      JoinSplit(domain[1..]);
      var rest := Split(domain[1..]);
      if domain[0] == DOT {
        assert ([[]] + rest)[1..] == rest;
      } else {
        assert ([[domain[0]] + rest[0]] + rest[1..])[1..] == rest[1..];
      }
    }
  }

  /** Each label behind its length byte, which keeps only the low eight bits, then a zero byte. */
  function NameBytes(labels: seq<Label>): (r: seq<byte>)
    ensures |r| > 0
  {
    if labels == [] then [0] else [|labels[0]| % 256] + labels[0] + NameBytes(labels[1..])
  }

  method EncodeDomainName(domain: seq<byte>, buf: seq<byte>) returns (r: seq<byte>)
    ensures r == buf + NameBytes(Split(domain))
  {
    r := buf;
    var labels := Split(domain);
    var i := 0;
    while i < |labels|
      invariant 0 <= i <= |labels|
      invariant r + NameBytes(labels[i..]) == buf + NameBytes(labels)
    {
      assert labels[i..][1..] == labels[i + 1..];
      r := r + [|labels[i]| % 256];
      r := r + labels[i];
      i := i + 1;
    }
    r := r + [0];
  }

  /** Reads a label sequence at offset: the labels and the offset after the closing zero byte. */
  function ReadName(data: seq<byte>, offset: nat): (r: Option<(seq<Label>, nat)>)
    ensures r.Some? ==> offset < r.value.1 <= |data|
    decreases |data| - offset
  {
    if offset >= |data| then None else
    if data[offset] == 0 then Some(([], offset + 1)) else
    var next := offset + 1 + data[offset];
    if next > |data| then None else
    var rest := ReadName(data, next);
    if rest.None? then None else Some(([data[offset + 1..next]] + rest.value.0, rest.value.1))
  }

  predicate Encodable(labels: seq<Label>, max: nat) {
    forall i :: 0 <= i < |labels| ==> 1 <= |labels[i]| <= max
  }

  lemma {:induction false} ReadLabelsEncodable(data: seq<byte>, offset: nat)
    requires ReadName(data, offset).Some?
    ensures Encodable(ReadName(data, offset).value.0, 255)
    decreases |data| - offset
  {
    if data[offset] != 0 {
      ReadLabelsEncodable(data, offset + 1 + data[offset]);
    }
  }

  /** part stands in data at offset. */
  ghost predicate At(data: seq<byte>, offset: nat, part: seq<byte>) {
    offset + |part| <= |data| && data[offset..offset + |part|] == part
  }

  lemma AtSplit(data: seq<byte>, offset: nat, a: seq<byte>, b: seq<byte>)
    requires At(data, offset, a + b)
    ensures At(data, offset, a) && At(data, offset + |a|, b)
  {
    var whole := data[offset..offset + |a + b|];
    assert whole[..|a|] == a && whole[|a|..] == b;
  }

  lemma AtIndex(data: seq<byte>, offset: nat, part: seq<byte>, i: nat)
    requires At(data, offset, part) && i < |part|
    ensures data[offset + i] == part[i]
  {
    assert data[offset..offset + |part|][i] == part[i];
  }

  lemma ReadNameStep(data: seq<byte>, offset: nat, first: Label, rest: seq<Label>, end: nat)
    requires 1 <= |first| <= 255 && offset < |data| && data[offset] == |first| && At(data, offset + 1, first)
    requires ReadName(data, offset + 1 + |first|) == Some((rest, end))
    ensures ReadName(data, offset) == Some(([first] + rest, end))
  {
  }

  lemma NameParts(data: seq<byte>, offset: nat, first: Label, tail: seq<byte>)
    requires 1 <= |first| <= 255 && At(data, offset, [|first|] + first + tail)
    ensures offset < |data| && data[offset] == |first|
    ensures At(data, offset + 1, first) && At(data, offset + 1 + |first|, tail)
  {
    AtSplit(data, offset, [|first|] + first, tail);
    AtSplit(data, offset, [|first|], first);
    AtIndex(data, offset, [|first|], 0);
  }

  lemma {:induction false} ReadNameTo(data: seq<byte>, offset: nat, labels: seq<Label>, end: nat)
    requires Encodable(labels, 255) && At(data, offset, NameBytes(labels)) && end == offset + |NameBytes(labels)|
    ensures ReadName(data, offset) == Some((labels, end))
    decreases |labels|
  {
    if labels == [] {
      AtIndex(data, offset, [0], 0);
    } else {
      var first, rest := labels[0], labels[1..];
      NameParts(data, offset, first, NameBytes(rest));
      ReadNameTo(data, offset + 1 + |first|, rest, end);
      ReadNameStep(data, offset, first, rest, end);
      assert labels == [first] + rest;
    }
  }

  lemma ReadNameAt(data: seq<byte>, offset: nat, labels: seq<Label>)
    requires Encodable(labels, 255) && At(data, offset, NameBytes(labels))
    ensures ReadName(data, offset) == Some((labels, offset + |NameBytes(labels)|))
  {
    ReadNameTo(data, offset, labels, offset + |NameBytes(labels)|);
  }

  /**
    Encoding a domain and reading the labels back gives the domain's labels, and so the domain,
    exactly when every label has 1 to 255 bytes; the RFC allows 63.
   */
  lemma NameRoundTrip(domain: seq<byte>, post: seq<byte>)
    ensures var r := ReadName(NameBytes(Split(domain)) + post, 0);
            (r.Some? && r.value.0 == Split(domain)) <==> Encodable(Split(domain), 255)
    ensures Encodable(Split(domain), 255) ==>
              Join(ReadName(NameBytes(Split(domain)) + post, 0).value.0) == domain
  {
    JoinSplit(domain);
    if ReadName(NameBytes(Split(domain)) + post, 0).Some? {
      ReadLabelsEncodable(NameBytes(Split(domain)) + post, 0);
    }
    if Encodable(Split(domain), 255) {
      ReadNameAt(NameBytes(Split(domain)) + post, 0, Split(domain));
    }
  }

  /** The parser's own walk over a name: it stops at the zero byte or beyond the end. */
  function SkipName(data: seq<byte>, offset: nat): (end: nat)
    ensures end >= offset
    decreases |data| - offset
  {
    if offset < |data| && data[offset] != 0 then SkipName(data, offset + data[offset] + 1) else offset
  }

  lemma {:induction false} SkipReadName(data: seq<byte>, offset: nat)
    requires ReadName(data, offset).Some?
    ensures SkipName(data, offset) == ReadName(data, offset).value.1 - 1
    decreases |data| - offset
  {
    if data[offset] != 0 {
      SkipReadName(data, offset + 1 + data[offset]);
    }
  }

  // ---------- Parsing ----------

  /** OutOfBounds is an index past the end of the message. */
  datatype Parsed = Addresses(ips: seq<IpAddr>) | TooShort | ServerError(rcode: int) | OutOfBounds

  function U16(data: seq<byte>, offset: nat): int
    requires offset + 2 <= |data|
  {
    FromBe(data[offset], data[offset + 1])
  }

  function AfterOwner(data: seq<byte>, offset: nat): (end: nat)
    requires offset < |data|
    ensures end > offset
  {
    if data[offset] >= 0xC0 then offset + 2 else SkipName(data, offset) + 1
  }

  /** The eight segments of an IPv6 address. */
  function Segments(data: seq<byte>, o: nat): seq<int>
    requires o + 16 <= |data|
  {
    seq(8, i requires 0 <= i < 8 => U16(data, o + 2 * i))
  }

  function AddressAt(data: seq<byte>, offset: nat, rtype: int): seq<IpAddr> {
    if rtype == 1 && offset + 4 <= |data| then [V4(data[offset..offset + 4])]
    else if rtype == 28 && offset + 16 <= |data| then [V6(Segments(data, offset))]
    else []
  }

  /** One record: the addresses it yields and where the next one starts. */
  function ReadRecord(data: seq<byte>, offset: nat): Option<(seq<IpAddr>, nat)>
    requires offset < |data|
  {
    var fixed := AfterOwner(data, offset);
    if fixed + 10 > |data| then None else
    Some((AddressAt(data, fixed + 10, U16(data, fixed)), fixed + 10 + U16(data, fixed + 8)))
  }

  function ParseAnswers(data: seq<byte>, offset: nat, n: nat): Parsed
    decreases n
  {
    if n == 0 || offset + 12 > |data| then Addresses([]) else
    match ReadRecord(data, offset)
    case None => OutOfBounds
    case Some((found, next)) => Prefixed(found, ParseAnswers(data, next, n - 1))
  }

  function Parse(data: seq<byte>): Parsed {
    if |data| < 12 then TooShort else
    if data[3] % 16 != 0 then ServerError(data[3] % 16) else
    ParseAnswers(data, SkipName(data, 12) + 5, U16(data, 6))
  }

  method SkipNameFrom(data: seq<byte>, start: nat) returns (offset: nat)
    ensures offset == SkipName(data, start)
  {
    offset := start;
    while offset < |data| && data[offset] != 0
      invariant SkipName(data, offset) == SkipName(data, start)
      decreases |data| - offset
    {
      offset := offset + data[offset] + 1;
    }
  }

  function Prefixed(ips: seq<IpAddr>, r: Parsed): Parsed {
    if r.Addresses? then Addresses(ips + r.ips) else r
  }

  lemma PrefixedTwice(a: seq<IpAddr>, b: seq<IpAddr>, r: Parsed)
    ensures Prefixed(a, Prefixed(b, r)) == Prefixed(a + b, r)
  {
    if r.Addresses? {
      assert a + (b + r.ips) == (a + b) + r.ips;
    }
  }

  method ParseRecord(data: seq<byte>, start: nat) returns (r: Option<(seq<IpAddr>, nat)>)
    requires start < |data|
    ensures r == ReadRecord(data, start)
  {
    var offset: nat := start;
    if data[offset] >= 0xC0 {
      offset := offset + 2;
    } else {
      offset := SkipNameFrom(data, offset);
      offset := offset + 1;
    }
    if offset + 10 > |data| {
      return None;
    }
    var rtype := U16(data, offset);
    var rdlength := U16(data, offset + 8);
    offset := offset + 10;
    r := Some((AddressAt(data, offset, rtype), offset + rdlength));
  }

  method ReadAnswers(data: seq<byte>, start: nat, ancount: nat) returns (r: Parsed)
    ensures r == ParseAnswers(data, start, ancount)
  {
    var ips: seq<IpAddr> := [];
    var offset: nat := start;
    ghost var whole, rest, left := ParseAnswers(data, start, ancount), ParseAnswers(data, start, ancount), ancount;
    for k := 0 to ancount
      invariant left == ancount - k && rest == ParseAnswers(data, offset, left)
      invariant Prefixed(ips, rest) == whole
    {
      if offset + 12 > |data| {
        break;
      }
      var record := ParseRecord(data, offset);
      if record.None? {
        return OutOfBounds;
      }
      var found, next := record.value.0, record.value.1;
      left, rest := left - 1, ParseAnswers(data, next, left - 1);
      PrefixedTwice(ips, found, rest);
      ips, offset := ips + found, next;
    }
    r := Addresses(ips);
  }

  method ParseDnsResponse(data: seq<byte>) returns (r: Parsed)
    ensures r == Parse(data)
  {
    if |data| < 12 {
      return TooShort;
    }
    var rcode := data[3] % 16;
    if rcode != 0 {
      return ServerError(rcode);
    }
    var ancount := U16(data, 6);
    var offset := SkipNameFrom(data, 12);
    r := ReadAnswers(data, offset + 5, ancount);
  }

  // ---------- Malformed messages ----------

  /** Reading k whole records from offset on ends at o. */
  ghost predicate RecordsLeadTo(data: seq<byte>, offset: nat, k: nat, o: nat)
    decreases k
  {
    if k == 0 then o == offset else
    && offset + 12 <= |data| && ReadRecord(data, offset).Some?
    && RecordsLeadTo(data, ReadRecord(data, offset).value.1, k - 1, o)
  }

  /** Twelve bytes are left for a record at o, but its owner name leaves no room for its fixed part. */
  ghost predicate CutShort(data: seq<byte>, o: nat) {
    o + 12 <= |data| && AfterOwner(data, o) + 10 > |data|
  }

  ghost predicate SomeRecordCutShort(data: seq<byte>, offset: nat, n: nat) {
    exists k: nat, o: nat :: k < n && RecordsLeadTo(data, offset, k, o) && CutShort(data, o)
  }

  /** The answer loop indexes beyond the message exactly when the walk over the records meets one that is cut short. */
  lemma {:induction false} AnswersOutOfBounds(data: seq<byte>, offset: nat, n: nat)
    ensures ParseAnswers(data, offset, n) == OutOfBounds <==> SomeRecordCutShort(data, offset, n)
    decreases n
  {
    if n > 0 && offset + 12 <= |data| {
      var record := ReadRecord(data, offset);
      if record.None? {
        assert RecordsLeadTo(data, offset, 0, offset) && CutShort(data, offset);
      } else {
        var next := record.value.1;
        AnswersOutOfBounds(data, next, n - 1);
        if k: nat, o: nat :| k < n - 1 && RecordsLeadTo(data, next, k, o) && CutShort(data, o) {
          assert RecordsLeadTo(data, offset, k + 1, o);
        }
        if k: nat, o: nat :| k < n && RecordsLeadTo(data, offset, k, o) && CutShort(data, o) {
          assert k > 0 && RecordsLeadTo(data, next, k - 1, o);
        }
      }
    }
  }

  /** A message makes the parser index out of range exactly when it is accepted as a reply and a record is cut short. */
  lemma ParseOutOfBounds(data: seq<byte>)
    ensures Parse(data) == OutOfBounds <==>
              |data| >= 12 && data[3] % 16 == 0 && SomeRecordCutShort(data, SkipName(data, 12) + 5, U16(data, 6))
  {
    if |data| >= 12 && data[3] % 16 == 0 {
      AnswersOutOfBounds(data, SkipName(data, 12) + 5, U16(data, 6));
    }
  }

  /** For example, a reply of 29 bytes whose one answer begins with a label of 63 bytes. */
  lemma CutShortExample()
    ensures Parse([0, 0, 0, 0, 0, 0, 0, 1, 0, 0, 0, 0] + [0, 0, 0, 0, 0] + [63, 0, 0, 0, 0, 0, 0, 0, 0, 0, 0, 0])
         == OutOfBounds
  {
    var data := [0, 0, 0, 0, 0, 0, 0, 1, 0, 0, 0, 0] + [0, 0, 0, 0, 0] + [63, 0, 0, 0, 0, 0, 0, 0, 0, 0, 0, 0];
    assert data[12] == 0 && data[17] == 63 && SkipName(data, 12) == 12;
    assert SkipName(data, 81) == 81;
    assert AfterOwner(data, 17) == 82;
    assert ReadRecord(data, 17).None?;
    assert U16(data, 6) == 1;
  }

  // ---------- Well-formed messages ----------

  datatype Owner = Pointer(hi: byte, lo: byte) | Name(labels: seq<Label>)

  datatype Record = Record(owner: Owner, rtype: int, rclass: int, ttl: seq<byte>, rdata: seq<byte>)

  datatype Message = Message(
    id: int, flagsHigh: byte, flagsLow: byte, qdcount: int, nscount: int, arcount: int,
    question: seq<Label>, qtype: int, qclass: int, answers: seq<Record>, tail: seq<byte>)

  predicate IsU16(n: int) { 0 <= n < 0x10000 }

  ghost predicate ValidOwner(o: Owner) {
    match o
    case Pointer(hi, _) => hi >= 0xC0
    case Name(labels) => Encodable(labels, 63)
  }

  /** An A record carries four bytes and an AAAA record sixteen. */
  ghost predicate ValidRecord(r: Record) {
    && ValidOwner(r.owner) && IsU16(r.rtype) && IsU16(r.rclass) && |r.ttl| == 4 && IsU16(|r.rdata|)
    && (r.rtype == 1 ==> |r.rdata| == 4)
    && (r.rtype == 28 ==> |r.rdata| == 16)
  }

  /** Any message of this shape, a reply to a failed query included. */
  ghost predicate WellFormed(m: Message) {
    && IsU16(m.id) && IsU16(m.qdcount) && IsU16(m.nscount) && IsU16(m.arcount) && IsU16(m.qtype) && IsU16(m.qclass)
    && Encodable(m.question, 255)
    && IsU16(|m.answers|)
    && ValidRecords(m.answers)
  }

  ghost predicate ValidMessage(m: Message) {
    WellFormed(m) && m.flagsLow % 16 == 0
  }

  function OwnerBytes(o: Owner): seq<byte> {
    match o
    case Pointer(hi, lo) => [hi, lo]
    case Name(labels) => NameBytes(labels)
  }

  ghost function FixedBytes(r: Record): (b: seq<byte>)
    requires ValidRecord(r)
    ensures |b| == 10
  {
    ToBe(r.rtype) + ToBe(r.rclass) + r.ttl + ToBe(|r.rdata|)
  }

  ghost function RecordBytes(r: Record): seq<byte>
    requires ValidRecord(r)
  {
    OwnerBytes(r.owner) + FixedBytes(r) + r.rdata
  }

  function Flat<T>(parts: seq<seq<T>>): seq<T> {
    if parts == [] then [] else parts[0] + Flat(parts[1..])
  }

  ghost predicate ValidRecords(rs: seq<Record>) {
    forall i :: 0 <= i < |rs| ==> ValidRecord(rs[i])
  }

  ghost function EachBytes(rs: seq<Record>): (parts: seq<seq<byte>>)
    requires ValidRecords(rs)
    ensures |parts| == |rs| && forall i :: 0 <= i < |rs| ==> parts[i] == RecordBytes(rs[i])
  {
    seq(|rs|, i requires 0 <= i < |rs| => RecordBytes(rs[i]))
  }

  ghost function Question(labels: seq<Label>, qtype: int, qclass: int): seq<byte>
    requires IsU16(qtype) && IsU16(qclass)
  {
    NameBytes(labels) + ToBe(qtype) + ToBe(qclass)
  }

  ghost function Header(m: Message): (b: seq<byte>)
    requires WellFormed(m)
    ensures |b| == 12
  {
    ToBe(m.id) + [m.flagsHigh, m.flagsLow] + ToBe(m.qdcount) + ToBe(|m.answers|) + ToBe(m.nscount) + ToBe(m.arcount)
  }

  ghost function MessageBytes(m: Message): seq<byte>
    requires WellFormed(m)
  {
    Header(m) + Question(m.question, m.qtype, m.qclass) + Flat(EachBytes(m.answers)) + m.tail
  }

  /** The 16-bit numbers written one after another. */
  function Words(b: seq<byte>): (r: seq<int>)
    ensures |r| == |b| / 2
  {
    if |b| < 2 then [] else [256 * (b[0] as int) + b[1]] + Words(b[2..])
  }

  /** The address a record carries, if it is an A or AAAA record (section 2.2 of RFC 3596). */
  ghost function RecordAddress(r: Record): seq<IpAddr>
    requires ValidRecord(r)
  {
    if r.rtype == 1 then [V4(r.rdata)]
    else if r.rtype == 28 then [V6(Words(r.rdata))]
    else []
  }

  ghost function EachAddress(rs: seq<Record>): (parts: seq<seq<IpAddr>>)
    requires ValidRecords(rs)
    ensures |parts| == |rs| && forall i :: 0 <= i < |rs| ==> parts[i] == RecordAddress(rs[i])
  {
    seq(|rs|, i requires 0 <= i < |rs| => RecordAddress(rs[i]))
  }

  /** The A and AAAA addresses of the records, in order. */
  ghost function RecordAddresses(rs: seq<Record>): seq<IpAddr>
    requires ValidRecords(rs)
  {
    Flat(EachAddress(rs))
  }

  lemma OwnerSkipped(data: seq<byte>, offset: nat, o: Owner)
    requires ValidOwner(o) && At(data, offset, OwnerBytes(o))
    ensures offset < |data| && AfterOwner(data, offset) == offset + |OwnerBytes(o)|
  {
    AtIndex(data, offset, OwnerBytes(o), 0);
    if o.Name? {
      ReadNameAt(data, offset, o.labels);
      SkipReadName(data, offset);
    }
  }

  lemma FixedRead(data: seq<byte>, offset: nat, r: Record)
    requires ValidRecord(r) && At(data, offset, FixedBytes(r))
    ensures U16(data, offset) == r.rtype && U16(data, offset + 8) == |r.rdata|
  {
    var f := FixedBytes(r);
    AtIndex(data, offset, f, 0);
    AtIndex(data, offset, f, 1);
    AtIndex(data, offset, f, 8);
    AtIndex(data, offset, f, 9);
  }

  lemma {:induction false} WordAt(b: seq<byte>, i: nat)
    requires 2 * i + 1 < |b|
    ensures Words(b)[i] == 256 * (b[2 * i] as int) + b[2 * i + 1]
  {
    if i > 0 {
      WordAt(b[2..], i - 1);
    }
  }

  lemma SegmentsAreWords(data: seq<byte>, offset: nat, rdata: seq<byte>)
    requires |rdata| == 16 && At(data, offset, rdata)
    ensures Segments(data, offset) == Words(rdata)
  {
    forall i: nat | i < 8 ensures Segments(data, offset)[i] == Words(rdata)[i] {
      AtIndex(data, offset, rdata, 2 * i);
      AtIndex(data, offset, rdata, 2 * i + 1);
      WordAt(rdata, i);
    }
  }

  lemma AddressRead(data: seq<byte>, offset: nat, r: Record)
    requires ValidRecord(r) && At(data, offset, r.rdata)
    ensures AddressAt(data, offset, r.rtype) == RecordAddress(r)
  {
    if r.rtype == 28 {
      SegmentsAreWords(data, offset, r.rdata);
    }
  }

  lemma RecordParts(data: seq<byte>, offset: nat, r: Record)
    requires ValidRecord(r) && At(data, offset, RecordBytes(r))
    ensures var fixed := offset + |OwnerBytes(r.owner)|;
            && At(data, offset, OwnerBytes(r.owner)) && At(data, fixed, FixedBytes(r)) && At(data, fixed + 10, r.rdata)
            && offset + |RecordBytes(r)| == fixed + 10 + |r.rdata| <= |data|
  {
    var o, f := OwnerBytes(r.owner), FixedBytes(r);
    AtSplit(data, offset, o + f, r.rdata);
    AtSplit(data, offset, o, f);
  }

  lemma ReadRecordIs(data: seq<byte>, offset: nat, fixed: nat, rtype: int, rdlength: nat)
    requires offset < |data| && AfterOwner(data, offset) == fixed && fixed + 10 <= |data|
    requires U16(data, fixed) == rtype && U16(data, fixed + 8) == rdlength
    ensures ReadRecord(data, offset) == Some((AddressAt(data, fixed + 10, rtype), fixed + 10 + rdlength))
  {
  }

  /** The parser at the start of a record finds its address and the start of the next. */
  lemma RecordRead(data: seq<byte>, offset: nat, r: Record)
    requires ValidRecord(r) && At(data, offset, RecordBytes(r))
    ensures offset < |data|
    ensures ReadRecord(data, offset) == Some((RecordAddress(r), offset + |RecordBytes(r)|))
  {
    var fixed := offset + |OwnerBytes(r.owner)|;
    RecordParts(data, offset, r);
    assert offset < |data| && AfterOwner(data, offset) == fixed by { OwnerSkipped(data, offset, r.owner); }
    assert U16(data, fixed) == r.rtype && U16(data, fixed + 8) == |r.rdata| by { FixedRead(data, fixed, r); }
    assert AddressAt(data, fixed + 10, r.rtype) == RecordAddress(r) by { AddressRead(data, fixed + 10, r); }
    ReadRecordIs(data, offset, fixed, r.rtype, |r.rdata|);
  }

  /** Wherever these bytes stand, the parser finds these addresses and the end of the bytes. */
  ghost predicate Decodes(bytes: seq<byte>, found: seq<IpAddr>) {
    && |bytes| >= 11
    && (|bytes| == 11 ==> found == [])
    && forall data, offset: nat :: At(data, offset, bytes) ==>
         offset < |data| && ReadRecord(data, offset) == Some((found, offset + |bytes|))
  }

  lemma RecordDecodes(r: Record)
    requires ValidRecord(r)
    ensures Decodes(RecordBytes(r), RecordAddress(r))
  {
    assert |RecordBytes(r)| == |OwnerBytes(r.owner)| + 10 + |r.rdata|;
    forall data, offset: nat | At(data, offset, RecordBytes(r))
      ensures offset < |data| && ReadRecord(data, offset) == Some((RecordAddress(r), offset + |RecordBytes(r)|))
    {
      RecordRead(data, offset, r);
    }
  }

  ghost predicate AllDecode(parts: seq<seq<byte>>, found: seq<seq<IpAddr>>) {
    |parts| == |found| && forall i :: 0 <= i < |parts| ==> Decodes(parts[i], found[i])
  }

  lemma {:induction false} AtLeastEleven(parts: seq<seq<byte>>, found: seq<seq<IpAddr>>)
    requires AllDecode(parts, found)
    ensures |Flat(parts)| >= 11 * |parts|
    ensures |Flat(parts)| < 12 ==> Flat(found) == []
  {
    if parts != [] {
      AtLeastEleven(parts[1..], found[1..]);
    }
  }

  lemma ParseStep(data: seq<byte>, offset: nat, n: nat, found: seq<IpAddr>, next: nat, rest: seq<IpAddr>)
    requires n > 0 && offset + 12 <= |data| && ReadRecord(data, offset) == Some((found, next))
    requires ParseAnswers(data, next, n - 1) == Addresses(rest)
    ensures ParseAnswers(data, offset, n) == Addresses(found + rest)
  {
  }

  lemma {:induction false} AnswersRead(
    data: seq<byte>, offset: nat, n: nat, parts: seq<seq<byte>>, found: seq<seq<IpAddr>>)
    requires n == |parts| && AllDecode(parts, found) && At(data, offset, Flat(parts))
    ensures ParseAnswers(data, offset, n) == Addresses(Flat(found))
    decreases n
  {
    if n == 0 {
    } else if offset + 12 > |data| {
      AtLeastEleven(parts, found);
    } else {
      var next, parts', found' := offset + |parts[0]|, parts[1..], found[1..];
      AtSplit(data, offset, parts[0], Flat(parts'));
      assert Decodes(parts[0], found[0]);
      assert ReadRecord(data, offset) == Some((found[0], next));
      AnswersRead(data, next, n - 1, parts', found');
      ParseStep(data, offset, n, found[0], next, Flat(found'));
    }
  }

  /**
    Every well-formed response with a label-encoded question and answers owned by a pointer or a
    full name is read within bounds, and yields exactly the A and AAAA addresses, in order; whatever
    follows the answers is ignored.
   */
  lemma WellFormedResponseIsRead(m: Message)
    requires ValidMessage(m)
    ensures Parse(MessageBytes(m)) == Addresses(RecordAddresses(m.answers))
  {
    var h, name := Header(m), NameBytes(m.question);
    var types, answers := ToBe(m.qtype) + ToBe(m.qclass), Flat(EachBytes(m.answers));
    var data := h + (name + types) + answers + m.tail;
    assert MessageBytes(m) == data by {
      assert Question(m.question, m.qtype, m.qclass) == name + types;
    }
    assert At(data, 0, h + (name + types) + answers);
    ResponseRead(data, m, types);
  }

  lemma ResponseRead(data: seq<byte>, m: Message, types: seq<byte>)
    requires ValidMessage(m) && |types| == 4
    requires At(data, 0, Header(m) + (NameBytes(m.question) + types) + Flat(EachBytes(m.answers)))
    ensures Parse(data) == Addresses(RecordAddresses(m.answers))
  {
    var h, name, answers := Header(m), NameBytes(m.question), Flat(EachBytes(m.answers));
    AtSplit(data, 0, h + (name + types), answers);
    AtSplit(data, 0, h, name + types);
    AtSplit(data, 12, name, types);
    ReadNameAt(data, 12, m.question);
    SkipReadName(data, 12);
    HeaderRead(data, m);
    forall i | 0 <= i < |m.answers| ensures Decodes(EachBytes(m.answers)[i], EachAddress(m.answers)[i]) {
      RecordDecodes(m.answers[i]);
    }
    AnswersRead(data, 12 + |name| + 4, |m.answers|, EachBytes(m.answers), EachAddress(m.answers));
    ParseIs(data, 12 + |name| - 1, |m.answers|, Addresses(RecordAddresses(m.answers)));
  }

  lemma ParseIs(data: seq<byte>, zero: nat, n: nat, r: Parsed)
    requires |data| >= 12 && data[3] % 16 == 0 && SkipName(data, 12) == zero && U16(data, 6) == n
    requires ParseAnswers(data, zero + 5, n) == r
    ensures Parse(data) == r
  {
  }

  // ---------- Addresses in wire order ----------

  predicate ValidIp(ip: IpAddr) {
    match ip
    case V4(octets) => |octets| == 4
    case V6(segments) => |segments| == 8 && forall i :: 0 <= i < |segments| ==> IsU16(segments[i])
  }

  function SegmentBytes(segments: seq<int>): (b: seq<byte>)
    requires forall i :: 0 <= i < |segments| ==> IsU16(segments[i])
    ensures |b| == 2 * |segments|
  {
    if segments == [] then [] else
    assert IsU16(segments[0]);
    ToBe(segments[0]) + SegmentBytes(segments[1..])
  }

  /** An address as it is sent: its octets, or its segments in order, each with the high byte first. */
  function AddressBytes(ip: IpAddr): seq<byte>
    requires ValidIp(ip)
  {
    match ip
    case V4(octets) => octets
    case V6(segments) => SegmentBytes(segments)
  }

  lemma {:induction false} WordsOfSegments(segments: seq<int>)
    requires forall i :: 0 <= i < |segments| ==> IsU16(segments[i])
    ensures Words(SegmentBytes(segments)) == segments
  {
    if segments != [] {
      WordsOfSegments(segments[1..]);
      assert SegmentBytes(segments)[2..] == SegmentBytes(segments[1..]);
      assert segments == [segments[0]] + segments[1..];
    }
  }

  /** r is an A or AAAA record of this address. */
  ghost predicate CarriesAddress(r: Record, ip: IpAddr) {
    ValidRecord(r) && ValidIp(ip) && r.rtype == (if ip.V4? then 1 else 28) && r.rdata == AddressBytes(ip)
  }

  lemma CarriedIsFound(r: Record, ip: IpAddr)
    requires CarriesAddress(r, ip)
    ensures RecordAddress(r) == [ip]
  {
    if ip.V6? {
      WordsOfSegments(ip.segments);
    }
  }

  lemma {:induction false} SinglesFlat<T>(parts: seq<seq<T>>, singles: seq<T>)
    requires |parts| == |singles| && forall i :: 0 <= i < |parts| ==> parts[i] == [singles[i]]
    ensures Flat(parts) == singles
  {
    if parts != [] {
      SinglesFlat(parts[1..], singles[1..]);
      assert singles == [singles[0]] + singles[1..];
    }
  }

  /** The addresses sent are the addresses found, byte for byte and in order. */
  lemma AddressesComeBack(m: Message, ips: seq<IpAddr>)
    requires ValidMessage(m) && |ips| == |m.answers|
    requires forall i :: 0 <= i < |ips| ==> CarriesAddress(m.answers[i], ips[i])
    ensures Parse(MessageBytes(m)) == Addresses(ips)
  {
    WellFormedResponseIsRead(m);
    forall i | 0 <= i < |ips| ensures EachAddress(m.answers)[i] == [ips[i]] {
      CarriedIsFound(m.answers[i], ips[i]);
    }
    SinglesFlat(EachAddress(m.answers), ips);
  }

  /** A reply with an error code is reported as that error, whatever it contains; short messages as such. */
  lemma ErrorReplyIsReported(m: Message)
    requires WellFormed(m) && m.flagsLow % 16 != 0
    ensures Parse(MessageBytes(m)) == ServerError(m.flagsLow % 16)
    ensures Parse(MessageBytes(m)[..11]) == TooShort
  {
    var data, h := MessageBytes(m), Header(m);
    assert data == h + (Question(m.question, m.qtype, m.qclass) + Flat(EachBytes(m.answers)) + m.tail);
    assert At(data, 0, h);
    HeaderRead(data, m);
  }

  lemma HeaderRead(data: seq<byte>, m: Message)
    requires WellFormed(m) && At(data, 0, Header(m))
    ensures |data| >= 12 && data[3] == m.flagsLow && U16(data, 6) == |m.answers|
  {
    AtIndex(data, 0, Header(m), 3);
    AtIndex(data, 0, Header(m), 6);
    AtIndex(data, 0, Header(m), 7);
  }

  // ---------- Queries ----------

  method BuildDnsQuery(id: int, domain: seq<byte>, qtype: int) returns (buf: seq<byte>)
    requires IsU16(id) && IsU16(qtype)
    ensures buf == ToBe(id) + [1, 0, 0, 1, 0, 0, 0, 0, 0, 0] + Question(Split(domain), qtype, 1)
    ensures buf[12..] == NameBytes(Split(domain)) + [qtype / 256, qtype % 256] + [0, 1]
  {
    buf := [];
    buf := buf + ToBe(id);
    buf := buf + ToBe(0x0100);
    buf := buf + ToBe(0x0001);
    buf := buf + ToBe(0x0000);
    buf := buf + ToBe(0x0000);
    buf := buf + ToBe(0x0000);
    buf := EncodeDomainName(domain, buf);
    buf := buf + ToBe(qtype);
    buf := buf + ToBe(0x0001);
  }

  /**
    The query and the parser agree on the question: a response that repeats the question of a query
    for an encodable domain is read, and the question names the domain asked for.
   */
  lemma QueryAndResponseAgree(query: seq<byte>, id: int, domain: seq<byte>, qtype: int, m: Message, response: seq<byte>)
    requires IsU16(id) && IsU16(qtype) && ValidMessage(m.(question := [], qtype := qtype, qclass := 1))
    requires query == ToBe(id) + [1, 0, 0, 1, 0, 0, 0, 0, 0, 0] + Question(Split(domain), qtype, 1)
    requires Encodable(Split(domain), 255)
    requires response == Header(m.(question := [], qtype := qtype, qclass := 1)) + query[12..]
                         + Flat(EachBytes(m.answers)) + m.tail
    ensures ReadName(query, 12).Some? && Join(ReadName(query, 12).value.0) == domain
    ensures Parse(response) == Addresses(RecordAddresses(m.answers))
  {
    var full := m.(question := Split(domain), qtype := qtype, qclass := 1);
    var head := ToBe(id) + [1, 0, 0, 1, 0, 0, 0, 0, 0, 0];
    assert query == head + NameBytes(Split(domain)) + (ToBe(qtype) + ToBe(1));
    ReadNameAt(query, 12, Split(domain));
    JoinSplit(domain);
    assert query[12..] == Question(Split(domain), qtype, 1);
    WellFormedResponseIsRead(full);
  }

  // ---------- The layout, field by field ----------

  /** The twelve bytes of a header (section 4.1.1 of RFC 1035); numbers have the high byte first. */
  lemma HeaderLayout(m: Message)
    requires WellFormed(m)
    ensures var b := Header(m);
            && |b| == 12
            && 256 * (b[0] as int) + b[1] == m.id && b[2] == m.flagsHigh && b[3] == m.flagsLow
            && 256 * (b[4] as int) + b[5] == m.qdcount && 256 * (b[6] as int) + b[7] == |m.answers|
            && 256 * (b[8] as int) + b[9] == m.nscount && 256 * (b[10] as int) + b[11] == m.arcount
  {
  }

  /** What follows the owner name of a record (section 4.1.3 of RFC 1035). */
  lemma RecordLayout(r: Record)
    requires ValidRecord(r)
    ensures var n, b := |OwnerBytes(r.owner)|, RecordBytes(r);
            && |b| == n + 10 + |r.rdata| && b[..n] == OwnerBytes(r.owner)
            && 256 * (b[n] as int) + b[n + 1] == r.rtype && 256 * (b[n + 2] as int) + b[n + 3] == r.rclass
            && b[n + 4..n + 8] == r.ttl && 256 * (b[n + 8] as int) + b[n + 9] == |r.rdata| && b[n + 10..] == r.rdata
  {
    var n, b := |OwnerBytes(r.owner)|, RecordBytes(r);
    assert b[..n] == OwnerBytes(r.owner) && b[n..n + 10] == FixedBytes(r) && b[n + 10..] == r.rdata;
    assert At(b, n, FixedBytes(r));
    AtIndex(b, n, FixedBytes(r), 1);
    AtIndex(b, n, FixedBytes(r), 2);
    AtIndex(b, n, FixedBytes(r), 3);
    AtIndex(b, n, FixedBytes(r), 8);
    AtIndex(b, n, FixedBytes(r), 9);
    assert FixedBytes(r) == (ToBe(r.rtype) + ToBe(r.rclass)) + r.ttl + ToBe(|r.rdata|);
    assert FixedBytes(r)[4..8] == r.ttl;
    assert b[n + 4..n + 8] == b[n..n + 10][4..8];
  }

  lemma {:induction false} SegmentBytesAt(segments: seq<int>, i: nat)
    requires i < |segments| && forall j :: 0 <= j < |segments| ==> IsU16(segments[j])
    ensures 256 * (SegmentBytes(segments)[2 * i] as int) + SegmentBytes(segments)[2 * i + 1] == segments[i]
  {
    if i > 0 {
      SegmentBytesAt(segments[1..], i - 1);
    }
  }

  /** "a.b" has two labels, written with their lengths and a final zero. */
  lemma ExampleName()
    ensures Split([97, 46, 98]) == [[97], [98]] && NameBytes([[97], [98]]) == [1, 97, 1, 98, 0]
  {
    var all: seq<byte> := [97, 46, 98];
    assert all[1..] == [46, 98] && all[1..][1..] == [98] && all[1..][1..][1..] == [];
    assert Split(all[1..][1..][1..]) == [[]];
    assert all[2..] == [98] && [all[2]] + [] == [98];
    assert Split(all[1..][1..]) == [[98]] + [];
    assert Split(all[1..]) == [[], [98]];
    assert [all[0]] + [] == [97] && Split(all[1..])[1..] == [[98]];
    var labels: seq<Label> := [[97], [98]];
    assert labels[1..] == [[98]] && labels[1..][1..] == [];
    assert NameBytes(labels[1..]) == [1, 98, 0];
  }
}
