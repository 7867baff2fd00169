/** The unpadded base64url encoding of a DNS query in a DoH request (section 5 of RFC 4648). */
module Base64Url {
  import opened Common

  const UPPER: string := "ABCDEFGHIJKLMNOPQRSTUVWXYZ"
  const LOWER: string := "abcdefghijklmnopqrstuvwxyz"
  const OTHER: string := "0123456789-_"
  const TABLE: string := UPPER + LOWER + OTHER

  type sextet = v: int | 0 <= v < 64 witness 0

  /** The position of c in the table. */
  function SextetOf(c: char): (r: Option<sextet>) {
    if 'A' <= c <= 'Z' then Some(c as int - 'A' as int)
    else if 'a' <= c <= 'z' then Some(c as int - 'a' as int + 26)
    else if '0' <= c <= '9' then Some(c as int - '0' as int + 52)
    else if c == '-' then Some(62)
    else if c == '_' then Some(63)
    else None
  }

  /** From position i on, the characters of part stand for base, base + 1, ... */
  ghost predicate Counts(part: string, base: nat, i: nat)
    decreases |part| - i
  {
    i < |part| ==> SextetOf(part[i]) == Some(base + i) && Counts(part, base, i + 1)
  }

  lemma {:induction false} CountsAt(part: string, base: nat, i: nat, k: nat)
    requires Counts(part, base, i) && i <= k < |part|
    ensures SextetOf(part[k]) == Some(base + k)
    decreases k - i
  {
    if i < k {
      CountsAt(part, base, i + 1, k);
    }
  }

  lemma UpperCounts()
    ensures Counts(UPPER, 0, 0)
  {
    assert Counts(UPPER, 0, 20);
    assert Counts(UPPER, 0, 13);
    assert Counts(UPPER, 0, 6);
  }

  lemma LowerCounts()
    ensures Counts(LOWER, 26, 0)
  {
    assert Counts(LOWER, 26, 20);
    assert Counts(LOWER, 26, 13);
    assert Counts(LOWER, 26, 6);
  }

  lemma OtherCounts()
    ensures Counts(OTHER, 52, 0)
  {
  }

  lemma Parts(a: string, b: string, c: string, v: nat)
    requires v < |a| + |b| + |c|
    ensures (a + b + c)[v] == if v < |a| then a[v] else if v < |a| + |b| then b[v - |a|] else c[v - |a| - |b|]
  {
  }

  lemma InverseOf(a: string, b: string, c: string, v: sextet)
    requires |a| == 26 && |b| == 26 && |c| == 12
    requires Counts(a, 0, 0) && Counts(b, 26, 0) && Counts(c, 52, 0)
    ensures SextetOf((a + b + c)[v]) == Some(v)
  {
    Parts(a, b, c, v);
    if v < 26 {
      CountsAt(a, 0, 0, v);
    } else if v < 52 {
      CountsAt(b, 26, 0, v - 26);
    } else {
      CountsAt(c, 52, 0, v - 52);
    }
  }

  /** The table's characters stand for 0 to 63 in order. */
  lemma TableInverse(v: sextet)
    ensures SextetOf(TABLE[v]) == Some(v)
  {
    UpperCounts();
    LowerCounts();
    OtherCounts();
    InverseOf(UPPER, LOWER, OTHER, v);
  }

  lemma SextetInjective(c: char, d: char)
    requires SextetOf(c).Some? && SextetOf(c) == SextetOf(d)
    ensures c == d
  {
  }

  lemma TableComplete(c: char)
    requires SextetOf(c).Some?
    ensures TABLE[SextetOf(c).value] == c
  {
    var v := SextetOf(c).value;
    TableInverse(v);
    SextetInjective(c, TABLE[v]);
  }

  // ---------- Six-bit groups ----------

  /** The 24-bit group of three bytes; the source builds it with shifts and ors of disjoint bits. */
  function Word(a: byte, b: byte, c: byte): int {
    0x10000 * a + 0x100 * b + c
  }

  /** The four six-bit groups of three bytes, most significant first. */
  function Group(a: byte, b: byte, c: byte): seq<sextet> {
    var n := Word(a, b, c);
    [n / 0x40000 % 0x40, n / 0x1000 % 0x40, n / 0x40 % 0x40, n % 0x40]
  }

  /** The six-bit groups of data; a partial last group is filled with zeros. */
  function Groups(data: seq<byte>): seq<sextet> {
    if |data| >= 3 then Group(data[0], data[1], data[2]) + Groups(data[3..])
    else if |data| == 2 then Group(data[0], data[1], 0)[..3]
    else if |data| == 1 then Group(data[0], 0, 0)[..2]
    else []
  }

  function First(w: sextet, x: sextet): byte { 4 * (w as int) + x / 16 }

  function Second(x: sextet, y: sextet): byte { x % 16 * 16 + y / 4 }

  function Third(y: sextet, z: sextet): byte { (y % 4 * 64) as int + z as int }

  /** The bytes whose groups are g; None when there are none, or when filler bits are not zero. */
  function Ungroup(g: seq<sextet>): Option<seq<byte>> {
    if |g| == 0 then Some([]) else
    if |g| == 1 then None else
    if |g| == 2 then (if g[1] % 16 == 0 then Some([First(g[0], g[1])]) else None) else
    if |g| == 3 then (if g[2] % 4 == 0 then Some([First(g[0], g[1]), Second(g[1], g[2])]) else None) else
    var rest := Ungroup(g[4..]);
    if rest.None? then None else
    Some([First(g[0], g[1]), Second(g[1], g[2]), Third(g[2], g[3])] + rest.value)
  }

  lemma Quotient(n: int, d: int, q: int, r: int)
    requires 0 <= r < d && n == d * q + r
    ensures n / d == q && n % d == r
  {
    var k := n / d - q;
    assert d * k == r - n % d;
    AtLeastOneStep(d, k);
  }

  lemma AtLeastOneStep(d: int, k: int)
    requires d > 0
    ensures k >= 1 ==> d * k >= d
    ensures k <= -1 ==> d * k <= -d
  {
  }

  /** The groups of three bytes, read bytewise. */
  lemma GroupBytes(a: byte, b: byte, c: byte)
    ensures Group(a, b, c) == [a / 4, a % 4 * 16 + b / 16, b % 16 * 4 + c / 64, c % 64]
  {
    var n := Word(a, b, c);
    Quotient(n, 0x40000, a / 4, 0x10000 * (a % 4) + 0x100 * b + c);
    Quotient(n, 0x1000, 64 * (a / 4) + (a % 4 * 16 + b / 16), 0x100 * (b % 16) + c);
    Quotient(64 * (a / 4) + (a % 4 * 16 + b / 16), 64, a / 4, a % 4 * 16 + b / 16);
    Quotient(n, 0x40, 0x400 * a + 4 * b + c / 64, c % 64);
    Quotient(0x400 * a + 4 * b + c / 64, 64, 16 * a + b / 16, b % 16 * 4 + c / 64);
  }

  lemma BytesOfGroup(a: byte, b: byte, c: byte)
    ensures var g := Group(a, b, c);
            First(g[0], g[1]) == a && Second(g[1], g[2]) == b && Third(g[2], g[3]) == c
    ensures c == 0 ==> Group(a, b, c)[2] % 4 == 0
    ensures b == 0 && c == 0 ==> Group(a, b, c)[1] % 16 == 0
  {
    GroupBytes(a, b, c);
  }

  lemma GroupOfBytes(w: sextet, x: sextet, y: sextet, z: sextet)
    ensures Group(First(w, x), Second(x, y), Third(y, z)) == [w, x, y, z]
  {
    var a, b, c := First(w, x), Second(x, y), Third(y, z);
    GroupBytes(a, b, c);
    assert a / 4 == w && a % 4 == x / 16;
    assert b / 16 == x % 16 && b % 16 == y / 4;
    assert c / 64 == y % 4 && c % 64 == z;
  }

  lemma {:induction false} UngroupGroups(data: seq<byte>)
    ensures Ungroup(Groups(data)) == Some(data)
  {
    if |data| >= 3 {
      BytesOfGroup(data[0], data[1], data[2]);
      UngroupGroups(data[3..]);
      assert Groups(data)[4..] == Groups(data[3..]);
      assert data == [data[0], data[1], data[2]] + data[3..];
    } else if |data| == 2 {
      BytesOfGroup(data[0], data[1], 0);
      assert data == [data[0], data[1]];
    } else if |data| == 1 {
      BytesOfGroup(data[0], 0, 0);
      assert data == [data[0]];
    }
  }

  lemma {:induction false} GroupsUngroup(g: seq<sextet>)
    requires Ungroup(g).Some?
    ensures Groups(Ungroup(g).value) == g
  {
    var d := Ungroup(g).value;
    if |g| >= 4 {
      GroupsUngroup(g[4..]);
      GroupOfBytes(g[0], g[1], g[2], g[3]);
      assert d[3..] == Ungroup(g[4..]).value;
      assert g == [g[0], g[1], g[2], g[3]] + g[4..];
    } else if |g| == 3 {
      GroupOfBytes(g[0], g[1], g[2], 0);
      assert g == [g[0], g[1], g[2], 0][..3];
    } else if |g| == 2 {
      GroupOfBytes(g[0], g[1], 0, 0);
      assert g == [g[0], g[1], 0, 0][..2];
    }
  }

  lemma {:induction false} GroupCount(data: seq<byte>)
    ensures |Groups(data)| == (4 * |data| + 2) / 3
  {
    if |data| >= 3 {
      GroupCount(data[3..]);
    }
  }

  /** The number with these digits in base 64. */
  function Number(w: int, x: int, y: int, z: int): int {
    0x40000 * w + 0x1000 * x + 0x40 * y + z
  }

  lemma GroupNumber(a: byte, b: byte, c: byte)
    ensures var g := Group(a, b, c);
            && Number(g[0], g[1], g[2], g[3]) == Word(a, b, c)
            && (c == 0 ==> g[3] == 0) && (b == 0 && c == 0 ==> g[2] == 0)
  {
    GroupBytes(a, b, c);
  }

  /** The k-th group, zero beyond the last. */
  function Digit(g: seq<sextet>, k: nat): int {
    if k < |g| then g[k] else 0
  }

  /** The k-th byte, zero beyond the last. */
  function Octet(data: seq<byte>, k: nat): byte {
    if k < |data| then data[k] else 0
  }

  lemma DigitsBehind(g: seq<sextet>, head: seq<sextet>, rest: seq<sextet>, k: nat)
    requires g == head + rest && |head| == 4
    ensures Digit(g, k + 4) == Digit(rest, k) && Digit(g, k + 5) == Digit(rest, k + 1)
    ensures Digit(g, k + 6) == Digit(rest, k + 2) && Digit(g, k + 7) == Digit(rest, k + 3)
  {
  }

  lemma OctetsBehind(data: seq<byte>, j: nat)
    requires |data| >= 3
    ensures Octet(data, j + 3) == Octet(data[3..], j) && Octet(data, j + 4) == Octet(data[3..], j + 1)
    ensures Octet(data, j + 5) == Octet(data[3..], j + 2)
  {
  }

  /**
    The i-th three bytes and the i-th four groups are the same number, most significant digit first;
    what is missing at the end counts as zeros.
   */
  lemma {:induction false} SameNumber(data: seq<byte>, i: nat)
    requires 3 * i < |data|
    ensures var g, k, j := Groups(data), 4 * i, 3 * i;
            Number(Digit(g, k), Digit(g, k + 1), Digit(g, k + 2), Digit(g, k + 3))
              == Word(Octet(data, j), Octet(data, j + 1), Octet(data, j + 2))
  {
    GroupNumber(data[0], Octet(data, 1), Octet(data, 2));
    if i > 0 {
      SameNumber(data[3..], i - 1);
      DigitsBehind(Groups(data), Group(data[0], data[1], data[2]), Groups(data[3..]), 4 * i - 4);
      OctetsBehind(data, 3 * i - 3);
    }
  }

  // ---------- Text ----------

  function Text(g: seq<sextet>): (s: string)
    ensures |s| == |g|
    ensures forall i :: 0 <= i < |g| ==> s[i] == TABLE[g[i]]
  {
    seq(|g|, i requires 0 <= i < |g| => TABLE[g[i]])
  }

  function Sextets(s: string): (g: Option<seq<sextet>>)
    ensures g.Some? ==> |g.value| == |s| && forall i :: 0 <= i < |s| ==> SextetOf(s[i]) == Some(g.value[i])
    ensures g.None? ==> exists i :: 0 <= i < |s| && SextetOf(s[i]).None?
  {
    if s == "" then Some([]) else
    var rest := Sextets(s[1..]);
    if SextetOf(s[0]).None? || rest.None? then None else Some([SextetOf(s[0]).value] + rest.value)
  }

  function Encode(data: seq<byte>): string {
    Text(Groups(data))
  }

  function Decode(s: string): Option<seq<byte>> {
    if Sextets(s).None? then None else Ungroup(Sextets(s).value)
  }

  lemma TextSextets(g: seq<sextet>)
    ensures Sextets(Text(g)) == Some(g)
  {
    var s := Text(g);
    forall i | 0 <= i < |g| ensures SextetOf(s[i]) == Some(g[i]) {
      TableInverse(g[i]);
    }
    assert Sextets(s).Some? && Sextets(s).value == g;
  }

  lemma SextetsText(s: string)
    requires Sextets(s).Some?
    ensures Text(Sextets(s).value) == s
  {
    forall i | 0 <= i < |s| ensures Text(Sextets(s).value)[i] == s[i] {
      TableComplete(s[i]);
    }
  }

  /**
    Decoding the encoding gives the bytes back, and nothing but the encoding of some bytes decodes
    to them.
   */
  lemma RoundTrip(data: seq<byte>, s: string)
    ensures Decode(s) == Some(data) <==> Encode(data) == s
  {
    TextSextets(Groups(data));
    UngroupGroups(data);
    if Decode(s) == Some(data) {
      GroupsUngroup(Sextets(s).value);
      SextetsText(s);
    }
  }

  /** Four characters for every three bytes, rounded up, from the URL-safe alphabet, unpadded. */
  lemma Shape(data: seq<byte>)
    ensures |Encode(data)| == (4 * |data| + 2) / 3
    ensures forall i :: 0 <= i < |Encode(data)| ==> SextetOf(Encode(data)[i]).Some? && Encode(data)[i] != '='
  {
    GroupCount(data);
    TextSextets(Groups(data));
  }

  lemma GroupsOfNumbers(a: byte, b: byte, c: byte, g: seq<sextet>)
    requires |g| == 4 && Number(g[0], g[1], g[2], g[3]) == Word(a, b, c)
    ensures Group(a, b, c) == g
  {
    var n := Word(a, b, c);
    var w: int, x: int, y: int, z: int := g[0], g[1], g[2], g[3];
    Quotient(n, 0x40000, w, 0x1000 * x + 0x40 * y + z);
    Quotient(n, 0x1000, 64 * w + x, 0x40 * y + z);
    Quotient(64 * w + x, 64, w, x);
    Quotient(n, 0x40, 0x1000 * w + 64 * x + y, z);
    Quotient(0x1000 * w + 64 * x + y, 64, 64 * w + x, y);
  }

  lemma FoobarGroups()
    ensures Groups([102, 111, 111, 98, 97, 114]) == [25, 38, 61, 47, 24, 38, 5, 50]
  {
    var foobar: seq<byte> := [102, 111, 111, 98, 97, 114];
    GroupsOfNumbers(102, 111, 111, [25, 38, 61, 47]);
    GroupsOfNumbers(98, 97, 114, [24, 38, 5, 50]);
    assert foobar[3..] == [98, 97, 114] && foobar[3..][3..] == [];
    assert Groups(foobar[3..]) == Group(98, 97, 114) + [];
  }

  /** The letters "foobar" of section 10 of RFC 4648, and two bytes that need both URL-safe characters. */
  lemma KnownAnswers()
    ensures Encode([102, 111, 111, 98, 97, 114]) == "Zm9vYmFy"
    ensures Encode([251, 255]) == "-_8"
  {
    FoobarGroups();
    GroupsOfNumbers(251, 255, 0, [62, 63, 60, 0]);
    assert Groups([251, 255]) == [62, 63, 60];
  }

  // ---------- The encoder ----------

  lemma TextAppend(g: seq<sextet>, h: seq<sextet>)
    ensures Text(g + h) == Text(g) + Text(h)
  {
  }

  /** Appends the first k characters of the group of a, b and c. */
  method PushGroup(encoded: string, a: byte, b: byte, c: byte, k: nat) returns (r: string)
    requires k <= 4
    ensures r == encoded + Text(Group(a, b, c)[..k])
  {
    var n := Word(a, b, c);
    r := encoded;
    if k > 0 { r := r + [TABLE[n / 0x40000 % 0x40]]; }
    if k > 1 { r := r + [TABLE[n / 0x1000 % 0x40]]; }
    if k > 2 { r := r + [TABLE[n / 0x40 % 0x40]]; }
    if k > 3 { r := r + [TABLE[n % 0x40]]; }
  }

  /** What the encoder appends for the next three bytes of data, and what is then left to encode. */
  lemma EncodeNext(data: seq<byte>, encoded: string)
    requires |data| >= 3
    ensures encoded + Encode(data) == (encoded + Text(Group(data[0], data[1], data[2])[..4])) + Encode(data[3..])
  {
    var g := Group(data[0], data[1], data[2]);
    assert g[..4] == g;
    TextAppend(g, Groups(data[3..]));
    assert encoded + (Text(g) + Encode(data[3..])) == (encoded + Text(g)) + Encode(data[3..]);
  }

  lemma EncodeLast(data: seq<byte>)
    ensures |data| == 2 ==> Encode(data) == Text(Group(data[0], data[1], 0)[..3])
    ensures |data| == 1 ==> Encode(data) == Text(Group(data[0], 0, 0)[..2])
    ensures |data| == 0 ==> Encode(data) == ""
  {
  }

  method Base64Encode(data: seq<byte>) returns (encoded: string)
    ensures encoded == Encode(data)
  {
    encoded := "";
    ghost var whole, rest := Encode(data), data;
    var i := 0;
    while i + 2 < |data|
      invariant 0 <= i <= |data| && rest == data[i..]
      invariant encoded + Encode(rest) == whole
    {
      assert data[i] == rest[0] && data[i + 1] == rest[1] && data[i + 2] == rest[2];
      EncodeNext(rest, encoded);
      encoded := PushGroup(encoded, data[i], data[i + 1], data[i + 2], 4);
      rest := rest[3..];
      i := i + 3;
    }
    EncodeLast(rest);
    var remaining := |data| - i;
    if remaining == 2 {
      encoded := PushGroup(encoded, data[i], data[i + 1], 0, 3);
    } else if remaining == 1 {
      encoded := PushGroup(encoded, data[i], 0, 0, 2);
    } else {
      assert encoded + "" == encoded;
    }
  }
}
