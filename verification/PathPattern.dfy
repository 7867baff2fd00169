/**
  Path patterns: a small class of regexes compiled to literal and `[^/]+` chunks and matched greedily
  in one pass.  The reference is what the regex means.
*/
module PathPattern {
  import opened Common

  datatype SegChunk = Wild | Lit(text: string)

  const TOKEN: string := "[^/]+"
  const STAR: string := ".*"

  // ---------- Matching ----------

  predicate NoSlash(s: string) {
    '/' !in s
  }

  /**
    The regex reading: each wildcard is some non-empty slash-free piece of the path, literals stand
    as they are, and what follows the last chunk is free.
   */
  ghost predicate RegexMatches(chunks: seq<SegChunk>, path: string) {
    if chunks == [] then true else
    match chunks[0]
    case Lit(text) => text <= path && RegexMatches(chunks[1..], path[|text|..])
    case Wild => exists n :: 1 <= n <= |path| && NoSlash(path[..n]) && RegexMatches(chunks[1..], path[n..])
  }

  /** The length of the longest slash-free prefix. */
  function Segment(path: string): (n: nat)
    ensures n <= |path|
  {
    if path == "" || path[0] == '/' then 0 else 1 + Segment(path[1..])
  }

  lemma {:induction false} SegmentHasNoSlash(path: string)
    ensures var n := Segment(path); NoSlash(path[..n]) && (n < |path| ==> path[n] == '/')
  {
    if path != "" && path[0] != '/' {
      SegmentHasNoSlash(path[1..]);
      var n := Segment(path[1..]);
      assert path[..n + 1] == [path[0]] + path[1..][..n];
    }
  }

  /** The greedy reading: a wildcard takes the whole rest of its segment. */
  predicate Greedy(chunks: seq<SegChunk>, path: string) {
    if chunks == [] then true else
    match chunks[0]
    case Lit(text) => text <= path && Greedy(chunks[1..], path[|text|..])
    case Wild => Segment(path) > 0 && Greedy(chunks[1..], path[Segment(path)..])
  }

  lemma LiteralAt(path: string, pos: nat, rest: string, text: string)
    requires pos <= |path| && rest == path[pos..]
    ensures text <= rest <==> pos + |text| <= |path| && path[pos..pos + |text|] == text
    ensures pos + |text| <= |path| ==> rest[|text|..] == path[pos + |text|..]
  {
    if |text| <= |rest| {
      assert rest[..|text|] == path[pos..pos + |text|];
    }
  }

  method MatchesSegmentPrefix(chunks: seq<SegChunk>, path: string) returns (r: bool)
    ensures r == Greedy(chunks, path)
  {
    var pos := 0;
    var last := SaturatingSub(|chunks|, 1);
    var i := 0;
    ghost var goal, todo, rest := Greedy(chunks, path), chunks, path;
    while i < |chunks|
      invariant 0 <= i <= |chunks| && 0 <= pos <= |path|
      invariant todo == chunks[i..] && rest == path[pos..]
      invariant Greedy(todo, rest) == goal
    {
      ghost var later := todo[1..];
      match chunks[i] {
        case Wild =>
          if pos >= |path| || path[pos] == '/' {
            return false;
          }
          pos := EndOfSegment(path, pos, rest);
          rest := rest[Segment(rest)..];
        case Lit(text) =>
          LiteralAt(path, pos, rest, text);
          if i == last {
            assert later == [];
            if pos + |text| > |path| {
              return false;
            }
            return path[pos..pos + |text|] == text;
          } else {
            if pos + |text| > |path| {
              return false;
            }
            if path[pos..pos + |text|] != text {
              return false;
            }
            pos := pos + |text|;
            rest := rest[|text|..];
          }
      }
      i := i + 1;
      todo := later;
    }
    r := true;
  }

  method EndOfSegment(path: string, start: nat, ghost rest: string) returns (pos: nat)
    requires start <= |path| && rest == path[start..]
    ensures pos == start + Segment(rest) && pos <= |path| && path[pos..] == rest[Segment(rest)..]
  {
    pos := start;
    ghost var left := rest;
    while pos < |path| && path[pos] != '/'
      invariant start <= pos <= |path| && left == path[pos..]
      invariant pos + Segment(left) == start + Segment(rest)
    {
      pos := pos + 1;
      left := left[1..];
    }
  }

  lemma {:induction false} GreedyIsSound(chunks: seq<SegChunk>, path: string)
    requires Greedy(chunks, path)
    ensures RegexMatches(chunks, path)
  {
    if chunks != [] {
      match chunks[0]
      case Lit(text) => GreedyIsSound(chunks[1..], path[|text|..]);
      case Wild =>
        var n := Segment(path);
        SegmentHasNoSlash(path);
        GreedyIsSound(chunks[1..], path[n..]);
    }
  }

  /** Every wildcard is last, or a literal that begins with a slash comes next. */
  predicate SlashGuarded(chunks: seq<SegChunk>) {
    chunks != [] ==>
      && SlashGuarded(chunks[1..])
      && (chunks[0].Wild? && |chunks| > 1 ==> chunks[1].Lit? && chunks[1].text != "" && chunks[1].text[0] == '/')
  }

  lemma {:induction false} GreedyIsComplete(chunks: seq<SegChunk>, path: string)
    requires SlashGuarded(chunks) && RegexMatches(chunks, path)
    ensures Greedy(chunks, path)
  {
    if chunks != [] {
      match chunks[0]
      case Lit(text) => GreedyIsComplete(chunks[1..], path[|text|..]);
      case Wild =>
        var n :| 1 <= n <= |path| && NoSlash(path[..n]) && RegexMatches(chunks[1..], path[n..]);
        assert path[..n][0] == path[0];
        if |chunks| > 1 {
          assert chunks[1..][0] == chunks[1];
          assert path[n] == path[n..][0] == '/';
          SegmentEndsAt(path, n);
          GreedyIsComplete(chunks[1..], path[n..]);
        }
    }
  }

  lemma {:induction false} SegmentEndsAt(path: string, n: nat)
    requires n < |path| && NoSlash(path[..n]) && path[n] == '/'
    ensures Segment(path) == n
  {
    if n > 0 {
      assert path[..n][0] == path[0];
      assert path[..n] == [path[0]] + path[1..][..n - 1];
      SegmentEndsAt(path[1..], n - 1);
    }
  }

  /** A path of the pattern's own shape, with "a" for each wildcard. */
  function Sample(chunks: seq<SegChunk>): string {
    if chunks == [] then "" else
    (match chunks[0] case Wild => "a" case Lit(text) => text) + Sample(chunks[1..])
  }

  lemma {:induction false} SampleMatches(chunks: seq<SegChunk>)
    ensures RegexMatches(chunks, Sample(chunks))
  {
    if chunks != [] {
      SampleMatches(chunks[1..]);
      var head := match chunks[0] case Wild => "a" case Lit(text) => text;
      assert Sample(chunks) == head + Sample(chunks[1..]);
      assert Sample(chunks)[|head|..] == Sample(chunks[1..]) && Sample(chunks)[..|head|] == head;
    }
  }

  predicate NoEmptyLiteral(chunks: seq<SegChunk>) {
    forall i :: 0 <= i < |chunks| ==> chunks[i] != Lit("")
  }

  /** A literal or wildcard that does not begin with a slash cannot follow a greedy wildcard. */
  lemma UnguardedFails(chunks: seq<SegChunk>, path: string)
    requires chunks != [] && chunks[0] != Lit("") && (chunks[0].Lit? ==> chunks[0].text[0] != '/')
    requires path == "" || path[0] == '/'
    ensures !Greedy(chunks, path)
  {
  }

  lemma {:induction false} SampleFailsGreedily(chunks: seq<SegChunk>)
    requires NoEmptyLiteral(chunks) && !SlashGuarded(chunks)
    ensures !Greedy(chunks, Sample(chunks))
  {
    var sample, rest := Sample(chunks), Sample(chunks[1..]);
    match chunks[0]
    case Lit(text) =>
      assert sample == text + rest && sample[|text|..] == rest;
      SampleFailsGreedily(chunks[1..]);
    case Wild =>
      assert sample == "a" + rest;
      if |chunks| > 1 && chunks[1].Lit? && chunks[1].text[0] == '/' {
        assert !SlashGuarded(chunks[1..]);
        assert rest == chunks[1].text + Sample(chunks[1..][1..]);
        assert sample[..1] == "a";
        SegmentEndsAt(sample, 1);
        assert sample[1..] == rest;
        SampleFailsGreedily(chunks[1..]);
      } else if |chunks| > 1 {
        assert chunks[1..][0] == chunks[1];
        SegmentHasNoSlash(sample);
        UnguardedFails(chunks[1..], sample[Segment(sample)..]);
      }
  }

  /**
    The one-pass matcher agrees with the regex on every path exactly for the patterns in which each
    wildcard is last or followed by a literal beginning with a slash.
   */
  lemma GreedyIsRegexIffGuarded(chunks: seq<SegChunk>)
    requires NoEmptyLiteral(chunks)
    ensures (forall path :: Greedy(chunks, path) == RegexMatches(chunks, path)) <==> SlashGuarded(chunks)
  {
    if SlashGuarded(chunks) {
      forall path ensures Greedy(chunks, path) == RegexMatches(chunks, path) {
        if Greedy(chunks, path) {
          GreedyIsSound(chunks, path);
        }
        if RegexMatches(chunks, path) {
          GreedyIsComplete(chunks, path);
        }
      }
    } else {
      SampleMatches(chunks);
      SampleFailsGreedily(chunks);
    }
  }

  // ---------- Compiling ----------

  predicate TokenAt(s: string, i: nat) {
    i + 5 <= |s| && s[i] == '[' && s[i + 1] == '^' && s[i + 2] == '/' && s[i + 3] == ']' && s[i + 4] == '+'
  }

  function FindTokenFrom(s: string, i: nat): (r: Option<nat>)
    ensures r.Some? ==> i <= r.value && TokenAt(s, r.value) && forall j: nat :: i <= j < r.value ==> !TokenAt(s, j)
    ensures r.None? ==> forall j: nat :: i <= j ==> !TokenAt(s, j)
    decreases |s| - i
  {
    if i + 5 > |s| then None else if TokenAt(s, i) then Some(i) else FindTokenFrom(s, i + 1)
  }

  function FindToken(s: string): Option<nat> {
    FindTokenFrom(s, 0)
  }

  predicate EndsWithStar(p: string) {
    |p| >= 2 && p[|p| - 2] == '.' && p[|p| - 1] == '*'
  }

  function StripStar(p: string): string {
    if EndsWithStar(p) then p[..|p| - 2] else p
  }

  function LitIf(text: string): seq<SegChunk> {
    if text == "" then [] else [Lit(text)]
  }

  /** The chunks of a pattern without its trailing star. */
  function Chunks(rest: string): seq<SegChunk> {
    match FindToken(rest)
    case None => LitIf(rest)
    case Some(pos) => LitIf(rest[..pos]) + ([Wild] + Chunks(rest[pos + 5..]))
  }

  /** One turn of the compiler's loop: the literal before the token, if any, then the wildcard. */
  function Pushed(chunks: seq<SegChunk>, text: string): seq<SegChunk> {
    (if text == "" then chunks else chunks + [Lit(text)]) + [Wild]
  }

  lemma PushedIsPrefix(chunks: seq<SegChunk>, text: string, tail: seq<SegChunk>)
    ensures Pushed(chunks, text) + tail == chunks + (LitIf(text) + ([Wild] + tail))
  {
  }

  method ParseSegmentPrefix(p: string) returns (chunks: seq<SegChunk>)
    ensures chunks == Chunks(StripStar(p))
  {
    chunks := [];
    var rest := p;
    if EndsWithStar(p) {
      rest := rest[..|rest| - 2];
    }
    while FindToken(rest).Some?
      invariant chunks + Chunks(rest) == Chunks(StripStar(p))
      decreases |rest|
    {
      var pos := FindToken(rest).value;
      ghost var before := chunks;
      var text, tail := rest[..pos], rest[pos + 5..];
      if pos > 0 {
        chunks := chunks + [Lit(text)];
      }
      chunks := chunks + [Wild];
      assert chunks == Pushed(before, text);
      PushedIsPrefix(before, text, Chunks(tail));
      rest := tail;
    }
    if rest != "" {
      chunks := chunks + [Lit(rest)];
    }
  }

  function PrintChunk(c: SegChunk): string {
    match c case Wild => TOKEN case Lit(text) => text
  }

  function Print(chunks: seq<SegChunk>): string {
    if chunks == [] then "" else PrintChunk(chunks[0]) + Print(chunks[1..])
  }

  lemma Regroup(a: string, b: string, c: string)
    ensures a + b + c == a + (b + c)
  {
  }

  lemma {:induction false} PrintAppend(a: seq<SegChunk>, b: seq<SegChunk>)
    ensures Print(a + b) == Print(a) + Print(b)
  {
    if a == [] {
      assert a + b == b;
    } else {
      PrintAppend(a[1..], b);
      assert (a + b)[1..] == a[1..] + b;
      Regroup(PrintChunk(a[0]), Print(a[1..]), Print(b));
    }
  }

  lemma PrintWild(tail: seq<SegChunk>)
    ensures Print([Wild] + tail) == TOKEN + Print(tail)
  {
    assert ([Wild] + tail)[1..] == tail;
  }

  lemma PrintLit(text: string)
    ensures Print(LitIf(text)) == text
  {
    assert text + "" == text;
  }

  lemma SplitAtToken(s: string, pos: nat)
    requires TokenAt(s, pos)
    ensures s[..pos] + (TOKEN + s[pos + 5..]) == s
  {
  }

  /** Printing the chunks of a pattern gives the pattern, less its trailing star. */
  lemma {:induction false} PrintChunks(s: string)
    ensures Print(Chunks(s)) == s
    decreases |s|
  {
    match FindToken(s)
    case None => PrintLit(s);
    case Some(pos) =>
      var tail := Chunks(s[pos + 5..]);
      PrintChunks(s[pos + 5..]);
      PrintLit(s[..pos]);
      PrintWild(tail);
      PrintAppend(LitIf(s[..pos]), [Wild] + tail);
      SplitAtToken(s, pos);
  }

  /** What the compiler can produce: literals non-empty and free of the token, no two in a row. */
  predicate Canonical(chunks: seq<SegChunk>) {
    chunks != [] ==>
      && Canonical(chunks[1..])
      && (chunks[0].Lit? ==>
          && chunks[0].text != "" && FindToken(chunks[0].text).None?
          && (|chunks| > 1 ==> chunks[1].Wild?))
  }

  lemma {:induction false} ChunksCanonical(s: string)
    ensures Canonical(Chunks(s))
    decreases |s|
  {
    match FindToken(s)
    case None =>
      if s != "" {
        assert LitIf(s)[1..] == [];
      }
    case Some(pos) =>
      var tail := Chunks(s[pos + 5..]);
      ChunksCanonical(s[pos + 5..]);
      assert ([Wild] + tail)[1..] == tail;
      PrefixHasNoToken(s, pos);
      if pos > 0 {
        assert Chunks(s)[1..] == [Wild] + tail;
      } else {
        assert Chunks(s) == [Wild] + tail;
      }
  }

  lemma PrefixHasNoToken(s: string, pos: nat)
    requires pos <= |s| && forall j: nat :: j < pos ==> !TokenAt(s, j)
    ensures FindToken(s[..pos]).None?
  {
    assert forall j: nat :: TokenAt(s[..pos], j) ==> TokenAt(s, j) && j < pos;
  }

  /**
    The token cannot overlap itself: after a token-free text, the first token of text + TOKEN + rest
    is the one that was put there.
   */
  lemma FirstTokenAfter(text: string, rest: string)
    requires FindToken(text).None?
    ensures FindToken(text + TOKEN + rest) == Some(|text|)
  {
    var s := text + TOKEN + rest;
    assert TokenAt(s, |text|);
    forall j: nat | j < |text| ensures !TokenAt(s, j) {
      if j + 5 <= |text| {
        assert TokenAt(s, j) <==> TokenAt(text, j);
      } else {
        assert s[|text|] == '[';
      }
    }
  }

  lemma ChunksAtToken(text: string, rest: string)
    requires FindToken(text).None?
    ensures Chunks(text + (TOKEN + rest)) == LitIf(text) + ([Wild] + Chunks(rest))
  {
    var s := text + TOKEN + rest;
    FirstTokenAfter(text, rest);
    assert s == text + (TOKEN + rest);
    assert s[..|text|] == text && s[|text| + 5..] == rest;
  }

  lemma ChunksOfWild(tail: seq<SegChunk>)
    requires Chunks(Print(tail)) == tail
    ensures Chunks(Print([Wild] + tail)) == [Wild] + tail
  {
    ChunksAtToken("", Print(tail));
    PrintWild(tail);
    assert "" + (TOKEN + Print(tail)) == TOKEN + Print(tail);
    assert [] + ([Wild] + tail) == [Wild] + tail;
  }

  lemma ChunksOfLitThenWild(text: string, tail: seq<SegChunk>)
    requires text != "" && FindToken(text).None? && Chunks(Print(tail)) == tail
    ensures Chunks(Print([Lit(text)] + ([Wild] + tail))) == [Lit(text)] + ([Wild] + tail)
  {
    ChunksAtToken(text, Print(tail));
    PrintWild(tail);
    PrintLit(text);
    PrintAppend([Lit(text)], [Wild] + tail);
  }

  lemma {:induction false} ChunksOfPrint(chunks: seq<SegChunk>)
    requires Canonical(chunks)
    ensures Chunks(Print(chunks)) == chunks
    decreases |chunks|
  {
    if chunks == [] {
    } else if chunks[0].Wild? {
      ChunksOfPrint(chunks[1..]);
      ChunksOfWild(chunks[1..]);
      assert chunks == [Wild] + chunks[1..];
    } else if |chunks| == 1 {
      PrintLit(chunks[0].text);
      assert chunks == LitIf(chunks[0].text);
    } else {
      var rest := chunks[1..][1..];
      ChunksOfPrint(rest);
      ChunksOfLitThenWild(chunks[0].text, rest);
      assert chunks == [chunks[0]] + ([Wild] + rest);
    }
  }

  /**
    Compiling the printed form of a chunk list gives the list back exactly when the compiler could
    have produced it and its text does not end in the star that would be stripped.
   */
  lemma CompileInvertsPrint(chunks: seq<SegChunk>)
    ensures Chunks(StripStar(Print(chunks))) == chunks <==> Canonical(chunks) && !EndsWithStar(Print(chunks))
  {
    var p := Print(chunks);
    ChunksCanonical(StripStar(p));
    PrintChunks(StripStar(p));
    if Canonical(chunks) && !EndsWithStar(p) {
      ChunksOfPrint(chunks);
    }
  }

  // ---------- Patterns ----------

  datatype SimplePattern =
    | StartsWith(text: string)
    | Exact(text: string)
    | MatchAll
    | Contains(text: string)
    | SegmentPrefix(chunks: seq<SegChunk>)

  function TrimCarets(p: string): string {
    if p != "" && p[0] == '^' then TrimCarets(p[1..]) else p
  }

  function FromPattern(pattern: string): SimplePattern {
    var anchored := Anchored(pattern);
    var p := TrimCarets(pattern);
    if FindToken(p).Some? then SegmentPrefix(Chunks(StripStar(p)))
    else if EndsWithStar(p) then
      var prefix := StripStar(p);
      if prefix == "" then MatchAll else if anchored then StartsWith(prefix) else Contains(prefix)
    else if p == STAR || p == "" then MatchAll
    else Exact(p)
  }

  predicate ContainsText(path: string, text: string)
    ensures ContainsText(path, text) <==> exists i :: 0 <= i <= |path| && text <= path[i..]
    decreases |path|
  {
    if text <= path then assert path[0..] == path; true
    else if path == "" then false
    else
      assert forall i :: 1 <= i <= |path| ==> path[i..] == path[1..][i - 1..];
      ContainsText(path[1..], text)
  }

  predicate Matches(pattern: SimplePattern, path: string) {
    match pattern
    case StartsWith(text) => text <= path
    case Exact(text) => path == text
    case MatchAll => true
    case Contains(text) => ContainsText(path, text)
    case SegmentPrefix(chunks) => Greedy(chunks, path)
  }

  function Carets(n: nat): string {
    if n == 0 then "" else "^" + Carets(n - 1)
  }

  lemma {:induction false} TrimOfCarets(n: nat, p: string)
    requires !Anchored(p)
    ensures TrimCarets(Carets(n) + p) == p && (Anchored(Carets(n) + p) <==> n > 0)
  {
    if n == 0 {
      assert Carets(n) + p == p;
    } else {
      TrimOfCarets(n - 1, p);
      assert (Carets(n) + p)[1..] == Carets(n - 1) + p;
    }
  }

  lemma NoTokenAcross(text: string)
    requires FindToken(text).None?
    ensures FindToken(text + ".*").None?
  {
    forall i: nat ensures !TokenAt(text + ".*", i) {
      assert TokenAt(text + ".*", i) ==> TokenAt(text, i);
    }
  }

  lemma CompiledStarred(pattern: string, n: nat, text: string)
    requires pattern == Carets(n) + (text + ".*") && FindToken(text).None? && (text == "" || text[0] != '^')
    ensures FromPattern(pattern) ==
      if text == "" then MatchAll else if n > 0 then StartsWith(text) else Contains(text)
  {
    var p := text + ".*";
    assert !Anchored(p);
    TrimOfCarets(n, p);
    NoTokenAcross(text);
    assert EndsWithStar(p) && p[..|p| - 2] == text;
  }

  lemma CompiledPlain(pattern: string, n: nat, text: string)
    requires pattern == Carets(n) + text && FindToken(text).None? && (text == "" || text[0] != '^')
    requires |text| < 2 || text[|text| - 2..] != ".*"
    ensures FromPattern(pattern) == if text == "" then MatchAll else Exact(text)
  {
    assert !Anchored(text);
    TrimOfCarets(n, text);
    assert !EndsWithStar(text);
  }

  /**
    A pattern without a `[^/]+`: behind any carets, text and a final `.*` mean a path that begins with
    the text, or without a caret one that has it anywhere; text alone means that path, caret or not.
    No text means every path.
   */
  lemma TextPattern(n: nat, text: string, path: string)
    requires FindToken(text).None? && (text == "" || text[0] != '^')
    ensures Matches(FromPattern(Carets(n) + (text + ".*")), path) <==>
              text == "" || (if n > 0 then text <= path else exists i :: 0 <= i <= |path| && text <= path[i..])
    ensures |text| < 2 || text[|text| - 2..] != ".*" ==>
              (Matches(FromPattern(Carets(n) + text), path) <==> text == "" || path == text)
  {
    CompiledStarred(Carets(n) + (text + ".*"), n, text);
    if |text| < 2 || text[|text| - 2..] != ".*" {
      CompiledPlain(Carets(n) + text, n, text);
    }
  }

  lemma {:induction false} CanonicalHasNoEmptyLiteral(chunks: seq<SegChunk>)
    requires Canonical(chunks)
    ensures NoEmptyLiteral(chunks)
  {
    if chunks != [] {
      CanonicalHasNoEmptyLiteral(chunks[1..]);
      assert chunks == [chunks[0]] + chunks[1..];
    }
  }

  predicate Anchored(pattern: string) {
    pattern != "" && pattern[0] == '^'
  }

  /** The regex reading of a pattern with chunks: from the start of the path if anchored, else from any position. */
  ghost predicate RegexReads(anchored: bool, chunks: seq<SegChunk>, path: string) {
    if anchored then RegexMatches(chunks, path)
    else exists k :: 0 <= k <= |path| && RegexMatches(chunks, path[k..])
  }

  /** An unanchored regex finds the sample behind a character the greedy matcher stumbles over. */
  lemma UnanchoredDisagrees(chunks: seq<SegChunk>) returns (path: string)
    requires chunks != [] && NoEmptyLiteral(chunks)
    ensures RegexReads(false, chunks, path) && !Greedy(chunks, path)
  {
    var first: char := if chunks[0].Lit? && chunks[0].text[0] == '/' then 'x' else '/';
    path := [first] + Sample(chunks);
    SampleMatches(chunks);
    assert path[1..] == Sample(chunks);
    assert path[0] == first;
  }

  lemma TokenMeansChunks(s: string)
    requires FindToken(s).Some?
    ensures Chunks(StripStar(s)) != []
  {
    assert TokenAt(s, FindToken(s).value);
    PrintChunks(StripStar(s));
    assert Print([]) == "" && |StripStar(s)| > 0;
  }

  /** The compiled matcher and the regex reading of the pattern's text agree on path. */
  ghost predicate AgreesOn(pattern: string, path: string) {
    Matches(FromPattern(pattern), path) <==> RegexReads(Anchored(pattern), Chunks(StripStar(TrimCarets(pattern))), path)
  }

  lemma AnchoredAgreement(pattern: string)
    requires FindToken(TrimCarets(pattern)).Some? && Anchored(pattern)
    ensures (forall path :: AgreesOn(pattern, path)) <==> SlashGuarded(Chunks(StripStar(TrimCarets(pattern))))
  {
    var chunks := Chunks(StripStar(TrimCarets(pattern)));
    ChunksCanonical(StripStar(TrimCarets(pattern)));
    CanonicalHasNoEmptyLiteral(chunks);
    GreedyIsRegexIffGuarded(chunks);
    if SlashGuarded(chunks) {
      forall path ensures AgreesOn(pattern, path) {
        assert Greedy(chunks, path) == RegexMatches(chunks, path);
      }
    } else {
      var path :| Greedy(chunks, path) != RegexMatches(chunks, path);
      assert !AgreesOn(pattern, path);
    }
  }

  lemma UnanchoredDisagreement(pattern: string) returns (path: string)
    requires FindToken(TrimCarets(pattern)).Some? && !Anchored(pattern)
    ensures !AgreesOn(pattern, path)
  {
    var chunks := Chunks(StripStar(TrimCarets(pattern)));
    ChunksCanonical(StripStar(TrimCarets(pattern)));
    CanonicalHasNoEmptyLiteral(chunks);
    TokenMeansChunks(TrimCarets(pattern));
    path := UnanchoredDisagrees(chunks);
  }

  /**
    Which patterns with a `[^/]+` mean, once compiled, what they mean as a regex: exactly the anchored
    and guarded ones.  The compiler drops the missing anchor of the others.
   */
  lemma CompiledIsRegexIffGuarded(pattern: string)
    requires FindToken(TrimCarets(pattern)).Some?
    ensures Print(Chunks(StripStar(TrimCarets(pattern)))) == StripStar(TrimCarets(pattern))
    ensures (forall path :: AgreesOn(pattern, path)) <==>
              Anchored(pattern) && SlashGuarded(Chunks(StripStar(TrimCarets(pattern))))
  {
    PrintChunks(StripStar(TrimCarets(pattern)));
    if Anchored(pattern) {
      AnchoredAgreement(pattern);
    } else {
      var path := UnanchoredDisagreement(pattern);
    }
  }

  /** For example, a regex finds the unanchored pattern in the middle of a path and the matcher does not. */
  lemma UnanchoredExample()
    ensures RegexReads(false, [Lit("a"), Wild], "xab") && !Matches(FromPattern("a[^/]+"), "xab")
  {
    var chunks := [Lit("a"), Wild];
    assert FromPattern("a[^/]+") == SegmentPrefix(chunks) by {
      assert "a[^/]+" == "a" + (TOKEN + "");
      ChunksAtToken("a", "");
      assert TokenAt("a[^/]+", 1);
    }
    assert "xab"[1..] == "ab" && "ab"[1..] == "b" && "b"[..1] == "b";
    assert chunks[1..] == [Wild] && [Wild][1..] == [];
    assert RegexMatches([Wild], "b");
    assert RegexMatches(chunks, "xab"[1..]);
  }

  /**
    The shape of the shipped rules, two path segments followed by a literal beginning with a slash:
    the compiled matcher is the regex.
   */
  lemma OwnerRepoPatternIsRegex(text: string, path: string)
    requires text != "" && text[0] == '/' && FindToken(text).None?
    ensures var p := "^/" + TOKEN + "/" + TOKEN + text + STAR;
            var chunks := [Lit("/"), Wild, Lit("/"), Wild, Lit(text)];
            FromPattern(p) == SegmentPrefix(chunks) && (Matches(FromPattern(p), path) <==> RegexMatches(chunks, path))
  {
    var chunks := [Lit("/"), Wild, Lit("/"), Wild, Lit(text)];
    var body := "/" + (TOKEN + ("/" + (TOKEN + text)));
    var p := "^/" + TOKEN + "/" + TOKEN + text + STAR;
    OwnerRepoChunks(text);
    OwnerRepoText(text);
    CompileOwnerRepo(body, p);
    if Greedy(chunks, path) {
      GreedyIsSound(chunks, path);
    }
    if RegexMatches(chunks, path) {
      GreedyIsComplete(chunks, path);
    }
  }

  lemma OwnerRepoText(text: string)
    ensures "^/" + TOKEN + "/" + TOKEN + text + STAR == "^" + ("/" + (TOKEN + ("/" + (TOKEN + text))) + STAR)
  {
  }

  lemma CompileOwnerRepo(body: string, p: string)
    requires body != "" && body[0] == '/' && TokenAt(body, 1) && p == "^" + (body + STAR)
    ensures FromPattern(p) == SegmentPrefix(Chunks(body))
  {
    assert p[1..] == body + STAR;
    assert TrimCarets(p) == body + STAR;
    assert TokenAt(body + STAR, 1);
    assert (body + STAR)[..|body|] == body;
  }

  lemma OwnerRepoChunks(text: string)
    requires text != "" && text[0] == '/' && FindToken(text).None?
    ensures var chunks := [Lit("/"), Wild, Lit("/"), Wild, Lit(text)];
            Chunks("/" + (TOKEN + ("/" + (TOKEN + text)))) == chunks && SlashGuarded(chunks)
  {
    SlashThenToken(text, [Lit(text)]);
    SlashThenToken("/" + (TOKEN + text), [Lit("/"), Wild, Lit(text)]);
    OwnerRepoGuarded(text);
  }

  lemma SlashThenToken(rest: string, tail: seq<SegChunk>)
    requires Chunks(rest) == tail
    ensures Chunks("/" + (TOKEN + rest)) == [Lit("/"), Wild] + tail
  {
    ChunksAtToken("/", rest);
    assert [Lit("/")] + ([Wild] + tail) == [Lit("/"), Wild] + tail;
  }

  lemma OwnerRepoGuarded(text: string)
    requires text != "" && text[0] == '/'
    ensures SlashGuarded([Lit("/"), Wild, Lit("/"), Wild, Lit(text)])
  {
    var c1 := [Lit(text)];
    var c2 := [Wild, Lit(text)];
    var c3 := [Lit("/"), Wild, Lit(text)];
    var c4 := [Wild, Lit("/"), Wild, Lit(text)];
    var c5 := [Lit("/"), Wild, Lit("/"), Wild, Lit(text)];
    assert c5[1..] == c4 && c4[1..] == c3 && c3[1..] == c2 && c2[1..] == c1;
    assert SlashGuarded(c1);
    assert SlashGuarded(c2);
    assert SlashGuarded(c3);
    assert SlashGuarded(c4);
  }
}
