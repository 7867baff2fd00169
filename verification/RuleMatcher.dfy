/**
  The intercept matcher: rules are split into three tables when the matcher is built, and a request
  consults the tables in turn.  The reference is a plain scan of the rule list.
*/
module RuleMatcher {
  import opened Common
  import opened PathPattern

  datatype Rule<A> = Rule(from: string, fromPattern: Option<string>, action: A)

  datatype ExactRule<A> = ExactRule(pathPattern: Option<SimplePattern>, action: A)
  datatype SuffixRule<A> = SuffixRule(suffix: string, dotSuffix: string, pathPattern: Option<SimplePattern>, action: A)
  datatype WildcardRule<A> = WildcardRule(pattern: string, starPos: nat, pathPattern: Option<SimplePattern>, action: A)

  datatype Matcher<A> = Matcher(
    exactRules: map<string, seq<ExactRule<A>>>, suffixRules: seq<SuffixRule<A>>, wildcardRules: seq<WildcardRule<A>>)

  // ---------- Text ----------

  function LowerChar(c: char): char {
    if 'A' <= c <= 'Z' then (c as int + 32) as char else c
  }

  function Lower(s: string): (r: string)
    ensures |r| == |s| && forall i :: 0 <= i < |s| ==> r[i] == LowerChar(s[i])
  {
    seq(|s|, i requires 0 <= i < |s| => LowerChar(s[i]))
  }

  /** Letters are the same in lower case exactly if they are equal or the two cases of one ASCII letter. */
  lemma SameLowerChar(a: char, b: char)
    ensures LowerChar(a) == LowerChar(b) <==>
              || a == b
              || ('A' <= a <= 'Z' && b as int == a as int + 32)
              || ('A' <= b <= 'Z' && a as int == b as int + 32)
    ensures LowerChar(a) == a <==> !('A' <= a <= 'Z')
  {
  }

  predicate EndsWith(s: string, t: string) {
    |t| <= |s| && s[|s| - |t|..] == t
  }

  function FindStar(s: string): (r: Option<nat>)
    ensures r.Some? ==> r.value < |s| && s[r.value] == '*' && '*' !in s[..r.value]
    ensures r.None? ==> '*' !in s
  {
    if s == "" then None else if s[0] == '*' then Some(0) else
    match FindStar(s[1..])
    case None => None
    case Some(i) => assert s[..i + 1] == [s[0]] + s[1..][..i]; Some(i + 1)
  }

  // ---------- What a rule means ----------

  datatype Kind = ExactHost | SuffixHost | WildcardHost

  function KindOf(from: string): Kind {
    if "*." <= from then SuffixHost else if FindStar(from).Some? then WildcardHost else ExactHost
  }

  /** `*.` at the start makes a suffix rule, a star anywhere else a wildcard rule, no star an exact one. */
  lemma KindMeaning(from: string)
    ensures KindOf(from).SuffixHost? <==> |from| >= 2 && from[0] == '*' && from[1] == '.'
    ensures KindOf(from).ExactHost? <==> '*' !in from
  {
    assert "*." <= from ==> from[0] == "*."[0] && from[1] == "*."[1];
  }

  predicate Between(host: string, prefix: string, middle: string, suffix: string) {
    host == prefix + middle + suffix
  }

  /** host is prefix, something, suffix. */
  ghost predicate IsAround(host: string, prefix: string, suffix: string) {
    exists middle :: Between(host, prefix, middle, suffix)
  }

  /** Whether the rule's host pattern covers host, both in lower case. */
  ghost predicate HostMatches(from: string, host: string) {
    match KindOf(from)
    case ExactHost => host == from
    case SuffixHost => host == from[2..] || exists sub :: host == sub + ("." + from[2..])
    case WildcardHost =>
      var star := FindStar(from).value;
      IsAround(host, from[..star], from[star + 1..])
  }

  predicate PathMatches(pattern: Option<SimplePattern>, path: string) {
    pattern.Some? ==> Matches(pattern.value, path)
  }

  function Compiled(p: Option<string>): Option<SimplePattern> {
    if p.Some? then Some(FromPattern(p.value)) else None
  }

  ghost predicate Applies<A>(r: Rule<A>, kind: Kind, host: string, path: string) {
    && KindOf(Lower(r.from)) == kind
    && HostMatches(Lower(r.from), Lower(host))
    && PathMatches(Compiled(r.fromPattern), path)
  }

  /** Rule i is of the kind and applies, and no rule of the kind before it does. */
  ghost predicate FirstApplying<A>(rules: seq<Rule<A>>, i: nat, kind: Kind, host: string, path: string)
    requires i < |rules|
  {
    Applies(rules[i], kind, host, path) && forall j :: 0 <= j < i ==> !Applies(rules[j], kind, host, path)
  }

  /** The action of the first rule of one kind that applies. */
  ghost function Scan<A>(rules: seq<Rule<A>>, kind: Kind, host: string, path: string): Option<A> {
    if rules == [] then None else
    var n := |rules| - 1;
    var earlier := Scan(rules[..n], kind, host, path);
    if earlier.Some? then earlier else if Applies(rules[n], kind, host, path) then Some(rules[n].action) else None
  }

  /** The scan finds something exactly when some rule applies, and then it is the first that does. */
  lemma {:induction false} ScanFindsFirst<A>(rules: seq<Rule<A>>, kind: Kind, host: string, path: string)
    ensures var r := Scan(rules, kind, host, path);
            && (r.None? <==> forall i :: 0 <= i < |rules| ==> !Applies(rules[i], kind, host, path))
            && (r.Some? ==>
                  exists i :: 0 <= i < |rules| && FirstApplying(rules, i, kind, host, path)
                              && r.value == rules[i].action)
  {
    if rules != [] {
      var n := |rules| - 1;
      var earlier := rules[..n];
      ScanFindsFirst(earlier, kind, host, path);
      if Scan(earlier, kind, host, path).Some? {
        var i :| 0 <= i < n && FirstApplying(earlier, i, kind, host, path)
                 && Scan(earlier, kind, host, path).value == earlier[i].action;
        assert forall j :: 0 <= j <= i ==> rules[j] == earlier[j];
        assert FirstApplying(rules, i, kind, host, path);
      } else {
        forall j: nat | j < n ensures !Applies(rules[j], kind, host, path) {
          assert rules[j] == earlier[j];
        }
        assert Applies(rules[n], kind, host, path) ==> FirstApplying(rules, n, kind, host, path);
      }
    }
  }

  /** The reference: exact hosts before `*.` suffixes before other wildcards, each in rule order. */
  ghost function PlainScan<A>(rules: seq<Rule<A>>, host: string, path: string): Option<A> {
    var exact := Scan(rules, ExactHost, host, path);
    if exact.Some? then exact else
    var suffix := Scan(rules, SuffixHost, host, path);
    if suffix.Some? then suffix else Scan(rules, WildcardHost, host, path)
  }

  function Priority(kind: Kind): nat {
    match kind case ExactHost => 0 case SuffixHost => 1 case WildcardHost => 2
  }

  /** What is found is the first rule that applies of its kind, and none of a kind before it applies. */
  ghost predicate Best<A>(rules: seq<Rule<A>>, i: nat, kind: Kind, host: string, path: string)
    requires i < |rules|
  {
    && FirstApplying(rules, i, kind, host, path)
    && forall j, k: Kind :: 0 <= j < |rules| && Priority(k) < Priority(kind) ==> !Applies(rules[j], k, host, path)
  }

  lemma PlainScanFindsBest<A>(rules: seq<Rule<A>>, host: string, path: string)
    ensures var r := PlainScan(rules, host, path);
            && (r.None? <==> forall i, k: Kind :: 0 <= i < |rules| ==> !Applies(rules[i], k, host, path))
            && (r.Some? ==> exists i, k: Kind ::
                  0 <= i < |rules| && Best(rules, i, k, host, path) && r.value == rules[i].action)
  {
    ScanFindsFirst(rules, ExactHost, host, path);
    ScanFindsFirst(rules, SuffixHost, host, path);
    ScanFindsFirst(rules, WildcardHost, host, path);
    if PlainScan(rules, host, path).Some? {
      var kind := if Scan(rules, ExactHost, host, path).Some? then ExactHost
                  else if Scan(rules, SuffixHost, host, path).Some? then SuffixHost else WildcardHost;
      var i :| 0 <= i < |rules| && FirstApplying(rules, i, kind, host, path)
               && Scan(rules, kind, host, path).value == rules[i].action;
      assert Best(rules, i, kind, host, path);
    }
  }

  // ---------- The fast host tests ----------

  predicate SuffixMatches<A>(r: SuffixRule<A>, host: string) {
    host == r.suffix || EndsWith(host, r.dotSuffix)
  }

  predicate WildcardMatches<A>(r: WildcardRule<A>, host: string)
    requires r.starPos < |r.pattern|
  {
    var prefix, suffix := r.pattern[..r.starPos], r.pattern[r.starPos + 1..];
    prefix <= host && EndsWith(host, suffix) && |host| >= |prefix| + |suffix|
  }

  /** The three string tests hold exactly when the host is prefix, something, suffix. */
  lemma WildcardMeaning<A>(r: WildcardRule<A>, host: string)
    requires r.starPos < |r.pattern|
    ensures WildcardMatches(r, host) <==> IsAround(host, r.pattern[..r.starPos], r.pattern[r.starPos + 1..])
  {
    var prefix, suffix := r.pattern[..r.starPos], r.pattern[r.starPos + 1..];
    if WildcardMatches(r, host) {
      var middle := host[|prefix|..|host| - |suffix|];
      assert Between(host, prefix, middle, suffix);
    }
    if middle :| Between(host, prefix, middle, suffix) {
      assert host[..|prefix|] == prefix && host[|host| - |suffix|..] == suffix;
    }
  }

  lemma SuffixMeaning<A>(r: SuffixRule<A>, host: string)
    requires r.dotSuffix == "." + r.suffix
    ensures SuffixMatches(r, host) <==> host == r.suffix || exists sub :: host == sub + ("." + r.suffix)
  {
    if EndsWith(host, r.dotSuffix) {
      assert host == host[..|host| - |r.dotSuffix|] + r.dotSuffix;
    }
  }

  // ---------- The tables ----------

  function ExactTable<A>(rules: seq<Rule<A>>, host: string): seq<ExactRule<A>> {
    if rules == [] then [] else
    var n := |rules| - 1;
    var from := Lower(rules[n].from);
    ExactTable(rules[..n], host) +
      if KindOf(from) == ExactHost && from == host
      then [ExactRule(Compiled(rules[n].fromPattern), rules[n].action)] else []
  }

  function SuffixTable<A>(rules: seq<Rule<A>>): seq<SuffixRule<A>> {
    if rules == [] then [] else
    var n := |rules| - 1;
    var from := Lower(rules[n].from);
    SuffixTable(rules[..n]) +
      if KindOf(from) == SuffixHost
      then [SuffixRule(from[2..], "." + from[2..], Compiled(rules[n].fromPattern), rules[n].action)] else []
  }

  function WildcardTable<A>(rules: seq<Rule<A>>): (t: seq<WildcardRule<A>>)
    ensures forall i :: 0 <= i < |t| ==> t[i].starPos < |t[i].pattern|
  {
    if rules == [] then [] else
    var n := |rules| - 1;
    var from := Lower(rules[n].from);
    WildcardTable(rules[..n]) +
      if KindOf(from) == WildcardHost
      then [WildcardRule(from, FindStar(from).value, Compiled(rules[n].fromPattern), rules[n].action)] else []
  }

  function RulesFor<A>(exactRules: map<string, seq<ExactRule<A>>>, host: string): seq<ExactRule<A>> {
    if host in exactRules then exactRules[host] else []
  }

  ghost predicate Represents<A>(m: Matcher<A>, rules: seq<Rule<A>>) {
    && (forall host :: RulesFor(m.exactRules, host) == ExactTable(rules, host))
    && m.suffixRules == SuffixTable(rules)
    && m.wildcardRules == WildcardTable(rules)
  }

  method New<A>(rules: seq<Rule<A>>) returns (m: Matcher<A>)
    ensures Represents(m, rules)
  {
    m := Matcher(map[], [], []);
    for i := 0 to |rules|
      invariant Represents(m, rules[..i])
    {
      var rule := rules[i];
      assert rules[..i + 1][..i] == rules[..i];
      var pathPattern := Compiled(rule.fromPattern);
      var from := Lower(rule.from);
      if "*." <= from {
        LowerTail(rule.from);
        var suffix := Lower(from[2..]);
        m := m.(suffixRules := m.suffixRules + [SuffixRule(suffix, "." + suffix, pathPattern, rule.action)]);
      } else if FindStar(from).Some? {
        var starPos := FindStar(from).value;
        m := m.(wildcardRules := m.wildcardRules + [WildcardRule(from, starPos, pathPattern, rule.action)]);
      } else {
        var sameHost := RulesFor(m.exactRules, from) + [ExactRule(pathPattern, rule.action)];
        m := m.(exactRules := m.exactRules[from := sameHost]);
      }
    }
    assert rules[..|rules|] == rules;
  }

  lemma LowerTail(s: string)
    requires |s| >= 2
    ensures Lower(Lower(s)[2..]) == Lower(s)[2..]
  {
  }

  // ---------- Matching ----------

  function FirstExact<A>(t: seq<ExactRule<A>>, path: string): Option<A> {
    if t == [] then None else
    if PathMatches(t[0].pathPattern, path) then Some(t[0].action) else FirstExact(t[1..], path)
  }

  function FirstSuffix<A>(t: seq<SuffixRule<A>>, host: string, path: string): Option<A> {
    if t == [] then None else
    if SuffixMatches(t[0], host) && PathMatches(t[0].pathPattern, path) then Some(t[0].action)
    else FirstSuffix(t[1..], host, path)
  }

  function FirstWildcard<A>(t: seq<WildcardRule<A>>, host: string, path: string): Option<A>
    requires forall i :: 0 <= i < |t| ==> t[i].starPos < |t[i].pattern|
  {
    if t == [] then None else
    if WildcardMatches(t[0], host) && PathMatches(t[0].pathPattern, path) then Some(t[0].action)
    else FirstWildcard(t[1..], host, path)
  }

  function OrElse<A>(a: Option<A>, b: Option<A>): Option<A> { if a.Some? then a else b }

  lemma {:induction false} FirstExactAppend<A>(s: seq<ExactRule<A>>, t: seq<ExactRule<A>>, path: string)
    ensures FirstExact(s + t, path) == OrElse(FirstExact(s, path), FirstExact(t, path))
  {
    if s == [] {
      assert s + t == t;
    } else {
      assert (s + t)[1..] == s[1..] + t;
      FirstExactAppend(s[1..], t, path);
    }
  }

  lemma {:induction false} FirstSuffixAppend<A>(
    s: seq<SuffixRule<A>>, t: seq<SuffixRule<A>>, host: string, path: string)
    ensures FirstSuffix(s + t, host, path) == OrElse(FirstSuffix(s, host, path), FirstSuffix(t, host, path))
  {
    if s == [] {
      assert s + t == t;
    } else {
      assert (s + t)[1..] == s[1..] + t;
      FirstSuffixAppend(s[1..], t, host, path);
    }
  }

  lemma {:induction false} FirstWildcardAppend<A>(
    s: seq<WildcardRule<A>>, t: seq<WildcardRule<A>>, host: string, path: string)
    requires forall i :: 0 <= i < |s| ==> s[i].starPos < |s[i].pattern|
    requires forall i :: 0 <= i < |t| ==> t[i].starPos < |t[i].pattern|
    ensures FirstWildcard(s + t, host, path) == OrElse(FirstWildcard(s, host, path), FirstWildcard(t, host, path))
  {
    if s == [] {
      assert s + t == t;
    } else {
      assert (s + t)[1..] == s[1..] + t;
      FirstWildcardAppend(s[1..], t, host, path);
    }
  }

  lemma {:induction false} ExactIsScan<A>(rules: seq<Rule<A>>, host: string, path: string)
    ensures FirstExact(ExactTable(rules, Lower(host)), path) == Scan(rules, ExactHost, host, path)
  {
    if rules != [] {
      var n := |rules| - 1;
      ExactIsScan(rules[..n], host, path);
      var from := Lower(rules[n].from);
      var entry := ExactRule(Compiled(rules[n].fromPattern), rules[n].action);
      var last := if KindOf(from) == ExactHost && from == Lower(host) then [entry] else [];
      FirstExactAppend(ExactTable(rules[..n], Lower(host)), last, path);
    }
  }

  lemma {:induction false} SuffixIsScan<A>(rules: seq<Rule<A>>, host: string, path: string)
    ensures FirstSuffix(SuffixTable(rules), Lower(host), path) == Scan(rules, SuffixHost, host, path)
  {
    if rules != [] {
      var n := |rules| - 1;
      SuffixIsScan(rules[..n], host, path);
      var from := Lower(rules[n].from);
      if KindOf(from) == SuffixHost {
        var entry := SuffixRule(from[2..], "." + from[2..], Compiled(rules[n].fromPattern), rules[n].action);
        FirstSuffixAppend(SuffixTable(rules[..n]), [entry], Lower(host), path);
        SuffixMeaning(entry, Lower(host));
      } else {
        FirstSuffixAppend(SuffixTable(rules[..n]), [], Lower(host), path);
      }
    }
  }

  /** The entry of a wildcard rule decides as the rule does. */
  lemma WildcardEntry<A>(r: Rule<A>, host: string, path: string)
    requires KindOf(Lower(r.from)) == WildcardHost
    ensures var star := FindStar(Lower(r.from)).value;
            var table := [WildcardRule(Lower(r.from), star, Compiled(r.fromPattern), r.action)];
            FirstWildcard(table, Lower(host), path)
              == if Applies(r, WildcardHost, host, path) then Some(r.action) else None
  {
    var entry := WildcardRule(Lower(r.from), FindStar(Lower(r.from)).value, Compiled(r.fromPattern), r.action);
    WildcardMeaning(entry, Lower(host));
    assert [entry][1..] == [];
  }

  lemma {:induction false} WildcardIsScan<A>(rules: seq<Rule<A>>, host: string, path: string)
    ensures FirstWildcard(WildcardTable(rules), Lower(host), path) == Scan(rules, WildcardHost, host, path)
  {
    if rules != [] {
      var n := |rules| - 1;
      WildcardIsScan(rules[..n], host, path);
      var from := Lower(rules[n].from);
      if KindOf(from) == WildcardHost {
        var entry := WildcardRule(from, FindStar(from).value, Compiled(rules[n].fromPattern), rules[n].action);
        WildcardEntry(rules[n], host, path);
        FirstWildcardAppend(WildcardTable(rules[..n]), [entry], Lower(host), path);
      } else {
        FirstWildcardAppend(WildcardTable(rules[..n]), [], Lower(host), path);
      }
    }
  }

  ghost function MatchTables<A>(rules: seq<Rule<A>>, host: string, path: string): Option<A> {
    OrElse(FirstExact(ExactTable(rules, host), path),
           OrElse(FirstSuffix(SuffixTable(rules), host, path), FirstWildcard(WildcardTable(rules), host, path)))
  }

  /** Consulting the three tables is scanning the rules, whatever the casing of the host. */
  lemma TablesAreScan<A>(rules: seq<Rule<A>>, host: string, path: string, cased: string)
    requires Lower(cased) == Lower(host)
    ensures MatchTables(rules, Lower(cased), path) == PlainScan(rules, host, path) == PlainScan(rules, cased, path)
  {
    ExactIsScan(rules, host, path);
    SuffixIsScan(rules, host, path);
    WildcardIsScan(rules, host, path);
    ExactIsScan(rules, cased, path);
    SuffixIsScan(rules, cased, path);
    WildcardIsScan(rules, cased, path);
  }

  predicate AllLowerLetters(s: string) {
    forall i :: 0 <= i < |s| ==> 'a' <= s[i] <= 'z'
  }

  /** `match_domain` on the tables built from rules. */
  method MatchDomain<A>(m: Matcher<A>, domain: string, path: string, ghost rules: seq<Rule<A>>) returns (r: Option<A>)
    requires Represents(m, rules)
    ensures r == PlainScan(rules, domain, path)
  {
    var host := if AllLowerLetters(domain) then domain else Lower(domain);
    assert host == Lower(domain);
    TablesAreScan(rules, domain, path, domain);
    var exact := RulesFor(m.exactRules, host);
    ghost var first := FirstExact(exact, path);
    ghost var second := FirstSuffix(m.suffixRules, host, path);
    ghost var third := FirstWildcard(m.wildcardRules, host, path);
    assert PlainScan(rules, domain, path) == OrElse(first, OrElse(second, third));
    for i := 0 to |exact|
      invariant FirstExact(exact[i..], path) == first
    {
      if PathMatches(exact[i].pathPattern, path) {
        return Some(exact[i].action);
      }
    }
    for i := 0 to |m.suffixRules|
      invariant first.None? && FirstSuffix(m.suffixRules[i..], host, path) == second
    {
      if SuffixMatches(m.suffixRules[i], host) && PathMatches(m.suffixRules[i].pathPattern, path) {
        return Some(m.suffixRules[i].action);
      }
    }
    for i := 0 to |m.wildcardRules|
      invariant first.None? && second.None? && FirstWildcard(m.wildcardRules[i..], host, path) == third
    {
      if WildcardMatches(m.wildcardRules[i], host) && PathMatches(m.wildcardRules[i].pathPattern, path) {
        return Some(m.wildcardRules[i].action);
      }
    }
    r := None;
  }
}
