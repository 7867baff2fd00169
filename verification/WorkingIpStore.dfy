/** The addresses that worked lately for each domain: a bounded move-to-front list per domain. */
module WorkingIps {
  import opened Common
  import opened RecencyList

  const MAX_IPS_PER_DOMAIN: nat := 10

  function Truncated<T>(s: seq<T>): seq<T> {
    if |s| <= MAX_IPS_PER_DOMAIN then s else s[..MAX_IPS_PER_DOMAIN]
  }

  /** `Vec::remove` at the first position of x, if there is one. */
  function RemoveFirst<T(==)>(s: seq<T>, x: T): seq<T> {
    if s == [] then [] else if s[0] == x then s[1..] else [s[0]] + RemoveFirst(s[1..], x)
  }

  function AfterSuccess<T(==)>(s: seq<T>, x: T): seq<T> {
    Truncated([x] + RemoveFirst(s, x))
  }

  /** The list of a domain that held `loaded` at start-up, after the successes in `history`. */
  function Stored<T(==)>(loaded: seq<T>, history: seq<T>): seq<T> {
    if history == [] then loaded else
    AfterSuccess(Stored(loaded, history[..|history| - 1]), history[|history| - 1])
  }

  // ---------- The reference: distinct elements by latest occurrence ----------

  /** The position of the last occurrence of x, or -1. */
  function LastIndex<T(==)>(s: seq<T>, x: T): (i: int)
    ensures -1 <= i < |s|
    ensures i >= 0 ==> s[i] == x
    ensures forall j :: i < j < |s| ==> s[j] != x
  {
    if s == [] then -1 else
    var n := |s| - 1;
    if s[n] == x then n else LastIndex(s[..n], x)
  }

  /** r lists each element of s once, the one that occurred latest first. */
  ghost predicate MostRecentFirst<T(!new)>(s: seq<T>, r: seq<T>) {
    && Distinct(r)
    && (forall x :: x in r <==> x in s)
    && ByLatest(s, r)
  }

  ghost predicate ByLatest<T>(s: seq<T>, r: seq<T>) {
    forall i, j :: 0 <= i < j < |r| ==> LastIndex(s, r[i]) > LastIndex(s, r[j])
  }

  function Reverse<T>(s: seq<T>): (r: seq<T>)
    ensures |r| == |s|
    ensures forall i :: 0 <= i < |s| ==> r[i] == s[|s| - 1 - i]
  {
    if s == [] then [] else Reverse(s[1..]) + [s[0]]
  }

  function Recent<T(==, !new)>(loaded: seq<T>, history: seq<T>): seq<T> {
    if history == [] then loaded else
    Touch(Recent(loaded, history[..|history| - 1]), history[|history| - 1])
  }

  lemma ConsByLatest<T(!new)>(s: seq<T>, x: T, r: seq<T>)
    requires ByLatest(s, r) && forall y :: y in r ==> LastIndex(s, x) > LastIndex(s, y)
    ensures ByLatest(s, [x] + r)
  {
    var t := [x] + r;
    forall i, j | 0 <= i < j < |t| ensures LastIndex(s, t[i]) > LastIndex(s, t[j]) {
      assert t[j] == r[j - 1];
    }
  }

  lemma {:induction false} WithoutByLatest<T(!new)>(s: seq<T>, r: seq<T>, x: T)
    requires ByLatest(s, r)
    ensures ByLatest(s, Without(r, x))
  {
    if r != [] {
      assert forall y :: y in r[1..] ==> LastIndex(s, r[0]) > LastIndex(s, y);
      WithoutByLatest(s, r[1..], x);
      ConsByLatest(s, r[0], Without(r[1..], x));
    }
  }

  lemma AppendKeepsLastIndex<T(!new)>(s: seq<T>, x: T, y: T)
    ensures LastIndex(s + [x], y) == if y == x then |s| else LastIndex(s, y)
  {
    assert (s + [x])[..|s|] == s;
  }

  lemma TouchIsMostRecentFirst<T(!new)>(s: seq<T>, r: seq<T>, x: T)
    requires MostRecentFirst(s, r)
    ensures MostRecentFirst(s + [x], Touch(r, x))
  {
    var w := Without(r, x);
    TouchDistinct(r, x);
    WithoutByLatest(s, r, x);
    forall y ensures LastIndex(s + [x], y) == if y == x then |s| else LastIndex(s, y) {
      AppendKeepsLastIndex(s, x, y);
    }
    assert forall i :: 0 <= i < |w| ==> w[i] in w;
    ConsByLatest(s + [x], x, w);
  }

  lemma ReverseIsHistory<T(!new)>(loaded: seq<T>)
    requires Distinct(loaded)
    ensures MostRecentFirst(Reverse(loaded), loaded)
  {
    var s := Reverse(loaded);
    forall i | 0 <= i < |loaded| ensures LastIndex(s, loaded[i]) == |loaded| - 1 - i && loaded[i] in s {
      assert s[|loaded| - 1 - i] == loaded[i];
    }
  }

  lemma {:induction false} RecentIsMostRecentFirst<T(!new)>(loaded: seq<T>, history: seq<T>)
    requires Distinct(loaded)
    ensures MostRecentFirst(Reverse(loaded) + history, Recent(loaded, history))
  {
    if history == [] {
      ReverseIsHistory(loaded);
      assert Reverse(loaded) + history == Reverse(loaded);
    } else {
      var n := |history| - 1;
      RecentIsMostRecentFirst(loaded, history[..n]);
      TouchIsMostRecentFirst(Reverse(loaded) + history[..n], Recent(loaded, history[..n]), history[n]);
      assert Reverse(loaded) + history == Reverse(loaded) + history[..n] + [history[n]];
    }
  }

  // ---------- Truncation commutes with move-to-front ----------

  lemma {:induction false} RemoveFirstIsWithout<T(!new)>(s: seq<T>, x: T)
    requires Distinct(s)
    ensures RemoveFirst(s, x) == Without(s, x)
  {
    if s != [] {
      RemoveFirstIsWithout(s[1..], x);
      WithoutDistinct(s[1..], x);
    }
  }

  lemma {:induction false} RemoveCommutesWithPrefix<T(!new)>(s: seq<T>, x: T, n: nat)
    requires n < |s|
    ensures |RemoveFirst(s[..n + 1], x)| >= n && |RemoveFirst(s, x)| >= n
    ensures RemoveFirst(s[..n + 1], x)[..n] == RemoveFirst(s, x)[..n]
  {
    if n > 0 && s[0] != x {
      assert s[..n + 1][1..] == s[1..][..n];
      RemoveCommutesWithPrefix(s[1..], x, n - 1);
    } else if s[0] == x {
      assert s[..n + 1][1..] == s[1..][..n];
    }
  }

  /** What is beyond the tenth address has no influence on the next list. */
  lemma OnlyFirstTenMatter<T(!new)>(s: seq<T>, x: T)
    ensures AfterSuccess(Truncated(s), x) == AfterSuccess(s, x)
  {
    var n := MAX_IPS_PER_DOMAIN - 1;
    if |s| > MAX_IPS_PER_DOMAIN {
      RemoveCommutesWithPrefix(s, x, n);
      var a, b := RemoveFirst(s[..n + 1], x), RemoveFirst(s, x);
      assert ([x] + a)[..n + 1] == [x] + a[..n] == [x] + b[..n] == ([x] + b)[..n + 1];
    }
  }

  lemma TruncationCommutes<T(!new)>(s: seq<T>, x: T)
    requires Distinct(s)
    ensures AfterSuccess(Truncated(s), x) == Truncated(Touch(s, x))
  {
    OnlyFirstTenMatter(s, x);
    RemoveFirstIsWithout(s, x);
  }

  lemma {:induction false} StoredOfTruncated<T(!new)>(loaded: seq<T>, history: seq<T>)
    requires history != []
    ensures Stored(loaded, history) == Stored(Truncated(loaded), history)
  {
    var n := |history| - 1;
    if n == 0 {
      OnlyFirstTenMatter(loaded, history[0]);
    } else {
      StoredOfTruncated(loaded, history[..n]);
    }
  }

  lemma {:induction false} StoredIsTruncatedRecent<T(!new)>(loaded: seq<T>, history: seq<T>)
    requires Distinct(loaded) && |loaded| <= MAX_IPS_PER_DOMAIN
    ensures Stored(loaded, history) == Truncated(Recent(loaded, history))
  {
    if history != [] {
      var n := |history| - 1;
      StoredIsTruncatedRecent(loaded, history[..n]);
      RecentIsMostRecentFirst(loaded, history[..n]);
      TruncationCommutes(Recent(loaded, history[..n]), history[n]);
    }
  }

  /**
    After any history of successes the store holds exactly the first ten of the distinct addresses
    in order of latest success, those loaded from disk counting as older successes.
   */
  lemma StoreHoldsTenMostRecent<T(!new)>(loaded: seq<T>, history: seq<T>)
    requires Distinct(Truncated(loaded)) && (history == [] ==> |loaded| <= MAX_IPS_PER_DOMAIN)
    ensures exists r ::
      MostRecentFirst(Reverse(Truncated(loaded)) + history, r) && Stored(loaded, history) == Truncated(r)
    ensures Distinct(Stored(loaded, history)) && |Stored(loaded, history)| <= MAX_IPS_PER_DOMAIN
    ensures history != [] ==> Stored(loaded, history) != [] && Stored(loaded, history)[0] == history[|history| - 1]
  {
    var first := Truncated(loaded);
    if history != [] {
      StoredOfTruncated(loaded, history);
    }
    RecentIsMostRecentFirst(first, history);
    StoredIsTruncatedRecent(first, history);
    var r := Recent(first, history);
    assert MostRecentFirst(Reverse(first) + history, r);
  }

  lemma {:induction false} SecondCopyStays<T(!new)>(s: seq<T>, i: nat, j: nat)
    requires i < j < |s| && s[i] == s[j]
    ensures |RemoveFirst(s, s[i])| == |s| - 1 && RemoveFirst(s, s[i])[j - 1] == s[i]
  {
    if s[0] != s[i] {
      SecondCopyStays(s[1..], i - 1, j - 1);
    }
  }

  /**
    The store does not repair a repeated address: its lists stay free of duplicates under every history
    exactly when the first ten addresses loaded from disk are.
   */
  lemma NoDuplicatesIffLoadedWithout<T(!new)>(loaded: seq<T>)
    ensures (forall history :: history != [] ==> Distinct(Stored(loaded, history))) <==> Distinct(Truncated(loaded))
  {
    if Distinct(Truncated(loaded)) {
      forall history | history != [] ensures Distinct(Stored(loaded, history)) {
        StoreHoldsTenMostRecent(loaded, history);
      }
    } else {
      var s := Truncated(loaded);
      var i, j :| 0 <= i < j < |s| && s[i] == s[j];
      OneSuccess(loaded, s[i]);
      SecondCopyStays(s, i, j);
      var after := Stored(loaded, [s[i]]);
      assert after[0] == s[i] && after[j] == s[i];
    }
  }

  lemma OneSuccess<T(!new)>(loaded: seq<T>, x: T)
    ensures Stored(loaded, [x]) == AfterSuccess(Truncated(loaded), x)
  {
    assert [x][..0] == [];
    OnlyFirstTenMatter(loaded, x);
  }

  /** For example, only the first copy of a repeated address is ever moved. */
  lemma LoadedDuplicatesPersist(a: int, b: int)
    requires a != b
    ensures Stored([a, a], [b]) == [b, a, a]
  {
    OneSuccess([a, a], b);
    assert RemoveFirst([a, a], b) == [a] + RemoveFirst([a], b) == [a, a];
  }

  // ---------- The store ----------

  class WorkingIpStore {
    var data: map<string, seq<IpAddr>>

    constructor (loaded: map<string, seq<IpAddr>>)
      ensures data == loaded
    {
      data := loaded;
    }

    function ListOf(domain: string): seq<IpAddr>
      reads this
    {
      if domain in data then data[domain] else []
    }

    method Get(domain: string) returns (ips: seq<IpAddr>)
      ensures ips == ListOf(domain)
    {
      ips := if domain in data then data[domain] else [];
    }

    method RecordSuccess(domain: string, ip: IpAddr)
      modifies this
      ensures ListOf(domain) == AfterSuccess(old(ListOf(domain)), ip)
      ensures forall d :: d != domain ==> ListOf(d) == old(ListOf(d))
    {
      var ips := if domain in data then data[domain] else [];
      var pos := 0;
      while pos < |ips| && ips[pos] != ip
        invariant 0 <= pos <= |ips| && ip !in ips[..pos]
      {
        pos := pos + 1;
      }
      RemoveFirstAt(ips, ip, pos);
      if pos < |ips| {
        ips := ips[..pos] + ips[pos + 1..];
      }
      ips := [ip] + ips;
      if |ips| > MAX_IPS_PER_DOMAIN {
        ips := ips[..MAX_IPS_PER_DOMAIN];
      }
      data := data[domain := ips];
    }
  }

  lemma {:induction false} RemoveFirstAt<T(!new)>(s: seq<T>, x: T, pos: nat)
    requires pos <= |s| && x !in s[..pos] && (pos < |s| ==> s[pos] == x)
    ensures RemoveFirst(s, x) == if pos < |s| then s[..pos] + s[pos + 1..] else s
  {
    if s != [] && pos > 0 {
      assert s[..pos] == [s[0]] + s[1..][..pos - 1];
      RemoveFirstAt(s[1..], x, pos - 1);
    }
  }
}
