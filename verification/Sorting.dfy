/** What the library sorts of the proxy guarantee, and when that determines their result. */
module Sorting {

  ghost predicate SortedBy<T>(rank: T -> int, s: seq<T>) {
    forall i, j :: 0 <= i < j < |s| ==> rank(s[i]) <= rank(s[j])
  }

  ghost predicate Injective<T>(rank: T -> int, s: seq<T>) {
    forall i, j :: 0 <= i < |s| && 0 <= j < |s| && rank(s[i]) == rank(s[j]) ==> s[i] == s[j]
  }

  lemma TailMultiset<T>(s: seq<T>)
    requires s != []
    ensures multiset(s[1..]) == multiset(s) - multiset{s[0]}
  {
    assert s == [s[0]] + s[1..];
  }

  lemma SameLength<T>(a: seq<T>, b: seq<T>)
    requires multiset(a) == multiset(b)
    ensures |a| == |b|
  {
    assert |multiset(a)| == |a| && |multiset(b)| == |b|;
  }

  lemma HeadsAgree<T>(rank: T -> int, a: seq<T>, b: seq<T>)
    requires a != [] && b != [] && multiset(a) == multiset(b)
    requires SortedBy(rank, a) && SortedBy(rank, b) && Injective(rank, a)
    ensures a[0] == b[0]
  {
    assert a[0] in multiset(b) && b[0] in multiset(a);
    var i :| 0 <= i < |b| && b[i] == a[0];
    var j :| 0 <= j < |a| && a[j] == b[0];
    assert rank(b[0]) <= rank(b[i]);
    assert rank(a[0]) <= rank(a[j]);
  }

  /** When no two elements share a rank there is only one sorted arrangement. */
  lemma {:induction false} SortIsUnique<T>(rank: T -> int, a: seq<T>, b: seq<T>)
    requires multiset(a) == multiset(b)
    requires SortedBy(rank, a) && SortedBy(rank, b) && Injective(rank, a)
    ensures a == b
  {
    SameLength(a, b);
    if a != [] {
      HeadsAgree(rank, a, b);
      TailMultiset(a);
      TailMultiset(b);
      SortIsUnique(rank, a[1..], b[1..]);
      assert a == [a[0]] + a[1..] && b == [b[0]] + b[1..];
    }
  }
}
