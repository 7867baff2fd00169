/** Types shared by the models of the proxy's components. */
module Common {

  datatype Option<+T> = None | Some(value: T)

  type byte = b: int | 0 <= b < 256 witness 0

  /** An address as the standard library stores it: four octets, or eight 16-bit segments. */
  datatype IpAddr = V4(octets: seq<byte>) | V6(segments: seq<int>)

  function SaturatingSub(a: nat, b: nat): nat {
    if a < b then 0 else a - b
  }

  /** The 16-bit number whose big-endian bytes are hi and lo. */
  function FromBe(hi: byte, lo: byte): int {
    256 * hi + lo
  }

  function ToBe(n: int): seq<byte>
    requires 0 <= n < 0x10000
  {
    [n / 256, n % 256]
  }

  /** The elements of s that f holds of, in order. */
  function Filter<T>(f: T -> bool, s: seq<T>): seq<T> {
    if s == [] then [] else
    var n := |s| - 1;
    Filter(f, s[..n]) + if f(s[n]) then [s[n]] else []
  }

  lemma {:induction false} FilterMembers<T(!new)>(f: T -> bool, s: seq<T>)
    ensures forall x :: x in Filter(f, s) <==> x in s && f(x)
    ensures Filter(f, s) == [] <==> forall i :: 0 <= i < |s| ==> !f(s[i])
  {
    if s != [] {
      FilterMembers(f, s[..|s| - 1]);
      assert s == s[..|s| - 1] + [s[|s| - 1]];
    }
  }

  /** r is what s has at these places, which go up. */
  ghost predicate PickedFrom<T>(r: seq<T>, s: seq<T>, at: seq<nat>) {
    && |at| == |r|
    && (forall i :: 0 <= i < |at| ==> at[i] < |s| && r[i] == s[at[i]])
    && forall i, j :: 0 <= i < j < |at| ==> at[i] < at[j]
  }

  /** at names exactly the places of s where f holds. */
  ghost predicate Exactly<T>(f: T -> bool, s: seq<T>, at: seq<nat>) {
    forall j: nat :: j in at <==> j < |s| && f(s[j])
  }

  lemma ExactlyOneMore<T>(f: T -> bool, s: seq<T>, at: seq<nat>)
    requires s != [] && Exactly(f, s[..|s| - 1], at)
    ensures Exactly(f, s, at + if f(s[|s| - 1]) then [|s| - 1] else [])
  {
    var n: nat := |s| - 1;
    forall j: nat | j < |s| ensures j in at + (if f(s[n]) then [n] else []) <==> f(s[j]) {
      assert j < n ==> s[..n][j] == s[j];
    }
  }

  lemma PickedOneMore<T>(r: seq<T>, s: seq<T>, at: seq<nat>)
    requires s != [] && PickedFrom(r, s[..|s| - 1], at)
    ensures PickedFrom(r, s, at) && PickedFrom(r + [s[|s| - 1]], s, at + [|s| - 1])
  {
  }

  /** A filter takes every place where f holds, each once and in order. */
  lemma {:induction false} FilterPicks<T>(f: T -> bool, s: seq<T>) returns (at: seq<nat>)
    ensures PickedFrom(Filter(f, s), s, at) && Exactly(f, s, at)
  {
    at := [];
    if s != [] {
      var n := |s| - 1;
      var before := FilterPicks(f, s[..n]);
      ExactlyOneMore(f, s, before);
      PickedOneMore(Filter(f, s[..n]), s, before);
      at := if f(s[n]) then before + [n] else before;
      assert before + [] == before && Filter(f, s[..n]) + [] == Filter(f, s[..n]);
    }
  }

  lemma {:induction false} FilterAll<T(!new)>(f: T -> bool, s: seq<T>)
    requires forall x :: x in s ==> f(x)
    ensures Filter(f, s) == s
  {
    if s != [] {
      FilterAll(f, s[..|s| - 1]);
      assert s == s[..|s| - 1] + [s[|s| - 1]];
    }
  }

  /** The places of a list of which nothing is left out. */
  lemma {:induction false} EveryPlace<T(!new)>(s: seq<T>) returns (at: seq<nat>)
    ensures PickedFrom(s, s, at) && forall j: nat :: j in at <==> j < |s|
  {
    at := FilterPicks((x: T) => true, s);
    FilterAll((x: T) => true, s);
  }

  lemma {:induction false} FilterConcat<T>(f: T -> bool, a: seq<T>, b: seq<T>)
    ensures Filter(f, a + b) == Filter(f, a) + Filter(f, b)
  {
    if b == [] {
      assert a + b == a;
    } else {
      var n := |b| - 1;
      FilterConcat(f, a, b[..n]);
      assert (a + b)[..|a + b| - 1] == a + b[..n];
    }
  }
}
