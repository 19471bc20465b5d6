/**
 * A sequential insertion sort standing in for the library
 * `OrderBy(..).ThenBy(..)`, generic in the order it sorts by. Only what the comparer
 * guarantees is used: the order is total and transitive.
 */
module Sorting {

  ghost predicate TotalPreorder<T(!new)>(leq: (T, T) -> bool) {
    && (forall a, b :: leq(a, b) || leq(b, a))
    && (forall a, b, c :: leq(a, b) && leq(b, c) ==> leq(a, c))
  }

  predicate SortedBy<T>(s: seq<T>, leq: (T, T) -> bool) {
    forall i, j :: 0 <= i < j < |s| ==> leq(s[i], s[j])
  }

  /** Places `x` before the first element it sorts no later than. */
  function InsertBy<T(!new)>(x: T, s: seq<T>, leq: (T, T) -> bool): (r: seq<T>)
    requires TotalPreorder(leq) && SortedBy(s, leq)
    ensures multiset(r) == multiset(s) + multiset{x}
    ensures SortedBy(r, leq)
    decreases |s|
  {
    if s == [] then [x]
    else if leq(x, s[0]) then
      [x] + s
    else
      var rest := InsertBy(x, s[1..], leq);
      assert s == [s[0]] + s[1..];
      InsertBehind(s[0], x, s[1..], rest, leq);
      [s[0]] + rest
  }

  lemma InsertBehind<T(!new)>(head: T, x: T, tail: seq<T>, rest: seq<T>, leq: (T, T) -> bool)
    requires TotalPreorder(leq) && SortedBy([head] + tail, leq) && leq(head, x)
    requires multiset(rest) == multiset(tail) + multiset{x} && SortedBy(rest, leq)
    ensures SortedBy([head] + rest, leq)
  {
    forall k | 0 <= k < |rest| ensures leq(head, rest[k]) {
      assert rest[k] in multiset(rest);
      if rest[k] != x {
        assert rest[k] in multiset(tail);
        var m :| 0 <= m < |tail| && tail[m] == rest[k];
        assert ([head] + tail)[0] == head && ([head] + tail)[m + 1] == tail[m];
        assert leq(([head] + tail)[0], ([head] + tail)[m + 1]);
      }
    }
    var r := [head] + rest;
    forall i, j | 0 <= i < j < |r| ensures leq(r[i], r[j]) {
      assert r[j] == rest[j - 1];
      if i > 0 {
        assert r[i] == rest[i - 1];
      }
    }
  }

  /** Insertion sort: a permutation of `s`, sorted by `leq`. */
  function SortBy<T(!new)>(s: seq<T>, leq: (T, T) -> bool): (r: seq<T>)
    requires TotalPreorder(leq)
    ensures multiset(r) == multiset(s)
    ensures SortedBy(r, leq)
    decreases |s|
  {
    if s == [] then []
    else
      assert s == [s[0]] + s[1..];
      InsertBy(s[0], SortBy(s[1..], leq), leq)
  }
}
