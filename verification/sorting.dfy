/**
 * A stable insertion sort over an arbitrary ordering, used for the history
 * table (dates descending) and for the roster (names ascending).
 */
module Sorting {

  /** `leq` compares every pair and is transitive: a total preorder. */
  ghost predicate TotalPreorder<T(!new)>(leq: (T, T) -> bool)
  {
    && (forall x, y :: leq(x, y) || leq(y, x))
    && (forall x, y, z :: leq(x, y) && leq(y, z) ==> leq(x, z))
  }

  /** Every element is `leq` every later element. */
  predicate Sorted<T>(s: seq<T>, leq: (T, T) -> bool)
  {
    forall i, j :: 0 <= i < j < |s| ==> leq(s[i], s[j])
  }

  /** Places `x` before the first element it is `leq`. */
  function Insert<T(!new)>(x: T, s: seq<T>, leq: (T, T) -> bool): (r: seq<T>)
    ensures multiset(r) == multiset(s) + multiset{x}
    ensures TotalPreorder(leq) && Sorted(s, leq) ==> Sorted(r, leq)
  {
    if |s| == 0 then [x]
    else if leq(x, s[0]) then
      assert TotalPreorder(leq) && Sorted(s, leq) ==> Sorted([x] + s, leq);
      [x] + s
    else
      var t := Insert(x, s[1..], leq);
      assert s == [s[0]] + s[1..];
      assert TotalPreorder(leq) && Sorted(s, leq) ==> Sorted([s[0]] + t, leq) by {
        if TotalPreorder(leq) && Sorted(s, leq) {
          forall k | 0 <= k < |t|
            ensures leq(s[0], t[k])
          {
            assert t[k] in multiset(t);
            if t[k] != x {
              assert t[k] in multiset(s[1..]);
              var m :| 0 <= m < |s[1..]| && s[1..][m] == t[k];
              assert s[1 + m] == t[k];
            }
          }
        }
      }
      [s[0]] + t
  }

  /** Insertion sort: a permutation of `s` that is sorted when `leq` is a total preorder. */
  function Sort<T(!new)>(s: seq<T>, leq: (T, T) -> bool): (r: seq<T>)
    ensures multiset(r) == multiset(s)
    ensures TotalPreorder(leq) ==> Sorted(r, leq)
  {
    if |s| == 0 then []
    else
      assert s == [s[0]] + s[1..];
      Insert(s[0], Sort(s[1..], leq), leq)
  }

  /** Sorting an already sorted sequence returns it unchanged. */
  lemma {:induction false} SortIdempotent<T(!new)>(s: seq<T>, leq: (T, T) -> bool)
    requires Sorted(s, leq)
    ensures Sort(s, leq) == s
  {
    if |s| > 0 {
      assert Sorted(s[1..], leq);
      SortIdempotent(s[1..], leq);
      assert s == [s[0]] + s[1..];
    }
  }
}
