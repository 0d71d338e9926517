/** Sequence helpers that mirror the list and series operations the scheduler relies on. */
module Seqs {

  /** No element occurs twice. */
  predicate NoDup<T(==)>(s: seq<T>)
  {
    forall i, j :: 0 <= i < j < |s| ==> s[i] != s[j]
  }

  /** A sequence with a head is duplicate-free when its tail is and does not hold the head. */
  lemma NoDupCons<T>(x: T, s: seq<T>)
    ensures NoDup([x] + s) <==> x !in s && NoDup(s)
  {
    var t := [x] + s;
    if NoDup(t) {
      forall i, j | 0 <= i < j < |s|
        ensures s[i] != s[j]
      {
        assert t[i + 1] == s[i] && t[j + 1] == s[j];
      }
    }
    if x in s {
      var k :| 0 <= k < |s| && s[k] == x;
      assert t[k + 1] == t[0];
    }
  }

  /** The set of elements of `s`. */
  function Elements<T>(s: seq<T>): set<T>
  {
    set x | x in s
  }

  /**
   * Python's slice `s[:n]`: the first `n` elements, all of them when `n`
   * exceeds the length, and for a negative `n` all but the last `-n`.
   */
  function SliceTo<T>(s: seq<T>, n: int): (r: seq<T>)
    ensures r <= s
    ensures 0 <= n ==> |r| == if n < |s| then n else |s|
    ensures n < 0 ==> |r| == if |s| + n < 0 then 0 else |s| + n
  {
    if 0 <= n then (if n < |s| then s[..n] else s)
    else if |s| + n < 0 then []
    else s[..|s| + n]
  }

  /** Index of the first occurrence of `x` in `s`. */
  function FirstIndex<T(==)>(s: seq<T>, x: T): (i: nat)
    requires x in s
    ensures i < |s| && s[i] == x
    ensures x !in s[..i]
  {
    if s[0] == x then 0
    else
      assert s[1..][..FirstIndex(s[1..], x)] == s[1..1 + FirstIndex(s[1..], x)];
      1 + FirstIndex(s[1..], x)
  }

  /**
   * The distinct elements of `s` in order of first appearance, as pandas'
   * `Series.unique` returns them.
   */
  function Unique<T(==,!new)>(s: seq<T>): (u: seq<T>)
    ensures NoDup(u)
    ensures forall x :: x in u <==> x in s
    decreases |s|
  {
    if |s| == 0 then []
    else
      var u := Unique(s[..|s| - 1]);
      if s[|s| - 1] in u then u else u + [s[|s| - 1]]
  }

  /** Extending a sequence adds its new element to the deduplicated result only if it is new. */
  lemma UniqueSnoc<T(!new)>(s: seq<T>, x: T)
    ensures Unique(s + [x]) == if x in s then Unique(s) else Unique(s) + [x]
  {
    assert (s + [x])[..|s|] == s;
  }

  /** Deduplicating a sequence without repeats returns it unchanged. */
  lemma {:induction false} UniqueOfNoDup<T(!new)>(s: seq<T>)
    requires NoDup(s)
    ensures Unique(s) == s
  {
    if |s| > 0 {
      var t := s[..|s| - 1];
      assert NoDup(t);
      UniqueOfNoDup(t);
      assert s[|s| - 1] !in t;
      assert s == t + [s[|s| - 1]];
    }
  }

  /** Deduplicating a longer prefix only appends to the result. */
  lemma {:induction false} UniquePrefix<T(!new)>(s: seq<T>, i: nat, j: nat)
    requires i <= j <= |s|
    ensures Unique(s[..i]) <= Unique(s[..j])
    decreases j - i
  {
    if i < j {
      UniquePrefix(s, i, j - 1);
      assert s[..j][..j - 1] == s[..j - 1];
    }
  }

  /**
   * Every element of `s` sits in `Unique(s)` at the position given by the
   * number of distinct elements seen before its first occurrence.
   */
  lemma {:induction false} UniqueRank<T(!new)>(s: seq<T>, x: T)
    requires x in s
    ensures |Unique(s[..FirstIndex(s, x)])| < |Unique(s)|
    ensures Unique(s)[|Unique(s[..FirstIndex(s, x)])|] == x
  {
    var p := FirstIndex(s, x);
    assert s[..p + 1][..p] == s[..p];
    assert Unique(s[..p + 1]) == Unique(s[..p]) + [x];
    UniquePrefix(s, p + 1, |s|);
    assert s[..|s|] == s;
  }

  /** A duplicate-free sequence has as many distinct elements as it is long. */
  lemma {:induction false} NoDupCard<T>(s: seq<T>)
    requires NoDup(s)
    ensures |Elements(s)| == |s|
  {
    if |s| > 0 {
      var t := s[..|s| - 1];
      NoDupCard(t);
      assert Elements(s) == Elements(t) + {s[|s| - 1]};
      assert s[|s| - 1] !in t;
    }
  }

  /** `Unique(s)` is exactly as long as the number of distinct elements of `s`. */
  lemma UniqueCard<T(!new)>(s: seq<T>)
    ensures |Unique(s)| == |Elements(s)|
  {
    NoDupCard(Unique(s));
    assert Elements(Unique(s)) == Elements(s);
  }

  /**
   * An element is among the first `n` distinct elements of `s` exactly when it
   * occurs in `s` and fewer than `n` distinct elements occur before its first
   * occurrence.
   */
  lemma FirstDistinct<T(!new)>(s: seq<T>, n: nat, x: T)
    ensures x in SliceTo(Unique(s), n) <==>
              x in s && |Elements(s[..FirstIndex(s, x)])| < n
  {
    var u := Unique(s);
    if x in s {
      var p := FirstIndex(s, x);
      var q := |Unique(s[..p])|;
      UniqueRank(s, x);
      UniqueCard(s[..p]);
      var r := SliceTo(u, n);
      if q < n {
        assert r[q] == x;
      } else {
        forall k | 0 <= k < |r|
          ensures r[k] != x
        {
          assert u[k] != u[q];
        }
      }
    }
  }
}
