/**
 * Choosing the next pair of participants: the first few distinct names of
 * the stacked history are excluded, and two of the remaining available
 * names are drawn at random.
 */
module Rotation {
  import opened Seqs
  import opened Calendar
  import opened Ledger

  /** How many distinct names of the history are excluded from the next draw. */
  const Threshold: int := 3

  /**
   * The excluded names: the first `threshold` distinct names of `history`
   * in order of first appearance (Python slice semantics for `threshold`).
   * These are the earliest names of the history, not the most recent ones.
   */
  function Recent(history: seq<Name>, threshold: int): (r: seq<Name>)
    ensures NoDup(r)
    ensures forall x :: x in r ==> x in history
  {
    UniqueCard(history);
    var u := Unique(history);
    var r := SliceTo(u, threshold);
    assert forall i :: 0 <= i < |r| ==> r[i] == u[i];
    r
  }

  /**
   * With a non-negative threshold, as many names are excluded as the
   * threshold allows: all distinct names when there are fewer.
   */
  lemma RecentLength(history: seq<Name>, threshold: nat)
    ensures |Recent(history, threshold)| ==
              if threshold < |Elements(history)| then threshold else |Elements(history)|
  {
    UniqueCard(history);
  }

  /** An empty history excludes nobody. */
  lemma RecentOfEmpty(threshold: int)
    ensures Recent([], threshold) == []
  {
  }

  /**
   * A name is excluded exactly when it occurs in the history and fewer than
   * `threshold` distinct names occur before its first occurrence.
   */
  lemma RecentIsEarliest(history: seq<Name>, threshold: nat, x: Name)
    ensures x in Recent(history, threshold) <==>
              x in history && |Elements(history[..FirstIndex(history, x)])| < threshold
  {
    FirstDistinct(history, threshold, x);
  }

  /** The available names that are not excluded, in their given order. */
  function Eligible(available: seq<Name>, recent: seq<Name>): (e: seq<Name>)
    ensures forall x :: x in e <==> x in available && x !in recent
    ensures NoDup(available) ==> NoDup(e)
  {
    if |available| == 0 then []
    else
      var rest := Eligible(available[1..], recent);
      assert available == [available[0]] + available[1..];
      NoDupCons(available[0], available[1..]);
      if available[0] in recent then rest
      else
        NoDupCons(available[0], rest);
        [available[0]] + rest
  }

  /**
   * The eligible list keeps every copy of a name that is not excluded and no
   * copy of one that is.
   */
  lemma {:induction false} EligibleCounts(available: seq<Name>, recent: seq<Name>, x: Name)
    ensures multiset(Eligible(available, recent))[x] == if x in recent then 0 else multiset(available)[x]
  {
    if |available| > 0 {
      EligibleCounts(available[1..], recent, x);
      assert available == [available[0]] + available[1..];
    }
  }

  /** Two different positions of a list hold a sub-multiset of it. */
  lemma TwoPositions(e: seq<Name>, i: nat, j: nat)
    requires i < |e| && j < |e| && i != j
    ensures multiset{e[i], e[j]} <= multiset(e)
  {
    var lo, hi := if i < j then i else j, if i < j then j else i;
    assert e == e[..lo] + [e[lo]] + e[lo + 1..hi] + [e[hi]] + e[hi + 1..];
  }

  /** Two names chosen for one session. */
  datatype Pair = Pair(first: Name, second: Name)

  /** The outcome of the random draw: a pair, or the error raised for fewer than two candidates. */
  datatype Draw = Drawn(pair: Pair) | InsufficientCandidates

  /**
   * Draws two names from the eligible ones.  The random sample is modelled as
   * an arbitrary choice of two different positions of the eligible list; the
   * draw fails when there are fewer than two positions to choose from.
   */
  method SelectNextPair(history: seq<Name>, available: seq<Name>, threshold: int)
    returns (r: Draw)
    ensures r.InsufficientCandidates? <==> |Eligible(available, Recent(history, threshold))| < 2
    ensures r.Drawn? ==>
              multiset{r.pair.first, r.pair.second} <= multiset(Eligible(available, Recent(history, threshold)))
    ensures r.Drawn? ==>
              && r.pair.first in available && r.pair.first !in Recent(history, threshold)
              && r.pair.second in available && r.pair.second !in Recent(history, threshold)
    ensures r.Drawn? && NoDup(available) ==> r.pair.first != r.pair.second
  {
    var e := Eligible(available, Recent(history, threshold));
    if |e| < 2 {
      return InsufficientCandidates;
    }
    var i :| 0 <= i < |e|;
    var k :| 0 <= k < |e| - 1;
    var j := if k < i then k else k + 1;
    r := Drawn(Pair(e[i], e[j]));
    TwoPositions(e, i, j);
  }

  /** What pressing "Assign Participants!" leads to. */
  datatype Assignment =
    | TooFewSelected                              // the warning is shown; nothing changes
    | SampleRaised                                // the random draw raises; nothing is saved
    | Assigned(pair: Pair, ledger: seq<Session>)  // the pair is announced; `ledger` is the history afterwards

  /**
   * The assign action as the app performs it: warn when fewer than two names
   * are available, otherwise draw a pair excluding the first three distinct
   * names of the stacked history and append it as a new row.  The "Save
   * Results" checkbox is created on the very run that draws, so it always
   * reads its default (checked) there, and the row is always appended.
   */
  method AssignParticipants(ledger: seq<Session>, available: seq<Name>, nextDate: Date)
    returns (a: Assignment)
    ensures a == TooFewSelected <==> |available| < 2
    ensures a == SampleRaised <==>
              2 <= |available| && |Eligible(available, Recent(Melt(ledger), Threshold))| < 2
    ensures a.Assigned? ==>
              multiset{a.pair.first, a.pair.second} <= multiset(Eligible(available, Recent(Melt(ledger), Threshold)))
    ensures a.Assigned? ==>
              && a.pair.first in available && a.pair.first !in Recent(Melt(ledger), Threshold)
              && a.pair.second in available && a.pair.second !in Recent(Melt(ledger), Threshold)
    ensures a.Assigned? && NoDup(available) ==> a.pair.first != a.pair.second
    ensures a.Assigned? ==> a.ledger == Append(ledger, a.pair.first, a.pair.second, nextDate)
  {
    if |available| < 2 {
      return TooFewSelected;
    }
    var r := SelectNextPair(Melt(ledger), available, Threshold);
    if r.InsufficientCandidates? {
      return SampleRaised;
    }
    a := Assigned(r.pair, Append(ledger, r.pair.first, r.pair.second, nextDate));
  }

  /**
   * The guard only counts the available names: with one session of A and B
   * on record and exactly A and B available, the guard passes and the draw
   * has nobody left to choose from.
   */
  lemma AvailabilityGuardTooWeak()
    ensures var ledger := [Session(Anchor, "A", "B")];
            var available := ["A", "B"];
            2 <= |available| && Eligible(available, Recent(Melt(ledger), Threshold)) == []
  {
    var ledger := [Session(Anchor, "A", "B")];
    assert Melt(ledger) == ["A", "B"];
    assert Unique(["A", "B"][..1]) == ["A"];
    assert Unique(["A", "B"]) == ["A", "B"];
  }

  /**
   * The assign action with the guard it evidently needs: warn whenever fewer
   * than two names remain after the exclusion, so the draw never raises.
   */
  method AssignParticipantsGuarded(ledger: seq<Session>, available: seq<Name>, nextDate: Date)
    returns (a: Assignment)
    ensures a != SampleRaised
    ensures a == TooFewSelected <==> |Eligible(available, Recent(Melt(ledger), Threshold))| < 2
    ensures a.Assigned? ==>
              multiset{a.pair.first, a.pair.second} <= multiset(Eligible(available, Recent(Melt(ledger), Threshold)))
    ensures a.Assigned? ==>
              && a.pair.first in available && a.pair.first !in Recent(Melt(ledger), Threshold)
              && a.pair.second in available && a.pair.second !in Recent(Melt(ledger), Threshold)
    ensures a.Assigned? && NoDup(available) ==> a.pair.first != a.pair.second
    ensures a.Assigned? ==> a.ledger == Append(ledger, a.pair.first, a.pair.second, nextDate)
  {
    var r := SelectNextPair(Melt(ledger), available, Threshold);
    if r.InsufficientCandidates? {
      return TooFewSelected;
    }
    a := Assigned(r.pair, Append(ledger, r.pair.first, r.pair.second, nextDate));
  }

  /** When the first `k` names of the history are all different, exactly those are excluded. */
  lemma RecentOfDistinctPrefix(history: seq<Name>, k: nat)
    requires k <= |history| && NoDup(history[..k])
    ensures Recent(history, k) == history[..k]
  {
    UniqueOfNoDup(history[..k]);
    UniquePrefix(history, k, |history|);
    assert history[..|history|] == history;
  }

  /**
   * The history is stacked column by column, so with three sessions the
   * excluded names are the three first-column names: B, recorded in the very
   * first session, stays eligible while E, from the latest one, is excluded.
   */
  lemma ColumnOrderScenario()
    ensures var ledger := [Session(Anchor, "A", "B"), Session(Anchor + 14, "C", "D"), Session(Anchor + 28, "E", "F")];
            Recent(Melt(ledger), Threshold) == ["A", "C", "E"]
  {
    var ledger := [Session(Anchor, "A", "B"), Session(Anchor + 14, "C", "D"), Session(Anchor + 28, "E", "F")];
    var m: seq<Name> := ["A", "C", "E", "B", "D", "F"];
    assert Melt(ledger) == m;
    assert m[..3] == ["A", "C", "E"];
    assert NoDup(m[..3]);
    RecentOfDistinctPrefix(m, 3);
  }
}
