/**
 * The session history: an append-only table of `(date, participant_1,
 * participant_2)` rows, with the queries the app shows on top of it.
 */
module Ledger {
  import opened Calendar
  import opened Seqs
  import Sorting

  /** A participant is identified by name only. */
  type Name = string

  /** One row of the session history table. */
  datatype Session = Session(date: Date, first: Name, second: Name)

  /** The `participant_1` column. */
  function FirstColumn(l: seq<Session>): (c: seq<Name>)
    ensures |c| == |l|
    ensures forall i :: 0 <= i < |l| ==> c[i] == l[i].first
  {
    seq(|l|, i requires 0 <= i < |l| => l[i].first)
  }

  /** The `participant_2` column. */
  function SecondColumn(l: seq<Session>): (c: seq<Name>)
    ensures |c| == |l|
    ensures forall i :: 0 <= i < |l| ==> c[i] == l[i].second
  {
    seq(|l|, i requires 0 <= i < |l| => l[i].second)
  }

  /**
   * The two participant columns stacked into one: the whole first column,
   * then the whole second column.  Rows are not interleaved, so the two
   * names of one session are `|l|` positions apart.
   */
  function Melt(l: seq<Session>): (m: seq<Name>)
    ensures |m| == 2 * |l|
    ensures forall i :: 0 <= i < |l| ==> m[i] == l[i].first
    ensures forall i :: |l| <= i < |m| ==> m[i] == l[i - |l|].second
  {
    FirstColumn(l) + SecondColumn(l)
  }

  /** Adds one row at the end; earlier rows keep their content and order. */
  function Append(l: seq<Session>, first: Name, second: Name, date: Date): (r: seq<Session>)
    ensures |r| == |l| + 1
    ensures r[..|l|] == l
    ensures r[|l|] == Session(date, first, second)
  {
    l + [Session(date, first, second)]
  }

  /** Appending a row adds one name to the end of each column. */
  lemma AppendColumns(l: seq<Session>, first: Name, second: Name, date: Date)
    ensures FirstColumn(Append(l, first, second, date)) == FirstColumn(l) + [first]
    ensures SecondColumn(Append(l, first, second, date)) == SecondColumn(l) + [second]
    ensures Melt(Append(l, first, second, date)) == FirstColumn(l) + [first] + SecondColumn(l) + [second]
  {
  }

  // ---------------------------------------------------------------------
  // Participation frequency

  /** A count of at least one. */
  type Positive = n: int | n > 0 witness 1

  /** One row of the frequency table: a name and how often it appears (never zero). */
  datatype Tally = Tally(name: Name, count: Positive)

  /** The name column of a frequency table. */
  function Names(f: seq<Tally>): (n: seq<Name>)
    ensures |n| == |f|
    ensures forall i :: 0 <= i < |f| ==> n[i] == f[i].name
  {
    if |f| == 0 then [] else [f[0].name] + Names(f[1..])
  }

  /** The count recorded for `x`, zero when `x` has no row. */
  function CountOf(f: seq<Tally>, x: Name): nat
  {
    if |f| == 0 then 0
    else if f[0].name == x then f[0].count
    else CountOf(f[1..], x)
  }

  /** The sum of all counts. */
  function Total(f: seq<Tally>): nat
  {
    if |f| == 0 then 0 else f[0].count + Total(f[1..])
  }

  /** Counts one more occurrence of `x`, adding a row for it if it has none. */
  function Bump(f: seq<Tally>, x: Name): (g: seq<Tally>)
    ensures forall y :: CountOf(g, y) == CountOf(f, y) + (if y == x then 1 else 0)
    ensures forall y :: y in Names(g) <==> y in Names(f) || y == x
    ensures NoDup(Names(f)) ==> NoDup(Names(g))
    ensures Total(g) == Total(f) + 1
  {
    if |f| == 0 then [Tally(x, 1)]
    else if f[0].name == x then
      var g := [Tally(x, f[0].count + 1)] + f[1..];
      assert g[1..] == f[1..];
      g
    else
      var t := Bump(f[1..], x);
      var g := [f[0]] + t;
      assert g[1..] == t;
      NoDupCons(f[0].name, Names(f[1..]));
      NoDupCons(f[0].name, Names(t));
      g
  }

  /**
   * Group the names of `m` and count each group: one row per distinct name,
   * in order of first appearance.
   */
  function GroupSizes(m: seq<Name>): (f: seq<Tally>)
    ensures NoDup(Names(f))
    ensures forall y :: CountOf(f, y) == multiset(m)[y]
    ensures forall y :: y in Names(f) <==> y in m
    ensures Total(f) == |m|
  {
    if |m| == 0 then []
    else
      var init := m[..|m| - 1];
      assert m == init + [m[|m| - 1]];
      Bump(GroupSizes(init), m[|m| - 1])
  }

  /**
   * The participation frequency table: for each name in either participant
   * column, how many sessions it appears in, counting both roles.
   */
  function Frequency(l: seq<Session>): (f: seq<Tally>)
    ensures NoDup(Names(f))
    ensures forall y :: y in Names(f) <==> y in FirstColumn(l) || y in SecondColumn(l)
    ensures forall y :: CountOf(f, y) == multiset(FirstColumn(l))[y] + multiset(SecondColumn(l))[y]
    ensures Total(f) == 2 * |l|
  {
    GroupSizes(Melt(l))
  }

  /** Recording a session raises the count of each of its two names by one, and no other count. */
  lemma FrequencyAfterAppend(l: seq<Session>, first: Name, second: Name, date: Date, y: Name)
    ensures CountOf(Frequency(Append(l, first, second, date)), y)
            == CountOf(Frequency(l), y) + (if y == first then 1 else 0) + (if y == second then 1 else 0)
  {
    AppendColumns(l, first, second, date);
  }

  // ---------------------------------------------------------------------
  // History table order

  /** The history table's order: later dates first. */
  predicate LaterOrSame(a: Session, b: Session)
  {
    a.date >= b.date
  }

  lemma LaterOrSameIsTotalPreorder()
    ensures Sorting.TotalPreorder(LaterOrSame)
  {
  }

  /**
   * The history as displayed: the same rows, dates non-increasing.  Rows of
   * equal date keep their ledger order here; the app's sort promises no
   * particular order among them.
   */
  function SortByDateDesc(l: seq<Session>): (r: seq<Session>)
    ensures multiset(r) == multiset(l)
    ensures forall i, j :: 0 <= i < j < |r| ==> r[i].date >= r[j].date
  {
    LaterOrSameIsTotalPreorder();
    var r := Sorting.Sort(l, LaterOrSame);
    assert Sorting.Sorted(r, LaterOrSame);
    r
  }

  /** Re-sorting the displayed history changes nothing. */
  lemma SortByDateDescIdempotent(l: seq<Session>)
    ensures SortByDateDesc(SortByDateDesc(l)) == SortByDateDesc(l)
  {
    var r := SortByDateDesc(l);
    assert Sorting.Sorted(r, LaterOrSame);
    Sorting.SortIdempotent(r, LaterOrSame);
  }
}
