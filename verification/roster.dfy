/**
 * The participants table: every team member ever added, with a flag saying
 * whether they currently take part in the rotation.
 */
module Roster {
  import opened Ledger
  import Sorting

  /** One row of the participants table. */
  datatype Member = Member(name: Name, active: bool)

  /**
   * The names offered for selection: those of active members, in table order.
   * A member whose flag is missing counts as inactive, as the comparison
   * with `True` makes it.
   */
  function ActiveNames(roster: seq<Member>): (r: seq<Name>)
    ensures |r| <= |roster|
    ensures forall x :: x in r <==> exists i :: 0 <= i < |roster| && roster[i].active && roster[i].name == x
  {
    if |roster| == 0 then []
    else
      var rest := ActiveNames(roster[1..]);
      assert forall i :: 1 <= i < |roster| ==> roster[i] == roster[1..][i - 1];
      if roster[0].active then [roster[0].name] + rest else rest
  }

  /** Filtering keeps table order: the active names of a split table are those of its parts, in order. */
  lemma {:induction false} ActiveNamesAppend(a: seq<Member>, b: seq<Member>)
    ensures ActiveNames(a + b) == ActiveNames(a) + ActiveNames(b)
  {
    if |a| > 0 {
      assert (a + b)[1..] == a[1..] + b;
      ActiveNamesAppend(a[1..], b);
    } else {
      assert a + b == b;
    }
  }

  /** Python's string order: lexicographic by code point, a proper prefix first. */
  predicate NameLeq(a: Name, b: Name)
  {
    |a| == 0 || (|b| > 0 && (a[0] < b[0] || (a[0] == b[0] && NameLeq(a[1..], b[1..]))))
  }

  lemma {:induction false} NameLeqTotal(a: Name, b: Name)
    ensures NameLeq(a, b) || NameLeq(b, a)
  {
    if |a| > 0 && |b| > 0 && a[0] == b[0] {
      NameLeqTotal(a[1..], b[1..]);
    }
  }

  lemma {:induction false} NameLeqTransitive(a: Name, b: Name, c: Name)
    requires NameLeq(a, b) && NameLeq(b, c)
    ensures NameLeq(a, c)
  {
    if |a| > 0 && a[0] == b[0] && b[0] == c[0] {
      NameLeqTransitive(a[1..], b[1..], c[1..]);
    }
  }

  lemma {:induction false} NameLeqAntisymmetric(a: Name, b: Name)
    requires NameLeq(a, b) && NameLeq(b, a)
    ensures a == b
  {
    if |a| > 0 {
      NameLeqAntisymmetric(a[1..], b[1..]);
      assert a == [a[0]] + a[1..] && b == [b[0]] + b[1..];
    }
  }

  /** The saved table's order: names ascending. */
  predicate ByName(m: Member, n: Member)
  {
    NameLeq(m.name, n.name)
  }

  lemma ByNameIsTotalPreorder()
    ensures Sorting.TotalPreorder(ByName)
  {
    forall m: Member, n: Member
      ensures ByName(m, n) || ByName(n, m)
    {
      NameLeqTotal(m.name, n.name);
    }
    forall m: Member, n: Member, o: Member | ByName(m, n) && ByName(n, o)
      ensures ByName(m, o)
    {
      NameLeqTransitive(m.name, n.name, o.name);
    }
  }

  /** The table as saved after an edit: the same rows, names ascending. */
  function SortByName(roster: seq<Member>): (r: seq<Member>)
    ensures multiset(r) == multiset(roster)
    ensures forall i, j :: 0 <= i < j < |r| ==> NameLeq(r[i].name, r[j].name)
  {
    ByNameIsTotalPreorder();
    var r := Sorting.Sort(roster, ByName);
    assert Sorting.Sorted(r, ByName);
    r
  }

  /**
   * With the model's fixed tie order (table order among equal names),
   * re-sorting a name-sorted table leaves it unchanged.  The app's own sort
   * guarantees this only when the names are distinct.
   */
  lemma SortByNameIdempotent(roster: seq<Member>)
    ensures SortByName(SortByName(roster)) == SortByName(roster)
  {
    var r := SortByName(roster);
    assert Sorting.Sorted(r, ByName);
    Sorting.SortIdempotent(r, ByName);
  }

  /** Sorting the table on save neither adds nor drops anyone from the selectable names. */
  lemma SortByNameKeepsActiveNames(roster: seq<Member>, x: Name)
    ensures x in ActiveNames(SortByName(roster)) <==> x in ActiveNames(roster)
  {
    var r := SortByName(roster);
    if x in ActiveNames(roster) {
      var i :| 0 <= i < |roster| && roster[i].active && roster[i].name == x;
      assert roster[i] in multiset(r);
      var j :| 0 <= j < |r| && r[j] == roster[i];
    }
    if x in ActiveNames(r) {
      var j :| 0 <= j < |r| && r[j].active && r[j].name == x;
      assert r[j] in multiset(roster);
      var i :| 0 <= i < |roster| && roster[i] == r[j];
    }
  }
}
