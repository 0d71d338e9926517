/**
 * The meeting-date rule of the office-hours scheduler.
 *
 * Dates are day numbers in the proleptic Gregorian calendar, counted the way
 * Python's `date.toordinal` counts them: day 1 is 0001-01-01 and the last
 * representable day is 9999-12-31.  Meetings run every other Friday, counted
 * from the anchor Friday 2024-01-05.
 */
module Calendar {
  import opened Outcome

  /** 0001-01-01, the smallest representable date. */
  const FirstDay: int := 1
  /** 9999-12-31, the largest representable date; it is a Friday. */
  const LastDay: int := 3652059
  /** 2024-01-05, the Friday the biweekly cadence is counted from. */
  const Anchor: int := 738890
  /** Weekday number of Friday when Monday is 0. */
  const Friday: int := 4
  /** Days between two consecutive meetings. */
  const Cadence: int := 14

  type Date = d: int | FirstDay <= d <= LastDay witness Anchor

  /** Day of the week, Monday = 0 … Sunday = 6. */
  function Weekday(d: int): (w: int)
    ensures 0 <= w < 7
    ensures w == (d - Anchor + Friday) % 7
  {
    (d + 6) % 7
  }

  /** A day whose distance from the anchor is a whole number of cadences. */
  predicate OnCadence(d: int)
  {
    (d - Anchor) % Cadence == 0
  }

  /** Days to add to reach a Friday: the smallest non-negative such offset. */
  function DaysUntilFriday(d: int): (k: int)
    ensures 0 <= k <= 6
    ensures Weekday(d + k) == Friday
    ensures forall e :: d <= e && Weekday(e) == Friday ==> d + k <= e
  {
    (Friday - Weekday(d)) % 7
  }

  /** The first Friday on or after `today`, before any cadence correction. */
  function NaiveFriday(today: Date): (n: Date)
    ensures Weekday(n) == Friday
    ensures today <= n <= today + 6
    ensures forall d :: today <= d < n ==> Weekday(d) != Friday
  {
    assert Weekday(LastDay) == Friday;
    today + DaysUntilFriday(today)
  }

  /** Every on-cadence day is a Friday. */
  lemma OnCadenceIsFriday(d: int)
    ensures OnCadence(d) ==> Weekday(d) == Friday
  {
    if OnCadence(d) {
      var q := (d - Anchor) / Cadence;
      assert d + 6 == 7 * (2 * q + 105556) + Friday;
    }
  }

  /** Two weeks later is the same weekday and the same position in the cadence. */
  lemma ShiftByCadence(d: int)
    ensures Weekday(d + Cadence) == Weekday(d)
    ensures (d + Cadence - Anchor) % Cadence == (d - Anchor) % Cadence
  {
    var w := (d + 6) / 7;
    assert d + Cadence + 6 == 7 * (w + 2) + (d + 6) % 7;
    var c := (d - Anchor) / Cadence;
    assert d + Cadence - Anchor == Cadence * (c + 1) + (d - Anchor) % Cadence;
  }

  /**
   * An off-cadence Friday is exactly one week off the cadence: the six days
   * after it are not meeting days and the Friday after it is.
   */
  lemma WeekAfterOffCadence(n: int)
    requires Weekday(n) == Friday && !OnCadence(n)
    ensures (n - Anchor) % Cadence == 7
    ensures OnCadence(n + 7)
    ensures forall d :: n <= d < n + 7 ==> !OnCadence(d)
  {
    var w := (n - Anchor) / 7;
    assert n - Anchor == 7 * w;
    var q := w / 2;
    assert w % 2 == 1;
    assert n - Anchor == Cadence * q + 7;
    assert n + 7 - Anchor == Cadence * (q + 1);
    forall d | n <= d < n + 7
      ensures !OnCadence(d)
    {
      assert d - Anchor == Cadence * q + 7 + (d - n);
    }
  }

  /**
   * The default meeting date as the scheduler computes it: move to the next
   * Friday, and if that Friday is off the cadence add two weeks.  `None`
   * stands for the overflow error raised when the result would pass the last
   * representable date.
   */
  function NextFriday(today: Date): (r: Option<Date>)
    ensures r.Some? ==> Weekday(r.value) == Friday
    ensures r.Some? ==> today <= r.value <= today + 20
    ensures OnCadence(NaiveFriday(today)) ==> r == Some(NaiveFriday(today))
    ensures !OnCadence(NaiveFriday(today)) && r.Some? ==> r.value == NaiveFriday(today) + Cadence
    ensures r.Some? ==> (r.value - Anchor) % Cadence == (NaiveFriday(today) - Anchor) % Cadence
    ensures r.None? <==> !OnCadence(NaiveFriday(today)) && NaiveFriday(today) + Cadence > LastDay
  {
    var n := NaiveFriday(today);
    ShiftByCadence(n);
    if OnCadence(n) then Some(n)
    else if n + Cadence <= LastDay then Some(n + Cadence)
    else None
  }

  /** A `today` that is already a meeting day is returned unchanged. */
  lemma NextFridayKeepsMeetingDay(today: Date)
    requires OnCadence(today)
    ensures NextFriday(today) == Some(today)
  {
    OnCadenceIsFriday(today);
  }

  /**
   * The two-week correction never reaches the cadence: when the naive Friday
   * is off the cadence, so is the result.
   */
  lemma NextFridayKeepsParity(today: Date)
    ensures NextFriday(today).Some? ==> (OnCadence(NextFriday(today).value) <==> OnCadence(NaiveFriday(today)))
  {
  }

  /** 2024-01-06 is scheduled for 2024-01-26, which is 21 days after the anchor. */
  lemma NextFridayMissesCadence()
    ensures NextFriday(738891) == Some(738911)
    ensures 738911 - Anchor == 21 && !OnCadence(738911)
  {
  }

  /**
   * The evidently intended rule: the first on-cadence Friday on or after
   * `today`.  An off-cadence naive Friday is one week off, so one week is
   * added instead of two.
   */
  function NextMeetingDay(today: Date): (r: Option<Date>)
    ensures r.Some? ==> OnCadence(r.value) && Weekday(r.value) == Friday
    ensures r.Some? ==> today <= r.value <= today + 13
    ensures r.Some? ==> forall d :: today <= d < r.value ==> !OnCadence(d)
    ensures r.None? <==> forall d :: today <= d <= LastDay ==> !OnCadence(d)
  {
    var n := NaiveFriday(today);
    assert forall d :: today <= d < n ==> !OnCadence(d) by {
      forall d | today <= d < n
        ensures !OnCadence(d)
      {
        OnCadenceIsFriday(d);
      }
    }
    OnCadenceIsFriday(n);
    if OnCadence(n) then Some(n)
    else
      WeekAfterOffCadence(n);
      if n + 7 <= LastDay then Some(n + 7)
      else None
  }

  /**
   * The rule as written agrees with the intended one when the naive Friday is
   * a meeting day and is otherwise exactly one week late.
   */
  lemma NextFridayOneWeekLate(today: Date)
    ensures NextFriday(today).Some? ==> NextMeetingDay(today).Some?
    ensures NextFriday(today).Some? ==>
              NextFriday(today).value == NextMeetingDay(today).value + (if OnCadence(NaiveFriday(today)) then 0 else 7)
  {
  }
}
