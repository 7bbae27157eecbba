/** What the occurrence arithmetic promises, stated against the calendar rule `Fires` alone. */
module OccurrenceLaws {
  import opened Calendar
  import opened Occurrences

  /** The occurrences after `lo` and up to `hi`. */
  function Firings(s: Schedule, lo: int, hi: int): set<int> {
    set u | lo < u <= hi && Fires(s, u)
  }

  ghost predicate IsNewest(s: Schedule, r: int, lo: int, hi: int) {
    && lo < r <= hi && Fires(s, r)
    && forall u :: lo < u <= hi && Fires(s, u) ==> u <= r
  }

  /** No occurrence lies strictly between two consecutive terms of the sequence. */
  lemma {:induction false} NothingBetween(s: Schedule, k: int, u: int)
    requires s.Valid() && Fires(s, u)
    ensures u <= Occurrence(s, k) || Occurrence(s, k + 1) <= u
  {
    hide Occurrence;
    var j := Period(s, u / MINUTES_PER_DAY);
    FiresIsOccurrence(s, u);
    OccurrenceOrder(s, k, j);
    OccurrenceOrder(s, j, k + 1);
  }

  /** `OnOrBefore` is the greatest occurrence at or before the moment, for every cadence. */
  lemma {:induction false} OnOrBeforeIsGreatest(s: Schedule, t: int)
    requires s.Valid()
    ensures Fires(s, OnOrBefore(s, t)) && OnOrBefore(s, t) <= t
    ensures forall u :: Fires(s, u) && u <= t ==> u <= OnOrBefore(s, t)
  {
    hide OnOrBefore, Occurrence, Fires, Latest;
    OnOrBeforeIsLatest(s, t);
    LatestBrackets(s, t);
    OccurrenceFires(s, Latest(s, t));
    forall u | Fires(s, u) && u <= t ensures u <= OnOrBefore(s, t) {
      NothingBetween(s, Latest(s, t), u);
    }
  }

  /** Stepping forward from the newest occurrence reaches the least one after the moment. */
  lemma {:induction false} StepForwardIsLeastAfter(s: Schedule, t: int)
    requires s.Valid()
    ensures var r := StepForward(s, OnOrBefore(s, t));
      t < r && Fires(s, r) && forall u :: Fires(s, u) && t < u ==> r <= u
  {
    hide OnOrBefore, StepForward, Occurrence, Fires, Latest;
    var k := Latest(s, t);
    OnOrBeforeIsLatest(s, t);
    LatestBrackets(s, t);
    StepsMoveTheIndex(s, k);
    OccurrenceFires(s, k + 1);
    forall u | Fires(s, u) && t < u ensures Occurrence(s, k + 1) <= u {
      NothingBetween(s, k, u);
    }
  }

  /** On occurrences, a step moves to the neighbouring occurrence and the two steps undo each
      other: a clamped month end returns to the declared day. */
  lemma {:induction false} StepsVisitNeighbours(s: Schedule, o: int)
    requires s.Valid() && Fires(s, o)
    ensures StepBack(s, o) < o < StepForward(s, o)
    ensures Fires(s, StepBack(s, o)) && Fires(s, StepForward(s, o))
    ensures forall u :: Fires(s, u) ==> u <= StepBack(s, o) || u == o || StepForward(s, o) <= u
    ensures StepForward(s, StepBack(s, o)) == o && StepBack(s, StepForward(s, o)) == o
  {
    var k := Period(s, o / MINUTES_PER_DAY);
    FiresIsOccurrence(s, o);
    hide StepBack, StepForward, Occurrence, Fires, Period;
    StepsMoveTheIndex(s, k);
    StepsMoveTheIndex(s, k - 1);
    StepsMoveTheIndex(s, k + 1);
    OccurrenceFires(s, k - 1);
    OccurrenceFires(s, k + 1);
    OccurrenceOrder(s, k - 1, k);
    OccurrenceOrder(s, k, k + 1);
    forall u | Fires(s, u)
      ensures u <= StepBack(s, o) || u == o || StepForward(s, o) <= u
    {
      NothingBetween(s, k - 1, u);
      NothingBetween(s, k, u);
    }
  }

  /** The occurrence due at `now` is the newest in (floor, now]; none is due exactly when that
      interval holds no occurrence. */
  lemma {:induction false} OccurrenceAtIsNewestDue(s: Schedule, now: int)
    requires s.Valid()
    ensures var floor := Local(s, s.floorAt);
      match OccurrenceAt(s, now)
      case None => Firings(s, floor, Local(s, now)) == {}
      case Some(o) => IsNewest(s, o, floor, Local(s, now))
  {
    hide OnOrBefore, Fires;
    OnOrBeforeIsGreatest(s, Local(s, now));
  }

  /** What a listing shows as "fires next" is the first occurrence after both now and the floor. */
  lemma {:induction false} NextOccurrenceIsFirst(s: Schedule, now: int)
    requires s.Valid()
    ensures var r, floor := NextOccurrence(s, now), Local(s, s.floorAt);
      && Local(s, now) < r && floor < r && Fires(s, r)
      && forall u :: Fires(s, u) && Local(s, now) < u && floor < u ==> r <= u
  {
    hide OnOrBefore, StepForward, Fires;
    var from := if Local(s, now) >= Local(s, s.floorAt) then Local(s, now) else Local(s, s.floorAt);
    StepForwardIsLeastAfter(s, from);
  }

  /** How many occurrences an interval holds is a difference of period indices. */
  lemma {:induction false} CountFirings(s: Schedule, lo: int, hi: int)
    requires s.Valid() && lo <= hi
    ensures |Firings(s, lo, hi)| == Latest(s, hi) - Latest(s, lo)
    decreases Latest(s, hi) - Latest(s, lo), hi - lo
  {
    hide Occurrence, Fires, Latest;
    var j, k := Latest(s, lo), Latest(s, hi);
    LatestBrackets(s, lo);
    LatestBrackets(s, hi);
    OccurrenceOrder(s, j, k + 1);
    if j == k {
      forall u | lo < u <= hi ensures !Fires(s, u) {
        if Fires(s, u) {
          NothingBetween(s, k, u);
        }
      }
      assert Firings(s, lo, hi) == {};
    } else {
      var o := Occurrence(s, k);
      OccurrenceFires(s, k);
      OccurrenceOrder(s, j + 1, k);
      OccurrenceOrder(s, k - 1, k);
      LatestUnique(s, o - 1, k - 1);
      CountFirings(s, lo, o - 1);
      forall u | o < u <= hi ensures !Fires(s, u) {
        if Fires(s, u) {
          NothingBetween(s, k, u);
        }
      }
      assert Firings(s, lo, hi) == Firings(s, lo, o - 1) + {o};
    }
  }

  // ---- The rule, date by date ----

  /** The day after this one is the first of a month. */
  predicate LastOfMonth(y: int, m: int, d: int)
    requires 1 <= m <= 12
  {
    DayNumber(y, m, d) + 1 == if m == 12 then DayNumber(y + 1, 1, 1) else DayNumber(y, m + 1, 1)
  }

  /** The declared day, or the last day of a month that ends before it. */
  predicate StandsIn(y: int, m: int, d: int, wanted: int)
    requires 1 <= m <= 12
  {
    d == wanted || (d < wanted && LastOfMonth(y, m, d))
  }

  lemma {:induction false} LastOfMonthIs(y: int, m: int, d: int)
    requires 1 <= m <= 12
    ensures LastOfMonth(y, m, d) <==> d == MonthLength(y, m)
  {
    MonthStep(y, m);
    assert m == 12 ==> 12 * (y + 1) + 1 - 1 == 12 * y + m;
    hide MonthStart, MonthLength;
  }

  /** On every date and minute a rhythm fires exactly if the minute is its own, and, weekly, the date's
      weekday is the declared one; monthly, it is the declared day, or the last of a month that ends
      before; yearly, the same of the declared month. */
  lemma {:induction false} FiresOnDate(s: Schedule, y: int, m: int, d: int, minute: int)
    requires s.Valid() && 1 <= m <= 12 && 1 <= d <= MonthLength(y, m) && 0 <= minute < MINUTES_PER_DAY
    ensures Fires(s, DayNumber(y, m, d) * MINUTES_PER_DAY + minute)
      <==> minute == s.atMinute
           && match s.cadence
              case Daily => true
              case Weekly(weekday) => WeekdayOf(y, m, d) == weekday
              case Monthly(wanted) => StandsIn(y, m, d, wanted)
              case Yearly(month, wanted) => m == month && StandsIn(y, m, d, wanted)
  {
    var day := DayNumber(y, m, d);
    DateRoundTrip(y, m, d, day);
    DayFields(day, minute);
    WeekdayClosedForm(y, m, d);
    LastOfMonthIs(y, m, d);
    hide DayNumber, YearOf, MonthOf, DayOfMonth, MonthLength, LastOfMonth, WeekdayOf;
  }

  /** A clock shows the hour and minute at that minute of the day. */
  predicate ShownAt(hour: int, minute: int, at: int) {
    0 <= hour <= 23 && 0 <= minute <= 59 && at == 60 * hour + minute
  }

  /** The rules a rhythm must keep admit exactly the times, weekdays, days and months there are. */
  lemma {:induction false} RulesAdmitWhatThereIs(s: Schedule)
    ensures s.Valid()
      <==> (exists hour, minute :: ShownAt(hour, minute, s.atMinute))
           && match s.cadence
              case Daily => true
              case Weekly(weekday) => exists day: int :: day % 7 == weekday
              case Monthly(wanted) => exists y, m :: 1 <= m <= 12 && 1 <= wanted <= MonthLength(y, m)
              case Yearly(month, wanted) =>
                1 <= month <= 12 && exists y, m :: 1 <= m <= 12 && 1 <= wanted <= MonthLength(y, m)
  {
    if 0 <= s.atMinute < MINUTES_PER_DAY {
      assert ShownAt(s.atMinute / 60, s.atMinute % 60, s.atMinute);
    }
    if s.cadence.Weekly? && 0 <= s.cadence.weekday <= 6 {
      assert s.cadence.weekday % 7 == s.cadence.weekday;
    }
    assert MonthLength(1, 1) == 31;
  }
}
