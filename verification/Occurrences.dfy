/** Occurrence arithmetic on a schedule's local clock. A moment is a whole number of minutes;
    every occurrence is a whole minute, so rounding a clock reading down to its minute changes
    no comparison with one. */
module Occurrences {
  import opened Calendar

  const MINUTES_PER_DAY := 1440

  datatype Option<+T> = None | Some(value: T)

  datatype Cadence =
    | Daily
    | Weekly(weekday: int)
    | Monthly(dayOfMonth: int)
    | Yearly(month: int, day: int)

  datatype Schedule = Schedule(cadence: Cadence, atMinute: int, tzOffset: int, enabled: bool, floorAt: int)
  {
    /** What a schedule must satisfy to be stored. */
    predicate Valid() {
      && 0 <= atMinute < MINUTES_PER_DAY
      && match cadence
         case Daily => true
         case Weekly(w) => 0 <= w <= 6
         case Monthly(d) => 1 <= d <= 31
         case Yearly(m, d) => 1 <= m <= 12 && 1 <= d <= 31
    }
  }

  function ClampedDay(y: int, m: int, d: int): int
    requires 1 <= m <= 12
  {
    if d <= MonthLength(y, m) then d else MonthLength(y, m)
  }

  function Local(s: Schedule, moment: int): int {
    moment + s.tzOffset
  }

  /** The minute `at` of the declared day of a month, clamped to the month's length. */
  function At(y: int, m: int, wanted: int, at: int): int
    requires 1 <= m <= 12
  {
    DayNumber(y, m, ClampedDay(y, m, wanted)) * MINUTES_PER_DAY + at
  }

  function OnOrBefore(s: Schedule, local: int): int
    requires s.Valid()
  {
    var day, at := local / MINUTES_PER_DAY, s.atMinute;
    match s.cadence
    case Daily =>
      var candidate := day * MINUTES_PER_DAY + at;
      if candidate > local then candidate - MINUTES_PER_DAY else candidate
    case Weekly(weekday) =>
      var candidate := (day - (day % 7 - weekday) % 7) * MINUTES_PER_DAY + at;
      if candidate > local then candidate - 7 * MINUTES_PER_DAY else candidate
    case Monthly(wanted) =>
      var y, m := YearOf(day), MonthOf(day);
      var candidate := At(y, m, wanted, at);
      if candidate <= local then candidate
      else if m == 1 then At(y - 1, 12, wanted, at) else At(y, m - 1, wanted, at)
    case Yearly(m, wanted) =>
      var y := YearOf(day);
      var candidate := At(y, m, wanted, at);
      if candidate > local then At(y - 1, m, wanted, at) else candidate
  }

  function StepBack(s: Schedule, occurrence: int): int
    requires s.Valid()
  {
    var day, at := occurrence / MINUTES_PER_DAY, s.atMinute;
    match s.cadence
    case Daily => occurrence - MINUTES_PER_DAY
    case Weekly(_) => occurrence - 7 * MINUTES_PER_DAY
    case Monthly(wanted) =>
      var y, m := YearOf(day), MonthOf(day);
      if m == 1 then At(y - 1, 12, wanted, at) else At(y, m - 1, wanted, at)
    case Yearly(m, wanted) => At(YearOf(day) - 1, m, wanted, at)
  }

  function StepForward(s: Schedule, occurrence: int): int
    requires s.Valid()
  {
    var day, at := occurrence / MINUTES_PER_DAY, s.atMinute;
    match s.cadence
    case Daily => occurrence + MINUTES_PER_DAY
    case Weekly(_) => occurrence + 7 * MINUTES_PER_DAY
    case Monthly(wanted) =>
      var y, m := YearOf(day), MonthOf(day);
      if m == 12 then At(y + 1, 1, wanted, at) else At(y, m + 1, wanted, at)
    case Yearly(m, wanted) => At(YearOf(day) + 1, m, wanted, at)
  }

  /** The newest occurrence due at `now`, strictly after the floor. */
  function OccurrenceAt(s: Schedule, now: int): Option<int>
    requires s.Valid()
  {
    var candidate := OnOrBefore(s, Local(s, now));
    if candidate <= Local(s, s.floorAt) then None else Some(candidate)
  }

  function NextOccurrence(s: Schedule, now: int): int
    requires s.Valid()
  {
    var from := if Local(s, now) >= Local(s, s.floorAt) then Local(s, now) else Local(s, s.floorAt);
    StepForward(s, OnOrBefore(s, from))
  }

  // ---- What a rhythm means, without any stepping ----

  /** The calendar rule: a moment is an occurrence exactly when its time of day is the declared
      minute and its date is the declared one, where a month too short for the declared day
      stands in with its last day. */
  predicate Fires(s: Schedule, t: int) {
    var day := t / MINUTES_PER_DAY;
    && t % MINUTES_PER_DAY == s.atMinute
    && match s.cadence
       case Daily => true
       case Weekly(weekday) => day % 7 == weekday
       case Monthly(wanted) => DayOfMonth(day) == ClampedDay(YearOf(day), MonthOf(day), wanted)
       case Yearly(m, wanted) =>
         MonthOf(day) == m && DayOfMonth(day) == ClampedDay(YearOf(day), m, wanted)
  }

  // ---- Occurrences as a strictly increasing sequence over a period index ----

  /** The declared day of month k, clamped. */
  function MonthDay(k: int, wanted: int): int {
    MonthStart(k) + (if wanted <= LengthOfMonth(k) then wanted else LengthOfMonth(k)) - 1
  }

  function OccurrenceDay(s: Schedule, k: int): int {
    match s.cadence
    case Daily => k
    case Weekly(weekday) => 7 * k + weekday
    case Monthly(wanted) => MonthDay(k, wanted)
    case Yearly(m, wanted) => MonthDay(12 * k + m - 1, wanted)
  }

  function Occurrence(s: Schedule, k: int): int {
    OccurrenceDay(s, k) * MINUTES_PER_DAY + s.atMinute
  }

  /** The period a day belongs to, and the day a period begins on. */
  function Period(s: Schedule, day: int): int {
    match s.cadence
    case Daily => day
    case Weekly(weekday) => (day - weekday) / 7
    case Monthly(_) => MonthIndex(day)
    case Yearly(_, _) => YearOf(day)
  }

  function PeriodStart(s: Schedule, k: int): int {
    match s.cadence
    case Daily => k
    case Weekly(weekday) => 7 * k + weekday
    case Monthly(_) => MonthStart(k)
    case Yearly(_, _) => MonthStart(12 * k)
  }

  /** The index of the newest occurrence at or before `t`. */
  function Latest(s: Schedule, t: int): int {
    var k := Period(s, t / MINUTES_PER_DAY);
    if Occurrence(s, k) <= t then k else k - 1
  }

  lemma {:induction false} DayFields(day: int, minute: int)
    requires 0 <= minute < MINUTES_PER_DAY
    ensures (day * MINUTES_PER_DAY + minute) / MINUTES_PER_DAY == day
    ensures (day * MINUTES_PER_DAY + minute) % MINUTES_PER_DAY == minute
  {
    Quotient(day * MINUTES_PER_DAY + minute, MINUTES_PER_DAY, day, minute);
  }

  lemma {:induction false} MonthDayFields(k: int, wanted: int)
    requires 1 <= wanted
    ensures var day := MonthDay(k, wanted);
      MonthIndex(day) == k && DayOfMonth(day) == ClampedDay(k / 12, k % 12 + 1, wanted)
  {
    hide MonthStart, MonthIndex;
    FieldsAreUnique(k, if wanted <= LengthOfMonth(k) then wanted else LengthOfMonth(k));
  }

  lemma {:induction false} AtIsMonthDay(y: int, m: int, wanted: int, at: int)
    requires 1 <= m <= 12
    ensures At(y, m, wanted, at) == MonthDay(12 * y + m - 1, wanted) * MINUTES_PER_DAY + at
  {
    hide MonthStart;
    MonthFields(y, m);
  }

  /** Every period holds its own occurrence, and every day lies in its own period. */
  lemma {:induction false} PeriodHolds(s: Schedule, k: int)
    requires s.Valid()
    ensures PeriodStart(s, k) <= OccurrenceDay(s, k) < PeriodStart(s, k + 1)
  {
    hide MonthStart, MonthIndex;
    match s.cadence
    case Daily =>
    case Weekly(weekday) =>
    case Monthly(wanted) => NextMonth(k);
    case Yearly(m, wanted) =>
      NextMonth(12 * k + m - 1);
      if m > 1 {
        MonthOrder(12 * k, 12 * k + m - 1);
        NextMonth(12 * k);
      }
      MonthOrder(12 * k + m - 1, 12 * (k + 1));
  }

  lemma {:induction false} DayInPeriod(s: Schedule, day: int)
    ensures PeriodStart(s, Period(s, day)) <= day < PeriodStart(s, Period(s, day) + 1)
  {
    hide MonthStart, MonthIndex;
    match s.cadence
    case Daily =>
    case Weekly(weekday) =>
    case Monthly(wanted) =>
    case Yearly(m, wanted) =>
      var k := MonthIndex(day);
      if 12 * (k / 12) < k {
        MonthOrder(12 * (k / 12), k);
        NextMonth(12 * (k / 12));
      }
      MonthOrder(k, 12 * (k / 12) + 12);
  }

  /** Each term of the sequence obeys the calendar rule. */
  lemma {:induction false} OccurrenceFires(s: Schedule, k: int)
    requires s.Valid()
    ensures Fires(s, Occurrence(s, k))
  {
    hide MonthStart, MonthIndex;
    DayFields(OccurrenceDay(s, k), s.atMinute);
    match s.cadence
    case Daily =>
    case Weekly(weekday) =>
    case Monthly(wanted) => MonthDayFields(k, wanted);
    case Yearly(m, wanted) =>
      MonthDayFields(12 * k + m - 1, wanted);
      MonthFields(k, m);
  }

  /** Every moment that obeys the calendar rule is a term of the sequence. */
  lemma {:induction false} FiresIsOccurrence(s: Schedule, t: int)
    requires s.Valid() && Fires(s, t)
    ensures t == Occurrence(s, Period(s, t / MINUTES_PER_DAY))
  {
    hide MonthStart, MonthIndex;
    var day := t / MINUTES_PER_DAY;
    match s.cadence
    case Daily =>
    case Weekly(_) =>
    case Monthly(_) =>
    case Yearly(m, _) => MonthFields(YearOf(day), m);
  }

  lemma {:induction false} OccurrenceStep(s: Schedule, k: int)
    requires s.Valid()
    ensures Occurrence(s, k) < Occurrence(s, k + 1)
  {
    hide MonthStart, MonthIndex;
    PeriodHolds(s, k);
    PeriodHolds(s, k + 1);
  }

  lemma {:induction false} OccurrenceOrder(s: Schedule, j: int, k: int)
    requires s.Valid()
    ensures j < k <==> Occurrence(s, j) < Occurrence(s, k)
    ensures j == k <==> Occurrence(s, j) == Occurrence(s, k)
  {
    hide Occurrence;
    var f := (i: int) => Occurrence(s, i);
    forall i ensures f(i) < f(i + 1) {
      OccurrenceStep(s, i);
    }
    if j < k {
      Climb(f, j, k);
      assert f(j) < f(j + 1);
    } else if k < j {
      Climb(f, k, j);
      assert f(k) < f(k + 1);
    }
  }

  lemma {:induction false} Bracket(day: int, minute: int, at: int, previous: int, current: int, next: int, t: int)
    requires t == day * MINUTES_PER_DAY + minute
    requires 0 <= minute < MINUTES_PER_DAY && 0 <= at < MINUTES_PER_DAY
    requires previous < day < next
    ensures previous * MINUTES_PER_DAY + at <= t < next * MINUTES_PER_DAY + at
  {
  }

  /** `Latest` brackets every moment between two consecutive occurrences. */
  lemma {:induction false} LatestBrackets(s: Schedule, t: int)
    requires s.Valid()
    ensures Occurrence(s, Latest(s, t)) <= t < Occurrence(s, Latest(s, t) + 1)
  {
    hide OccurrenceDay, PeriodStart, Period;
    var day := t / MINUTES_PER_DAY;
    var k := Period(s, day);
    DayInPeriod(s, day);
    PeriodHolds(s, k - 1);
    PeriodHolds(s, k);
    PeriodHolds(s, k + 1);
    Bracket(day, t % MINUTES_PER_DAY, s.atMinute,
      OccurrenceDay(s, k - 1), OccurrenceDay(s, k), OccurrenceDay(s, k + 1), t);
  }

  lemma {:induction false} LatestUnique(s: Schedule, t: int, k: int)
    requires s.Valid() && Occurrence(s, k) <= t < Occurrence(s, k + 1)
    ensures Latest(s, t) == k
  {
    hide Occurrence, Latest;
    LatestBrackets(s, t);
    OccurrenceOrder(s, k, Latest(s, t) + 1);
    OccurrenceOrder(s, Latest(s, t), k + 1);
  }

  lemma {:induction false} OnOrBeforeIsLatest(s: Schedule, t: int)
    requires s.Valid()
    ensures OnOrBefore(s, t) == Occurrence(s, Latest(s, t))
  {
    hide MonthStart, MonthIndex, At, MonthDay;
    var day := t / MINUTES_PER_DAY;
    match s.cadence
    case Daily =>
    case Weekly(w) =>
      hide YearOf, MonthOf;
      WeekStart(day, w);
    case Monthly(wanted) =>
      PreviousMonth(YearOf(day), MonthOf(day), wanted, s.atMinute);
      assert MonthIndex(day) == 12 * YearOf(day) + MonthOf(day) - 1;
      hide YearOf, MonthOf;
    case Yearly(m, wanted) =>
      hide YearOf, MonthOf;
      AtIsMonthDay(YearOf(day), m, wanted, s.atMinute);
      AtIsMonthDay(YearOf(day) - 1, m, wanted, s.atMinute);
  }

  lemma {:induction false} WeekStart(day: int, w: int)
    requires 0 <= w <= 6
    ensures day - (day % 7 - w) % 7 == 7 * ((day - w) / 7) + w
  {
  }

  lemma {:induction false} PreviousMonth(y: int, m: int, wanted: int, at: int)
    requires 1 <= m <= 12
    ensures var k := 12 * y + m - 1;
      At(y, m, wanted, at) == MonthDay(k, wanted) * MINUTES_PER_DAY + at
      && (if m == 1 then At(y - 1, 12, wanted, at) else At(y, m - 1, wanted, at))
         == MonthDay(k - 1, wanted) * MINUTES_PER_DAY + at
  {
    hide MonthStart, MonthIndex;
    AtIsMonthDay(y, m, wanted, at);
    if m == 1 {
      AtIsMonthDay(y - 1, 12, wanted, at);
    } else {
      AtIsMonthDay(y, m - 1, wanted, at);
    }
  }

  lemma {:induction false} NextMonthAt(y: int, m: int, wanted: int, at: int)
    requires 1 <= m <= 12
    ensures (if m == 12 then At(y + 1, 1, wanted, at) else At(y, m + 1, wanted, at))
         == MonthDay(12 * y + m, wanted) * MINUTES_PER_DAY + at
  {
    hide MonthStart, MonthIndex;
    if m == 12 {
      AtIsMonthDay(y + 1, 1, wanted, at);
    } else {
      AtIsMonthDay(y, m + 1, wanted, at);
    }
  }

  lemma {:induction false} StepsMoveTheIndex(s: Schedule, k: int)
    requires s.Valid()
    ensures StepForward(s, Occurrence(s, k)) == Occurrence(s, k + 1)
    ensures StepBack(s, Occurrence(s, k)) == Occurrence(s, k - 1)
  {
    match s.cadence
    case Daily =>
    case Weekly(_) =>
    case Monthly(wanted) => MonthlySteps(s, k);
    case Yearly(m, wanted) => YearlySteps(s, k);
  }

  lemma {:induction false} MonthlySteps(s: Schedule, k: int)
    requires s.Valid() && s.cadence.Monthly?
    ensures StepForward(s, Occurrence(s, k)) == Occurrence(s, k + 1)
    ensures StepBack(s, Occurrence(s, k)) == Occurrence(s, k - 1)
  {
    hide MonthDay, MonthIndex, At;
    var wanted, at := s.cadence.dayOfMonth, s.atMinute;
    DayFields(OccurrenceDay(s, k), at);
    MonthDayFields(k, wanted);
    PreviousMonth(k / 12, k % 12 + 1, wanted, at);
    NextMonthAt(k / 12, k % 12 + 1, wanted, at);
  }

  lemma {:induction false} YearlySteps(s: Schedule, k: int)
    requires s.Valid() && s.cadence.Yearly?
    ensures StepForward(s, Occurrence(s, k)) == Occurrence(s, k + 1)
    ensures StepBack(s, Occurrence(s, k)) == Occurrence(s, k - 1)
  {
    hide MonthDay, MonthIndex, At;
    var m, wanted, at := s.cadence.month, s.cadence.day, s.atMinute;
    DayFields(OccurrenceDay(s, k), at);
    MonthDayFields(12 * k + m - 1, wanted);
    MonthFields(k, m);
    AtIsMonthDay(k - 1, m, wanted, at);
    AtIsMonthDay(k + 1, m, wanted, at);
  }
}
