/** The pulse: schedules, the durable claims that elect each firing, and whole runs of both. */
module Pulse {
  import opened Occurrences
  import opened OccurrenceLaws
  import opened OccurrenceKeys
  import Calendar
  import Text

  const MISSED_CAP := 1500

  /** A firing: the occurrence's local moment, and how many occurrences the run names as missed. */
  datatype Fire = Fire(moment: int, skipped: nat)

  /** Catch-up counting starts after the floor, or after the last fired occurrence when later. */
  function CatchUpFrom(s: Schedule, prior: Option<string>): int {
    var floor := Local(s, s.floorAt);
    if prior.Some? && Moment(prior.value) > floor then Moment(prior.value) else floor
  }

  function Missed(s: Schedule, from: int, occurrence: int): nat {
    |Firings(s, from, occurrence - 1)|
  }

  function Capped(n: nat): nat {
    if n <= MISSED_CAP then n else MISSED_CAP
  }

  /** How many steps back from a moment, at most `cap`, stay after `from`. */
  function StepsAfter(s: Schedule, moment: int, from: int, cap: nat): nat
    requires s.Valid()
    decreases cap
  {
    if cap == 0 || StepBack(s, moment) <= from then 0 else 1 + StepsAfter(s, StepBack(s, moment), from, cap - 1)
  }

  /** The stepping, capped loop, from any key: how many steps back stay after the catch-up point. */
  method MissedBetween(s: Schedule, prior: Option<string>, occurrence: string) returns (missed: nat)
    requires s.Valid() && FourDigit(Local(s, s.floorAt)) && IsKey(occurrence)
    requires prior.Some? ==> IsKey(prior.value)
    ensures missed == StepsAfter(s, Moment(occurrence), CatchUpFrom(s, prior), MISSED_CAP)
  {
    hide StepBack, Key, Moment, FourDigit, Occurrence, Fires;
    var floor := Local(s, s.floorAt);
    var cursor := Moment(occurrence);
    ghost var o, from := cursor, CatchUpFrom(s, prior);
    KeyMoment(occurrence);
    if prior.Some? {
      KeyMoment(prior.value);
    }
    missed := 0;
    while missed < MISSED_CAP
      invariant 0 <= missed <= MISSED_CAP && cursor <= o
      invariant StepsAfter(s, o, from, MISSED_CAP) == missed + StepsAfter(s, cursor, from, MISSED_CAP - missed)
    {
      StepBackFalls(s, cursor);
      cursor := StepBack(s, cursor);
      if cursor <= floor {
        return;
      }
      FourDigitBetween(floor, cursor, o);
      if prior.Some? {
        KeyOrder(cursor, Moment(prior.value));
        if Text.AtMost(Key(cursor), prior.value) {
          return;
        }
      }
      missed := missed + 1;
    }
  }

  lemma {:induction false} StepBackFalls(s: Schedule, moment: int)
    requires s.Valid()
    ensures StepBack(s, moment) < moment
  {
    hide MonthDay, At, Calendar.MonthStart, Calendar.MonthIndex;
    var day := moment / MINUTES_PER_DAY;
    match s.cadence
    case Daily =>
    case Weekly(_) =>
    case Monthly(wanted) =>
      PreviousMonth(Calendar.YearOf(day), Calendar.MonthOf(day), wanted, s.atMinute);
      var k := Calendar.MonthIndex(day);
      assert k == 12 * Calendar.YearOf(day) + Calendar.MonthOf(day) - 1;
      EarlierMonthEndsBefore(k - 1, wanted, day);
    case Yearly(m, wanted) =>
      var y := Calendar.YearOf(day);
      AtIsMonthDay(y - 1, m, wanted, s.atMinute);
      EarlierMonthEndsBefore(12 * (y - 1) + m - 1, wanted, day);
  }

  lemma {:induction false} EarlierMonthEndsBefore(k: int, wanted: int, day: int)
    requires k < Calendar.MonthIndex(day) && wanted >= 1
    ensures MonthDay(k, wanted) < day
  {
    hide Calendar.MonthStart, Calendar.MonthIndex;
    Calendar.NextMonth(k);
    Calendar.MonthOrder(k, Calendar.MonthIndex(day));
  }

  /** From an occurrence, the steps visit exactly the occurrences after the catch-up point: the
      loop counts those strictly between, up to the cap. */
  lemma {:induction false} StepsCountMissed(s: Schedule, o: int, from: int, cap: nat)
    requires s.Valid() && Fires(s, o)
    ensures var missed := Missed(s, from, o); StepsAfter(s, o, from, cap) == if missed <= cap then missed else cap
    decreases cap
  {
    hide StepBack, Occurrence, Fires;
    StepsVisitNeighbours(s, o);
    var before := StepBack(s, o);
    if before <= from {
      assert Firings(s, from, o - 1) == {};
    } else if cap > 0 {
      StepsCountMissed(s, before, from, cap - 1);
      assert Firings(s, from, o - 1) == Firings(s, from, before - 1) + {before};
    } else {
      assert StepsAfter(s, o, from, 0) == 0;
    }
  }

  lemma {:induction false} KeyMoment(key: string)
    requires IsKey(key)
    ensures FourDigit(Moment(key)) && key == Key(Moment(key))
  {
    var t :| FourDigit(t) && key == Key(t);
    KeyRoundTrip(t);
  }

  // ---- Claims ----

  /** The greatest key, as text, strictly below the bound. */
  function NewestBelow(keys: seq<string>, bound: Option<string>): (r: Option<string>)
    ensures r.Some? ==> r.value in keys && (bound.Some? ==> Text.Less(r.value, bound.value))
    ensures forall k <- keys ::
      (bound.Some? ==> Text.Less(k, bound.value)) ==> r.Some? && Text.AtMost(k, r.value)
  {
    if keys == [] then None else
    var k, rest := keys[|keys| - 1], NewestBelow(keys[..|keys| - 1], bound);
    assert keys == keys[..|keys| - 1] + [k];
    if bound.Some? && !Text.Less(k, bound.value) then rest
    else if rest.None? || Text.Less(rest.value, k) then
      assert rest.Some? ==> forall j <- keys[..|keys| - 1] ::
        (bound.Some? ==> Text.Less(j, bound.value)) ==> Text.AtMost(j, k) by {
        if rest.Some? {
          forall j <- keys[..|keys| - 1] | bound.Some? ==> Text.Less(j, bound.value)
            ensures Text.AtMost(j, k)
          {
            Text.Transitive(j, rest.value, k);
          }
        }
      }
      Some(k)
    else
      Text.Trichotomy(k, rest.value);
      rest
  }

  // ---- One schedule as a state machine ----

  /** One schedule's stored row, its claimed occurrence keys in claiming order, the firings they
      elected, and where the firings since the floor was last set begin. */
  datatype Rhythm = Rhythm(schedule: Schedule, claims: seq<string>, fires: seq<Fire>, epoch: nat)
  {
    ghost predicate Valid() {
      && schedule.Valid() && FourDigit(Local(schedule, schedule.floorAt))
      && |claims| == |fires| && epoch <= |fires|
      && forall i :: 0 <= i < |fires| ==>
           FourDigit(fires[i].moment) && claims[i] == Key(fires[i].moment)
    }
  }

  function Created(s: Schedule): Rhythm {
    Rhythm(s, [], [], 0)
  }

  datatype Event = Tick(now: int) | Pause(now: int) | Resume(now: int)

  /** Clock readings whose local year is written with four digits. */
  predicate Readable(s: Schedule, now: int) {
    FourDigit(Local(s, now))
  }

  /** One due-check: the newest due occurrence fires if its claim is won, naming what was missed
      since the newest earlier claim. */
  function OnTick(r: Rhythm, now: int): Rhythm
    requires r.schedule.Valid() && FourDigit(Local(r.schedule, r.schedule.floorAt))
    requires Readable(r.schedule, now)
  {
    var s := r.schedule;
    if !s.enabled then r else
    match OccurrenceAt(s, now)
    case None => r
    case Some(o) =>
      DueIsReadable(s, now, o);
      if Key(o) in r.claims then r else
      var prior := NewestBelow(r.claims, Some(Key(o)));
      r.(claims := r.claims + [Key(o)],
         fires := r.fires + [Fire(o, Capped(Missed(s, CatchUpFrom(s, prior), o)))])
  }

  function Step(r: Rhythm, e: Event): Rhythm
    requires r.schedule.Valid() && FourDigit(Local(r.schedule, r.schedule.floorAt))
    requires Readable(r.schedule, e.now)
  {
    match e
    case Tick(now) => OnTick(r, now)
    case Pause(_) => r.(schedule := r.schedule.(enabled := false))
    case Resume(now) =>
      r.(schedule := r.schedule.(enabled := true, floorAt := now), epoch := |r.fires|)
  }

  lemma {:induction false} DueIsReadable(s: Schedule, now: int, o: int)
    requires s.Valid() && FourDigit(Local(s, s.floorAt)) && Readable(s, now)
    requires OccurrenceAt(s, now) == Some(o)
    ensures FourDigit(o) && IsNewest(s, o, Local(s, s.floorAt), Local(s, now))
  {
    hide OnOrBefore, Fires;
    OccurrenceAtIsNewestDue(s, now);
    FourDigitBetween(Local(s, s.floorAt), o, Local(s, now));
  }

  predicate AllReadable(s: Schedule, es: seq<Event>) {
    forall e <- es :: Readable(s, e.now)
  }

  ghost predicate Runnable(r: Rhythm, es: seq<Event>) {
    r.Valid() && AllReadable(r.schedule, es)
  }

  /** The rhythm after a whole run of ticks, pauses and resumptions. */
  function Run(r: Rhythm, es: seq<Event>): (r': Rhythm)
    requires Runnable(r, es)
    ensures r'.Valid() && r'.schedule.(enabled := r.schedule.enabled, floorAt := r.schedule.floorAt) == r.schedule
    decreases |es|
  {
    if es == [] then r else
    var before := Run(r, es[..|es| - 1]);
    StepKeepsValid(before, es[|es| - 1]);
    Step(before, es[|es| - 1])
  }

  lemma {:induction false} StepKeepsValid(r: Rhythm, e: Event)
    requires r.Valid() && Readable(r.schedule, e.now)
    ensures Step(r, e).Valid()
  {
    hide OnOrBefore, Fires, Key, FourDigit;
    if e.Tick? && r.schedule.enabled {
      var due := OccurrenceAt(r.schedule, e.now);
      if due.Some? {
        DueIsReadable(r.schedule, e.now, due.value);
      }
    }
  }

  // ---- Safety over every run, whatever the clock does ----

  ghost predicate Distinct(fires: seq<Fire>) {
    forall i, j :: 0 <= i < j < |fires| ==> fires[i].moment != fires[j].moment
  }

  function FloorOf(r: Rhythm): int {
    Local(r.schedule, r.schedule.floorAt)
  }

  ghost predicate AfterFloor(r: Rhythm) {
    && r.epoch <= |r.fires|
    && forall i :: r.epoch <= i < |r.fires| ==>
         FloorOf(r) < r.fires[i].moment && Fires(r.schedule, r.fires[i].moment)
  }

  lemma {:induction false} RunLast(r: Rhythm, es: seq<Event>)
    requires Runnable(r, es) && es != []
    ensures Readable(Run(r, es[..|es| - 1]).schedule, es[|es| - 1].now)
    ensures Run(r, es) == Step(Run(r, es[..|es| - 1]), es[|es| - 1])
  {
    hide Key, FourDigit, Fires, OnOrBefore, Rhythm.Valid, Step;
  }

  /** What a tick that fires appends. */
  function Fired(r: Rhythm, o: int, skipped: nat): Rhythm
    requires FourDigit(o)
  {
    r.(claims := r.claims + [Key(o)], fires := r.fires + [Fire(o, skipped)])
  }

  function Skipped(r: Rhythm, o: int): nat
    requires FourDigit(o)
  {
    Capped(Missed(r.schedule, CatchUpFrom(r.schedule, NewestBelow(r.claims, Some(Key(o)))), o))
  }

  ghost predicate Due(r: Rhythm, now: int, o: int) {
    && FourDigit(o) && IsNewest(r.schedule, o, FloorOf(r), Local(r.schedule, now))
    && forall f <- r.fires :: f.moment != o
  }

  /** A tick either changes nothing, or fires the newest due occurrence, never fired before. */
  lemma {:induction false} TickEffect(r: Rhythm, now: int) returns (o: int)
    requires r.Valid() && Readable(r.schedule, now) && OnTick(r, now) != r
    ensures Due(r, now, o) && OnTick(r, now) == Fired(r, o, Skipped(r, o))
  {
    hide OnOrBefore, Fires, Key, FourDigit, NewestBelow, Missed;
    o := OccurrenceAt(r.schedule, now).value;
    DueIsReadable(r.schedule, now, o);
    forall f | f in r.fires ensures f.moment != o {
      var i :| 0 <= i < |r.fires| && r.fires[i] == f;
      assert r.claims[i] in r.claims;
    }
  }

  /** Pausing or moving the floor changes nothing that occurrences depend on. */
  lemma {:induction false} SameTimes(s: Schedule, s': Schedule, lo: int, hi: int)
    requires s.cadence == s'.cadence && s.atMinute == s'.atMinute
    ensures Firings(s, lo, hi) == Firings(s', lo, hi)
  {
    forall u ensures Fires(s, u) == Fires(s', u) {
      SameRule(s, s', u);
    }
    hide Fires;
  }

  lemma {:induction false} SameRule(s: Schedule, s': Schedule, u: int)
    requires s.cadence == s'.cadence && s.atMinute == s'.atMinute
    ensures Fires(s, u) == Fires(s', u)
  {
  }

  lemma {:induction false} StepFiresAtMostOnce(r: Rhythm, e: Event)
    requires r.Valid() && Readable(r.schedule, e.now) && Distinct(r.fires) && AfterFloor(r)
    ensures Distinct(Step(r, e).fires) && AfterFloor(Step(r, e))
  {
    hide OnTick, Key, FourDigit, Skipped;
    forall i | 0 <= i < |r.fires|
      ensures Fires(r.schedule.(enabled := false), r.fires[i].moment) == Fires(r.schedule, r.fires[i].moment)
    {
      SameRule(r.schedule, r.schedule.(enabled := false), r.fires[i].moment);
    }
    hide Fires;
    if e.Tick? {
      if OnTick(r, e.now) != r {
        var o := TickEffect(r, e.now);
      }
    }
  }

  /** Whatever order the clock readings come in, no occurrence fires twice, everything fired is
      an occurrence, and nothing fires at or before the floor in force. */
  lemma {:induction false} FiresAtMostOnce(r: Rhythm, es: seq<Event>)
    requires Runnable(r, es) && Distinct(r.fires) && AfterFloor(r)
    ensures Distinct(Run(r, es).fires) && AfterFloor(Run(r, es))
    decreases |es|
  {
    if es != [] {
      FiresAtMostOnce(r, es[..|es| - 1]);
      RunLast(r, es);
      StepFiresAtMostOnce(Run(r, es[..|es| - 1]), es[|es| - 1]);
    }
  }
}
