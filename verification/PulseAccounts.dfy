/** What whole runs of a rhythm add up to: firings and the missed counts they name against the
    occurrences there were, whatever order the clock readings come in. */
module PulseAccounts {
  import opened Occurrences
  import opened OccurrenceLaws
  import opened OccurrenceKeys
  import opened Pulse
  import Text

  // ---- Where a firing counts from ----

  /** The newest firing before a moment, or the floor when that is newer. */
  function LatestBelow(fires: seq<Fire>, o: int, floor: int): int {
    if fires == [] then floor else
    var rest, last := LatestBelow(fires[..|fires| - 1], o, floor), fires[|fires| - 1];
    if rest < last.moment < o then last.moment else rest
  }

  lemma {:induction false} LatestBelowIs(fires: seq<Fire>, o: int, floor: int)
    ensures var r := LatestBelow(fires, o, floor);
      && floor <= r && (r == floor || exists f <- fires :: f.moment == r < o)
      && forall f <- fires :: f.moment < o ==> f.moment <= r
  {
    if fires != [] {
      LatestBelowIs(fires[..|fires| - 1], o, floor);
      assert fires == fires[..|fires| - 1] + [fires[|fires| - 1]];
    }
  }

  /** The newest moment fired, or the floor when that is newer. */
  function Greatest(fires: seq<Fire>, floor: int): int {
    if fires == [] then floor else
    var rest, last := Greatest(fires[..|fires| - 1], floor), fires[|fires| - 1];
    if rest < last.moment then last.moment else rest
  }

  lemma {:induction false} GreatestIs(fires: seq<Fire>, floor: int)
    ensures var r := Greatest(fires, floor);
      && floor <= r && (r == floor || exists f <- fires :: f.moment == r)
      && forall f <- fires :: f.moment <= r
  {
    if fires != [] {
      GreatestIs(fires[..|fires| - 1], floor);
      assert fires == fires[..|fires| - 1] + [fires[|fires| - 1]];
    }
  }

  lemma {:induction false} GreatestMore(fires: seq<Fire>, f: Fire, floor: int)
    ensures Greatest(fires + [f], floor)
      == if Greatest(fires, floor) < f.moment then f.moment else Greatest(fires, floor)
  {
    assert (fires + [f])[..|fires|] == fires;
  }

  lemma {:induction false} NewestIsAFire(r: Rhythm, o: int) returns (i: nat)
    requires r.Valid() && FourDigit(o) && NewestBelow(r.claims, Some(Key(o))).Some?
    ensures i < |r.fires| && NewestBelow(r.claims, Some(Key(o))).value == Key(r.fires[i].moment)
    ensures r.fires[i].moment < o
  {
    hide Key, FourDigit;
    i :| 0 <= i < |r.claims| && r.claims[i] == NewestBelow(r.claims, Some(Key(o))).value;
    KeyOrder(r.fires[i].moment, o);
  }

  /** Picking the newest earlier claim as text, the count starts from the newest firing before the
      occurrence, or from the floor when that is newer. */
  lemma {:induction false} CatchUpIsLatestBelow(r: Rhythm, o: int)
    requires r.Valid() && FourDigit(o)
    ensures CatchUpFrom(r.schedule, NewestBelow(r.claims, Some(Key(o)))) == LatestBelow(r.fires, o, FloorOf(r))
  {
    var prior := NewestBelow(r.claims, Some(Key(o)));
    forall f | f in r.fires && f.moment < o ensures prior.Some? && f.moment <= Moment(prior.value) {
      EarlierFireIsBounded(r, o, f);
    }
    if prior.Some? {
      var i := NewestIsAFire(r, o);
      KeyRoundTrip(r.fires[i].moment);
      assert r.fires[i] in r.fires && r.fires[i].moment == Moment(prior.value) < o;
    }
    hide *;
    LatestIsUnique(r.fires, o, FloorOf(r), if prior.Some? then Some(Moment(prior.value)) else None);
    CatchUpIsLater(r.schedule, prior);
  }

  lemma {:induction false} CatchUpIsLater(s: Schedule, prior: Option<string>)
    ensures var floor := Local(s, s.floorAt);
      CatchUpFrom(s, prior) == if prior.Some? && Moment(prior.value) > floor then Moment(prior.value) else floor
  {
  }

  lemma {:induction false} LatestIsUnique(fires: seq<Fire>, o: int, floor: int, newest: Option<int>)
    requires newest.Some? ==> exists f <- fires :: f.moment == newest.value < o
    requires forall f <- fires :: f.moment < o ==> newest.Some? && f.moment <= newest.value
    ensures LatestBelow(fires, o, floor) == if newest.Some? && newest.value > floor then newest.value else floor
  {
    LatestBelowIs(fires, o, floor);
    hide LatestBelow;
  }

  lemma {:induction false} EarlierFireIsBounded(r: Rhythm, o: int, f: Fire)
    requires r.Valid() && FourDigit(o) && f in r.fires && f.moment < o
    ensures var prior := NewestBelow(r.claims, Some(Key(o))); prior.Some? && f.moment <= Moment(prior.value)
  {
    hide Key, FourDigit, Moment;
    var k :| 0 <= k < |r.fires| && r.fires[k] == f;
    assert r.claims[k] in r.claims;
    KeyOrder(f.moment, o);
    var i := NewestIsAFire(r, o);
    KeyRoundTrip(r.fires[i].moment);
    KeyOrder(f.moment, r.fires[i].moment);
    KeyOrder(r.fires[i].moment, f.moment);
    Text.Trichotomy(Key(f.moment), Key(r.fires[i].moment));
  }

  // ---- Every firing of the floor epoch names its own gap ----

  function Gap(r: Rhythm, i: int): nat
    requires 0 <= i < |r.fires|
  {
    Missed(r.schedule, LatestBelow(r.fires[..i], r.fires[i].moment, FloorOf(r)), r.fires[i].moment)
  }

  /** Firing i is a new occurrence after the floor, and names the gap down to the newest firing then
      before it, capped. */
  ghost predicate SettledAt(r: Rhythm, i: int)
    requires 0 <= i < |r.fires|
  {
    var f := r.fires[i];
    && FloorOf(r) < f.moment && Fires(r.schedule, f.moment) && f.skipped == Capped(Gap(r, i))
    && forall g <- r.fires[..i] :: g.moment != f.moment
  }

  /** Everything fired since the floor was last set is settled. */
  ghost predicate Settled(r: Rhythm) {
    r.Valid() && forall i :: r.epoch <= i < |r.fires| ==> SettledAt(r, i)
  }

  /** Everything fired before the floor was last set lies behind it. */
  predicate BehindFloor(r: Rhythm)
    requires r.epoch <= |r.fires|
  {
    forall f <- r.fires[..r.epoch] :: f.moment <= FloorOf(r)
  }

  /** No firing is newer than the clock. */
  predicate AllBehind(r: Rhythm, now: int) {
    forall f <- r.fires :: f.moment <= Local(r.schedule, now)
  }

  lemma {:induction false} SameSettled(r: Rhythm, r': Rhythm, i: int)
    requires 0 <= i < |r.fires| <= |r'.fires| && r'.fires[..|r.fires|] == r.fires
    requires r'.schedule.(enabled := r.schedule.enabled) == r.schedule
    ensures SettledAt(r', i) == SettledAt(r, i) && Gap(r', i) == Gap(r, i)
  {
    var f := r.fires[i];
    assert r'.fires[..|r.fires|][i] == f && r'.fires[..i] == r.fires[..i];
    SameTimes(r.schedule, r'.schedule, LatestBelow(r.fires[..i], f.moment, FloorOf(r)), f.moment - 1);
    SameRule(r.schedule, r'.schedule, f.moment);
    hide Fires, Firings, LatestBelow;
  }

  lemma {:induction false} FiredIsValid(r: Rhythm, o: int, skipped: nat)
    requires r.Valid() && FourDigit(o)
    ensures Fired(r, o, skipped).Valid()
  {
    hide Key, FourDigit;
  }

  lemma {:induction false} FiringIsSettled(r: Rhythm, now: int, o: int)
    requires r.Valid() && Due(r, now, o)
    ensures SettledAt(Fired(r, o, Skipped(r, o)), |r.fires|)
  {
    CatchUpIsLatestBelow(r, o);
    hide Fires, Key, FourDigit, Capped, NewestBelow, Moment, Rhythm.Valid;
    var r' := Fired(r, o, Skipped(r, o));
    assert r'.fires[..|r.fires|] == r.fires;
  }

  lemma {:induction false} OneMoreSettled(r: Rhythm, r': Rhythm)
    requires Settled(r) && r'.Valid() && r'.schedule == r.schedule && r'.epoch == r.epoch <= |r.fires|
    requires |r'.fires| == |r.fires| + 1 && r'.fires[..|r.fires|] == r.fires && SettledAt(r', |r.fires|)
    ensures Settled(r')
  {
    hide SettledAt, Rhythm.Valid;
    assert FloorOf(r') == FloorOf(r);
    hide FloorOf;
    forall i | 0 <= i < |r.fires| ensures SettledAt(r', i) == SettledAt(r, i) {
      SameSettled(r, r', i);
    }
  }

  lemma {:induction false} FireKeepsSettled(r: Rhythm, now: int, o: int)
    requires Settled(r) && Due(r, now, o)
    ensures Settled(Fired(r, o, Skipped(r, o)))
  {
    var r' := Fired(r, o, Skipped(r, o));
    assert r.Valid() && FourDigit(o) && r'.schedule == r.schedule && r'.epoch == r.epoch <= |r.fires|;
    assert |r'.fires| == |r.fires| + 1 && r'.fires[..|r.fires|] == r.fires;
    hide *;
    FiringIsSettled(r, now, o);
    FiredIsValid(r, o, Skipped(r, o));
    OneMoreSettled(r, r');
  }

  lemma {:induction false} PauseKeepsSettled(r: Rhythm)
    requires Settled(r)
    ensures Settled(r.(schedule := r.schedule.(enabled := false)))
  {
    var r' := r.(schedule := r.schedule.(enabled := false));
    assert r'.Valid() by {
      hide Key, FourDigit, SettledAt;
    }
    assert r'.fires[..|r.fires|] == r.fires;
    hide SettledAt, Rhythm.Valid;
    forall i | 0 <= i < |r.fires| ensures SettledAt(r', i) == SettledAt(r, i) {
      SameSettled(r, r', i);
    }
  }

  lemma {:induction false} StepKeepsSettled(r: Rhythm, e: Event)
    requires Settled(r) && Readable(r.schedule, e.now)
    ensures Settled(Step(r, e))
  {
    match e
    case Tick(now) =>
      if OnTick(r, now) != r {
        var o := TickEffect(r, now);
        FireKeepsSettled(r, now, o);
      }
    case Pause(_) => PauseKeepsSettled(r);
    case Resume(_) =>
      StepKeepsValid(r, e);
      hide SettledAt, Rhythm.Valid;
  }

  lemma {:induction false} RunKeepsSettled(r: Rhythm, es: seq<Event>)
    requires Settled(r) && Runnable(r, es)
    ensures Settled(Run(r, es))
    decreases |es|
  {
    if es != [] {
      RunKeepsSettled(r, es[..|es| - 1]);
      RunLast(r, es);
      hide Settled, Run;
      StepKeepsSettled(Run(r, es[..|es| - 1]), es[|es| - 1]);
    }
  }

  lemma {:induction false} CreatedIsSettled(s: Schedule)
    requires s.Valid() && FourDigit(Local(s, s.floorAt))
    ensures Settled(Created(s))
  {
  }

  // ---- The account ----

  /** Firings plus the missed counts they name. */
  function Named(fires: seq<Fire>): nat {
    if fires == [] then 0 else Named(fires[..|fires| - 1]) + 1 + fires[|fires| - 1].skipped
  }

  /** Firing i is older than an earlier firing: only a clock that stepped back can bring that about. */
  predicate Late(r: Rhythm, i: int)
    requires 0 <= i < |r.fires|
  {
    r.fires[i].moment < Greatest(r.fires[..i], FloorOf(r))
  }

  /** What late firings among the epoch's up to n name over again: each of them, and its gap. */
  function Overcount(r: Rhythm, n: nat): nat
    requires r.epoch <= n <= |r.fires|
    decreases n
  {
    if n == r.epoch then 0
    else Overcount(r, n - 1) + (if Late(r, n - 1) then 1 + r.fires[n - 1].skipped else 0)
  }

  /** What the cap leaves unnamed among the others. */
  function Uncounted(r: Rhythm, n: nat): nat
    requires r.epoch <= n <= |r.fires|
    decreases n
  {
    if n == r.epoch then 0
    else Uncounted(r, n - 1) + (if Late(r, n - 1) then 0 else Gap(r, n - 1) - Capped(Gap(r, n - 1)))
  }

  ghost predicate Uncapped(r: Rhythm) {
    forall i :: r.epoch <= i < |r.fires| ==> Gap(r, i) <= MISSED_CAP
  }

  predicate InOrder(r: Rhythm) {
    forall i :: r.epoch <= i < |r.fires| ==> !Late(r, i)
  }

  /** Where the epoch's account starts: the floor, or the newest firing from before it was set. */
  function Base(r: Rhythm): int
    requires r.epoch <= |r.fires|
  {
    Greatest(r.fires[..r.epoch], FloorOf(r))
  }

  function Reached(r: Rhythm): int {
    Greatest(r.fires, FloorOf(r))
  }

  lemma {:induction false} SplitAtFiring(s: Schedule, lo: int, mid: int, o: int)
    requires lo <= mid < o && Fires(s, o)
    ensures |Firings(s, lo, o)| == |Firings(s, lo, mid)| + Missed(s, mid, o) + 1
  {
    hide Fires;
    assert Firings(s, lo, o) == Firings(s, lo, mid) + Firings(s, mid, o - 1) + {o};
    assert Firings(s, lo, mid) !! Firings(s, mid, o - 1) && o !in Firings(s, lo, mid) + Firings(s, mid, o - 1);
    hide Firings;
  }

  lemma {:induction false} NamedStep(fires: seq<Fire>, a: nat, n: nat)
    requires a < n <= |fires|
    ensures Named(fires[a..n]) == Named(fires[a..n - 1]) + 1 + fires[n - 1].skipped
    ensures Named(fires[a..a]) == 0
  {
    assert fires[a..n][..n - a - 1] == fires[a..n - 1];
  }

  lemma {:induction false} BaseIsFloor(r: Rhythm)
    requires r.epoch <= |r.fires|
    ensures BehindFloor(r) <==> Base(r) == FloorOf(r)
  {
    hide FloorOf;
    GreatestIs(r.fires[..r.epoch], FloorOf(r));
  }

  lemma {:induction false} GreatestGrows(fires: seq<Fire>, a: nat, n: nat, floor: int)
    requires a <= n <= |fires|
    ensures Greatest(fires[..a], floor) <= Greatest(fires[..n], floor)
    decreases n
  {
    if a < n {
      GreatestGrows(fires, a, n - 1, floor);
      assert fires[..n] == fires[..n - 1] + [fires[n - 1]];
      GreatestMore(fires[..n - 1], fires[n - 1], floor);
    }
  }

  /** A firing that is not late reaches further than everything before it, and counts from there. */
  lemma {:induction false} LeadingFiring(r: Rhythm, i: nat)
    requires i < |r.fires| && SettledAt(r, i) && !Late(r, i)
    ensures var g := Greatest(r.fires[..i], FloorOf(r));
      FloorOf(r) <= g < r.fires[i].moment && LatestBelow(r.fires[..i], r.fires[i].moment, FloorOf(r)) == g
  {
    hide Fires, Gap, FloorOf;
    GreatestIs(r.fires[..i], FloorOf(r));
    LatestBelowIs(r.fires[..i], r.fires[i].moment, FloorOf(r));
  }

  lemma {:induction false} GreatestUpTo(r: Rhythm, n: nat)
    requires 0 < n <= |r.fires|
    ensures Greatest(r.fires[..n], FloorOf(r))
      == if Late(r, n - 1) || r.fires[n - 1].moment == Greatest(r.fires[..n - 1], FloorOf(r))
         then Greatest(r.fires[..n - 1], FloorOf(r)) else r.fires[n - 1].moment
  {
    assert r.fires[..n] == r.fires[..n - 1] + [r.fires[n - 1]];
    GreatestMore(r.fires[..n - 1], r.fires[n - 1], FloorOf(r));
  }

  lemma {:induction false} OneMoreTotal(r: Rhythm, n: nat)
    requires r.epoch < n <= |r.fires|
    ensures Overcount(r, n) == Overcount(r, n - 1) + (if Late(r, n - 1) then 1 + r.fires[n - 1].skipped else 0)
    ensures Uncounted(r, n)
      == Uncounted(r, n - 1) + (if Late(r, n - 1) then 0 else Gap(r, n - 1) - Capped(Gap(r, n - 1)))
  {
    hide Gap, Late, Capped;
  }

  lemma {:induction false} LeadingStep(r: Rhythm, n: nat)
    requires r.epoch < n <= |r.fires| && !Late(r, n - 1) && SettledAt(r, n - 1)
    ensures var s, floor, o := r.schedule, FloorOf(r), r.fires[n - 1].moment;
      && Greatest(r.fires[..n], floor) == o
      && |Firings(s, Base(r), o)| == |Firings(s, Base(r), Greatest(r.fires[..n - 1], floor))| + Gap(r, n - 1) + 1
  {
    var f, g := r.fires[n - 1], Greatest(r.fires[..n - 1], FloorOf(r));
    assert Fires(r.schedule, f.moment) && Base(r) == Greatest(r.fires[..r.epoch], FloorOf(r));
    hide *;
    GreatestUpTo(r, n);
    LeadingFiring(r, n - 1);
    GreatestGrows(r.fires, r.epoch, n - 1, FloorOf(r));
    SplitAtFiring(r.schedule, Base(r), g, f.moment);
    GapFrom(r, n - 1, g);
  }

  /** The account of the epoch's firings up to n. */
  ghost predicate Balanced(r: Rhythm, n: nat)
    requires r.epoch <= n <= |r.fires|
  {
    Named(r.fires[r.epoch..n]) + Uncounted(r, n)
      == |Firings(r.schedule, Base(r), Greatest(r.fires[..n], FloorOf(r)))| + Overcount(r, n)
  }

  lemma {:induction false} StartsBalanced(r: Rhythm)
    requires Settled(r) && r.epoch <= |r.fires|
    ensures Balanced(r, r.epoch)
  {
    assert r.fires[r.epoch..r.epoch] == [];
    hide Settled, Rhythm.Valid, Firings, FloorOf;
    NothingFiresInNoTime(r.schedule, Base(r));
  }

  lemma {:induction false} StaysBalanced(r: Rhythm, n: nat)
    requires r.epoch < n <= |r.fires| && Balanced(r, n - 1) && SettledAt(r, n - 1)
    ensures Balanced(r, n)
  {
    assert r.fires[n - 1].skipped == Capped(Gap(r, n - 1));
    hide SettledAt, Firings, FloorOf, Greatest, Named, Overcount, Uncounted, Capped, Gap, Late;
    NamedStep(r.fires, r.epoch, n);
    OneMoreTotal(r, n);
    if Late(r, n - 1) {
      GreatestUpTo(r, n);
    } else {
      LeadingStep(r, n);
    }
  }

  lemma {:induction false} EachIsSettled(r: Rhythm, i: nat)
    requires Settled(r) && r.epoch <= i < |r.fires|
    ensures SettledAt(r, i)
  {
    hide SettledAt, Rhythm.Valid;
  }

  lemma {:induction false} AccountUpTo(r: Rhythm, n: nat)
    requires Settled(r) && r.epoch <= n <= |r.fires|
    ensures Balanced(r, n)
    decreases n
  {
    hide *;
    if n == r.epoch {
      StartsBalanced(r);
    } else {
      AccountUpTo(r, n - 1);
      EachIsSettled(r, n - 1);
      StaysBalanced(r, n);
    }
  }

  lemma {:induction false} NothingFiresInNoTime(s: Schedule, t: int)
    ensures |Firings(s, t, t)| == 0
  {
    hide Fires;
    assert Firings(s, t, t) == {};
  }

  lemma {:induction false} WhenNothingIsOff(r: Rhythm, n: nat)
    requires r.epoch <= n <= |r.fires|
    ensures Overcount(r, n) == 0 <==> forall i :: r.epoch <= i < n ==> !Late(r, i)
    ensures Uncounted(r, n) == 0 <==> forall i :: r.epoch <= i < n && !Late(r, i) ==> Gap(r, i) <= MISSED_CAP
    decreases n
  {
    hide Gap, Late;
    if n > r.epoch {
      WhenNothingIsOff(r, n - 1);
    }
  }

  lemma {:induction false} SettledBalance(r: Rhythm)
    requires Settled(r)
    ensures var named, all, n := Named(r.fires[r.epoch..]), |Firings(r.schedule, Base(r), Reached(r))|, |r.fires|;
      && named + Uncounted(r, n) == all + Overcount(r, n)
      && (Uncapped(r) ==> (named == all <==> InOrder(r)))
      && (InOrder(r) ==> named <= all && (named == all <==> Uncapped(r)))
  {
    assert r.epoch <= |r.fires|;
    hide Settled, Rhythm.Valid, Firings, FloorOf, Gap, Late, Named, Overcount, Uncounted;
    assert r.fires[..|r.fires|] == r.fires && r.fires[r.epoch..|r.fires|] == r.fires[r.epoch..];
    AccountUpTo(r, |r.fires|);
    WhenNothingIsOff(r, |r.fires|);
  }

  /** Whole-run conservation, for any run and clock readings in any order, in the epoch since the floor
      was last set. Firings plus the missed counts they name are the occurrences up to the newest one
      fired, after the floor and whatever fired before it was set, less what the cap left unnamed, plus
      each late firing with what it names. So with no gap over the cap the account is exact if and only
      if no firing is late; and with none late it is exact if and only if no gap is over the cap, and
      otherwise undercounts. */
  lemma {:induction false} WholeRunConservation(s: Schedule, es: seq<Event>)
    requires Runnable(Created(s), es)
    ensures var r := Run(Created(s), es);
      var named, all, n := Named(r.fires[r.epoch..]), |Firings(r.schedule, Base(r), Reached(r))|, |r.fires|;
      && named + Uncounted(r, n) == all + Overcount(r, n)
      && (Uncapped(r) ==> (named == all <==> InOrder(r)))
      && (InOrder(r) ==> named <= all && (named == all <==> Uncapped(r)))
  {
    assert s.Valid() && FourDigit(Local(s, s.floorAt));
    hide *;
    CreatedIsSettled(s);
    RunKeepsSettled(Created(s), es);
    SettledBalance(Run(Created(s), es));
  }

  // ---- Seen before the tick: the stale ones ----

  /** What a tick would fire is unclaimed and older, as text, than an existing claim. */
  ghost predicate StaleTick(r: Rhythm, e: Event)
    requires r.Valid() && Readable(r.schedule, e.now)
  {
    && e.Tick? && r.schedule.enabled && OccurrenceAt(r.schedule, e.now).Some?
    && var o := OccurrenceAt(r.schedule, e.now).value;
    DueIsReadable(r.schedule, e.now, o);
    Key(o) !in r.claims && exists k <- r.claims :: Text.Less(Key(o), k)
  }

  /** No tick since the floor was last set was stale. */
  ghost predicate NoneStale(r: Rhythm, es: seq<Event>)
    requires Runnable(r, es)
    decreases |es|
  {
    es == [] || (var last, before := es[|es| - 1], es[..|es| - 1];
      RunLast(r, es);
      last.Resume? || (NoneStale(r, before) && !StaleTick(Run(r, before), last)))
  }

  lemma {:induction false} NewerClaimIsNewerFire(r: Rhythm, o: int)
    requires r.Valid() && FourDigit(o)
    ensures (exists k <- r.claims :: Text.Less(Key(o), k)) <==> exists f <- r.fires :: o < f.moment
    ensures Key(o) in r.claims <==> exists f <- r.fires :: f.moment == o
  {
    hide Key, FourDigit;
    forall i | 0 <= i < |r.fires|
      ensures Text.Less(Key(o), r.claims[i]) <==> o < r.fires[i].moment
      ensures r.claims[i] == Key(o) <==> r.fires[i].moment == o
    {
      KeyOrder(o, r.fires[i].moment);
    }
    if exists f <- r.fires :: o < f.moment {
      var i :| 0 <= i < |r.fires| && o < r.fires[i].moment;
      assert r.claims[i] in r.claims;
    }
    if f :| f in r.fires && f.moment == o {
      var i :| 0 <= i < |r.fires| && r.fires[i] == f;
      assert r.claims[i] in r.claims;
    }
  }

  lemma {:induction false} SameLate(r: Rhythm, r': Rhythm, i: int)
    requires 0 <= i < |r.fires| <= |r'.fires| && r'.fires[..|r.fires|] == r.fires && FloorOf(r') == FloorOf(r)
    ensures Late(r', i) == Late(r, i)
  {
    hide FloorOf;
    assert r'.fires[..|r.fires|][i] == r.fires[i] && r'.fires[..i] == r.fires[..i];
  }

  /** A tick's firing is late exactly if the tick was stale. */
  lemma {:induction false} LateExactlyIfStale(r: Rhythm, now: int)
    requires r.Valid() && Readable(r.schedule, now)
    ensures var r' := OnTick(r, now);
      StaleTick(r, Tick(now)) <==> |r'.fires| > |r.fires| && Late(r', |r.fires|)
  {
    var due := OccurrenceAt(r.schedule, now);
    if r.schedule.enabled && due.Some? {
      var o, r' := due.value, OnTick(r, now);
      DueIsReadable(r.schedule, now, o);
      NewerClaimIsNewerFire(r, o);
      GreatestIs(r.fires, FloorOf(r));
      hide Fires, Key, FourDigit, NewestBelow, Missed, Rhythm.Valid, OccurrenceAt, Capped, Greatest, Skipped;
      if Key(o) !in r.claims {
        assert r'.fires[..|r.fires|] == r.fires && r'.fires[|r.fires|].moment == o;
      }
    }
  }

  lemma {:induction false} InOrderSame(r: Rhythm, r': Rhythm)
    requires |r.fires| <= |r'.fires| <= |r.fires| + 1 && r'.fires[..|r.fires|] == r.fires
    requires FloorOf(r') == FloorOf(r) && r'.epoch == r.epoch <= |r.fires|
    ensures InOrder(r') <==> InOrder(r) && (|r'.fires| > |r.fires| ==> !Late(r', |r.fires|))
  {
    hide FloorOf;
    forall i | 0 <= i < |r.fires| ensures Late(r', i) == Late(r, i) {
      SameLate(r, r', i);
    }
    hide Late;
  }

  lemma {:induction false} InOrderSteps(r: Rhythm, e: Event)
    requires r.Valid() && Readable(r.schedule, e.now)
    ensures InOrder(Step(r, e)) <==> e.Resume? || (InOrder(r) && !StaleTick(r, e))
  {
    var r' := Step(r, e);
    assert r.epoch <= |r.fires|;
    match e
    case Tick(now) =>
      LateExactlyIfStale(r, now);
      TickAppends(r, now);
      hide *;
      InOrderSame(r, OnTick(r, now));
    case Pause(_) =>
      assert r'.fires[..|r.fires|] == r.fires && FloorOf(r') == FloorOf(r) && r'.epoch == r.epoch;
      InOrderSame(r, r');
    case Resume(_) =>
  }

  lemma {:induction false} TickAppends(r: Rhythm, now: int)
    requires r.Valid() && Readable(r.schedule, now)
    ensures var r' := OnTick(r, now);
      && |r.fires| <= |r'.fires| <= |r.fires| + 1 && r'.fires[..|r.fires|] == r.fires
      && FloorOf(r') == FloorOf(r) && r'.epoch == r.epoch
  {
    if OnTick(r, now) != r {
      var o := TickEffect(r, now);
      hide OnTick, Rhythm.Valid, Due, Skipped;
    }
  }

  lemma {:induction false} InOrderExactlyIfNoneStale(r: Rhythm, es: seq<Event>)
    requires Runnable(r, es) && r.epoch == |r.fires|
    ensures InOrder(Run(r, es)) <==> NoneStale(r, es)
    decreases |es|
  {
    if es != [] {
      InOrderExactlyIfNoneStale(r, es[..|es| - 1]);
      RunLast(r, es);
      hide InOrder, StaleTick, Run;
      InOrderSteps(Run(r, es[..|es| - 1]), es[|es| - 1]);
    }
  }

  /** So the account of an uncapped run is exact if and only if no tick's due occurrence was unclaimed
      yet older than a claim already made: something the tables show before the tick. */
  lemma {:induction false} ExactIfNoneStale(s: Schedule, es: seq<Event>)
    requires Runnable(Created(s), es)
    ensures var r := Run(Created(s), es);
      var named, all := Named(r.fires[r.epoch..]), |Firings(r.schedule, Base(r), Reached(r))|;
      Uncapped(r) ==> (named == all <==> NoneStale(Created(s), es))
  {
    assert Created(s).epoch == |Created(s).fires|;
    hide *;
    WholeRunConservation(s, es);
    InOrderExactlyIfNoneStale(Created(s), es);
  }

  // ---- After a tick nothing due is unaccounted for ----

  ghost predicate NewestDueHasFired(r: Rhythm, now: int, from: nat) {
    var floor, local := FloorOf(r), Local(r.schedule, now);
    Firings(r.schedule, floor, local) == {}
    || exists i :: from <= i < |r.fires| && IsNewest(r.schedule, r.fires[i].moment, floor, local)
  }

  /** Right after an enabled tick, whatever the clock did before, the newest occurrence due has fired,
      since the floor was set unless it had fired already when it was set; or nothing is due at all. */
  lemma {:induction false} TickLeavesNothingDue(r: Rhythm, now: int)
    requires Settled(r) && Readable(r.schedule, now) && r.schedule.enabled
    ensures NewestDueHasFired(OnTick(r, now), now, 0)
    ensures BehindFloor(r) ==> NewestDueHasFired(OnTick(r, now), now, r.epoch)
  {
    var s, r' := r.schedule, OnTick(r, now);
    var due := OccurrenceAt(s, now);
    OccurrenceAtIsNewestDue(s, now);
    if due.Some? {
      DueIsReadable(s, now, due.value);
      NewerClaimIsNewerFire(r, due.value);
      hide Fires, Key, FourDigit, NewestBelow, Missed, Capped, Rhythm.Valid, OccurrenceAt, SettledAt;
      if Key(due.value) in r.claims {
        var i :| 0 <= i < |r.fires| && r.fires[i].moment == due.value;
        assert i < r.epoch ==> r.fires[i] in r.fires[..r.epoch];
        assert IsNewest(s, r'.fires[i].moment, FloorOf(r'), Local(s, now));
      } else {
        assert IsNewest(s, r'.fires[|r.fires|].moment, FloorOf(r'), Local(s, now));
      }
    }
  }

  // ---- Clocks that never run backwards ----

  predicate NeverBackwards(clock: int, es: seq<Event>) {
    && (es != [] ==> clock <= es[0].now)
    && forall i, j :: 0 <= i < j < |es| ==> es[i].now <= es[j].now
  }

  function ClockAfter(clock: int, es: seq<Event>): int {
    if es == [] then clock else es[|es| - 1].now
  }

  /** The floor and everything fired lie at or before what the clock has shown. */
  ghost predicate Past(r: Rhythm, clock: int) {
    r.epoch <= |r.fires| && BehindFloor(r) && FloorOf(r) <= Local(r.schedule, clock) && AllBehind(r, clock)
  }

  lemma {:induction false} DueIsNewest(r: Rhythm, clock: int, now: int, o: int)
    requires Settled(r) && Past(r, clock) && clock <= now
    requires IsNewest(r.schedule, o, FloorOf(r), Local(r.schedule, now))
    ensures forall f <- r.fires :: f.moment <= o
  {
    hide Fires, Rhythm.Valid, Gap;
    forall f | f in r.fires ensures f.moment <= o {
      var i :| 0 <= i < |r.fires| && r.fires[i] == f;
      assert if i < r.epoch then f in r.fires[..r.epoch] else SettledAt(r, i);
    }
  }

  lemma {:induction false} ForwardStep(r: Rhythm, clock: int, e: Event)
    requires Settled(r) && Past(r, clock) && clock <= e.now && Readable(r.schedule, e.now)
    ensures Past(Step(r, e), e.now) && AllBehind(r, e.now) && !StaleTick(r, e)
  {
    hide Fires, Key, FourDigit, SettledAt;
    if e.Tick? && r.schedule.enabled && OccurrenceAt(r.schedule, e.now).Some? {
      var o := OccurrenceAt(r.schedule, e.now).value;
      DueIsReadable(r.schedule, e.now, o);
      NewerClaimIsNewerFire(r, o);
      hide OccurrenceAt, NewestBelow, Missed, Capped, Rhythm.Valid;
      DueIsNewest(r, clock, e.now, o);
    }
  }

  lemma {:induction false} ForwardInit(clock: int, es: seq<Event>)
    requires NeverBackwards(clock, es) && es != []
    ensures NeverBackwards(clock, es[..|es| - 1]) && ClockAfter(clock, es[..|es| - 1]) <= es[|es| - 1].now
  {
  }

  /** Under a forward clock no resumption and no tick steps back. */
  lemma {:induction false} ForwardRun(s: Schedule, es: seq<Event>)
    requires Runnable(Created(s), es) && NeverBackwards(s.floorAt, es)
    ensures var r := Created(s);
      NoneStale(r, es) && Settled(Run(r, es)) && Past(Run(r, es), ClockAfter(s.floorAt, es))
    decreases |es|
  {
    var r := Created(s);
    if es == [] {
      CreatedIsSettled(s);
    } else {
      var before, last := es[..|es| - 1], es[|es| - 1];
      ForwardInit(s.floorAt, es);
      ForwardRun(s, before);
      RunLast(r, es);
      hide Settled, Past, Run, AllBehind, StaleTick;
      ForwardStep(Run(r, before), ClockAfter(s.floorAt, before), last);
      StepKeepsSettled(Run(r, before), last);
    }
  }

  // ---- The cap, read off the clock ----

  predicate EnabledAfter(s: Schedule, es: seq<Event>) {
    if es == [] then s.enabled
    else match es[|es| - 1]
      case Tick(_) => EnabledAfter(s, es[..|es| - 1])
      case Pause(_) => false
      case Resume(_) => true
  }

  /** The local time of the last enabled tick since the floor was set, or the floor. */
  function Looked(s: Schedule, es: seq<Event>): int {
    if es == [] then Local(s, s.floorAt) else
    var before := es[..|es| - 1];
    match es[|es| - 1]
    case Tick(now) => if EnabledAfter(s, before) then Local(s, now) else Looked(s, before)
    case Pause(_) => Looked(s, before)
    case Resume(now) => Local(s, now)
  }

  /** From one look to the next, no more occurrences fall due than the cap and the one that fires. */
  predicate LooksOften(s: Schedule, es: seq<Event>) {
    es == [] || (var before := es[..|es| - 1];
      match es[|es| - 1]
      case Tick(now) =>
        LooksOften(s, before)
        && (EnabledAfter(s, before) ==> |Firings(s, Looked(s, before), Local(s, now))| <= MISSED_CAP + 1)
      case Pause(_) => LooksOften(s, before)
      case Resume(_) => true)
  }

  /** Everything due at the last look was accounted for then. */
  ghost predicate Caught(r: Rhythm, looked: int) {
    Reached(r) <= looked && Firings(r.schedule, Reached(r), looked) == {}
  }

  lemma {:induction false} DueBetweenLooks(s: Schedule, floor: int, g: int, looked: int, local: int, o: int)
    requires floor <= g <= looked && g < o && Firings(s, g, looked) == {} && IsNewest(s, o, floor, local)
    ensures Firings(s, o, local) == {} && |Firings(s, looked, local)| == Missed(s, g, o) + 1
  {
    hide Fires;
    assert looked < o by {
      assert o <= looked ==> o in Firings(s, g, looked);
    }
    assert Firings(s, looked, local) == Firings(s, g, o - 1) + {o};
  }

  /** A tick that fires reaches from one look to the next: its gap, and itself, fell due between. */
  lemma {:induction false} TickReaches(r: Rhythm, clock: int, now: int, looked: int, o: int)
    requires Settled(r) && Past(r, clock) && clock <= now && Caught(r, looked) && Due(r, now, o)
    ensures var r' := Fired(r, o, Skipped(r, o));
      && Caught(r', Local(r.schedule, now))
      && |Firings(r.schedule, looked, Local(r.schedule, now))| == Gap(r', |r.fires|) + 1
  {
    var r', n, g := Fired(r, o, Skipped(r, o)), |r.fires|, Reached(r);
    DueIsNewest(r, clock, now, o);
    GreatestIs(r.fires, FloorOf(r));
    FiringIsSettled(r, now, o);
    assert r'.fires[..n] == r.fires && FloorOf(r') == FloorOf(r);
    hide Settled, Rhythm.Valid, Skipped, Fires, Gap, Firings, Capped;
    assert !Late(r', n);
    LeadingFiring(r', n);
    GreatestMore(r.fires, Fire(o, Skipped(r, o)), FloorOf(r));
    DueBetweenLooks(r.schedule, FloorOf(r), g, looked, Local(r.schedule, now), o);
    GapFrom(r', n, g);
  }

  lemma {:induction false} GapFrom(r: Rhythm, i: nat, g: int)
    requires i < |r.fires| && LatestBelow(r.fires[..i], r.fires[i].moment, FloorOf(r)) == g
    ensures Gap(r, i) == Missed(r.schedule, g, r.fires[i].moment)
  {
    hide Missed;
  }

  lemma {:induction false} QuietTick(r: Rhythm, clock: int, now: int, looked: int)
    requires Settled(r) && Past(r, clock) && clock <= now && looked <= Local(r.schedule, clock) && FloorOf(r) <= looked
    requires Caught(r, looked) && Readable(r.schedule, now) && r.schedule.enabled && OnTick(r, now) == r
    ensures Caught(r, Local(r.schedule, now)) && Firings(r.schedule, looked, Local(r.schedule, now)) == {}
  {
    TickLeavesNothingDue(r, now);
    GreatestIs(r.fires, FloorOf(r));
    hide Settled, OnTick, Fires, Rhythm.Valid;
    if Firings(r.schedule, FloorOf(r), Local(r.schedule, now)) != {} {
      var i :| r.epoch <= i < |r.fires|
        && IsNewest(r.schedule, r.fires[i].moment, FloorOf(r), Local(r.schedule, now));
      assert r.fires[i] in r.fires;
    }
  }

  predicate SameClockwork(s: Schedule, s': Schedule) {
    s.cadence == s'.cadence && s.atMinute == s'.atMinute && s.tzOffset == s'.tzOffset
  }

  /** What a run under a forward clock maintains beside its account. */
  ghost predicate Watches(s: Schedule, r: Rhythm, enabled: bool, looked: int, often: bool, clock: int) {
    && SameClockwork(s, r.schedule) && r.schedule.enabled == enabled
    && FloorOf(r) <= looked <= Local(s, clock) && Caught(r, looked) && (Uncapped(r) <==> often)
  }

  ghost predicate Watched(s: Schedule, es: seq<Event>, r: Rhythm) {
    Watches(s, r, EnabledAfter(s, es), Looked(s, es), LooksOften(s, es), ClockAfter(s.floorAt, es))
  }

  lemma {:induction false} SameUncapped(r: Rhythm, r': Rhythm)
    requires |r.fires| <= |r'.fires| && r'.fires[..|r.fires|] == r.fires && r'.epoch == r.epoch <= |r.fires|
    requires r'.schedule.(enabled := r.schedule.enabled) == r.schedule
    ensures Uncapped(r') <==> Uncapped(r) && forall i :: |r.fires| <= i < |r'.fires| ==> Gap(r', i) <= MISSED_CAP
  {
    hide SettledAt;
    forall i | 0 <= i < |r.fires| ensures Gap(r', i) == Gap(r, i) {
      SameSettled(r, r', i);
    }
    hide Gap;
  }

  lemma {:induction false} WatchFiring(s: Schedule, r: Rhythm, looked: int, often: bool, clock: int, now: int, o: int)
    requires Watches(s, r, true, looked, often, clock) && Settled(r) && Past(r, clock) && clock <= now && Due(r, now, o)
    ensures var local := Local(s, now);
      Watches(s, Fired(r, o, Skipped(r, o)), true, local, often && |Firings(s, looked, local)| <= MISSED_CAP + 1, now)
  {
    var r', local, due := Fired(r, o, Skipped(r, o)), Local(s, now), |Firings(s, looked, Local(s, now))|;
    assert SameClockwork(s, r'.schedule) && r'.schedule.enabled && FloorOf(r') == FloorOf(r) <= local;
    assert r'.fires[..|r.fires|] == r.fires && |r'.fires| == |r.fires| + 1 && r'.epoch == r.epoch <= |r.fires|;
    assert Caught(r, looked) && (Uncapped(r) <==> often) && Local(r.schedule, now) == local;
    assert r'.schedule.(enabled := r.schedule.enabled) == r.schedule;
    SameTimes(s, r.schedule, looked, local);
    hide *;
    TickReaches(r, clock, now, looked, o);
    UncappedMore(r, r');
    IsWatched(s, r', true, local, often && due <= MISSED_CAP + 1, now);
  }

  lemma {:induction false} UncappedMore(r: Rhythm, r': Rhythm)
    requires |r'.fires| == |r.fires| + 1 && r'.fires[..|r.fires|] == r.fires && r'.epoch == r.epoch <= |r.fires|
    requires r'.schedule.(enabled := r.schedule.enabled) == r.schedule
    ensures Uncapped(r') <==> Uncapped(r) && Gap(r', |r.fires|) <= MISSED_CAP
  {
    SameUncapped(r, r');
    hide Gap, Uncapped;
  }

  lemma {:induction false} IsWatched(s: Schedule, r: Rhythm, enabled: bool, looked: int, often: bool, clock: int)
    requires SameClockwork(s, r.schedule) && r.schedule.enabled == enabled
    requires FloorOf(r) <= looked <= Local(s, clock) && Caught(r, looked) && (Uncapped(r) <==> often)
    ensures Watches(s, r, enabled, looked, often, clock)
  {
  }

  lemma {:induction false} WatchQuiet(s: Schedule, r: Rhythm, looked: int, often: bool, clock: int, now: int)
    requires Watches(s, r, true, looked, often, clock) && Settled(r) && Past(r, clock) && clock <= now
    requires Readable(r.schedule, now) && OnTick(r, now) == r
    ensures var local := Local(s, now);
      Watches(s, r, true, local, often && |Firings(s, looked, local)| <= MISSED_CAP + 1, now)
  {
    var local, due := Local(s, now), |Firings(s, looked, Local(s, now))|;
    assert SameClockwork(s, r.schedule) && r.schedule.enabled && FloorOf(r) <= looked <= Local(r.schedule, clock);
    assert Caught(r, looked) && (Uncapped(r) <==> often) && FloorOf(r) <= Local(r.schedule, now) == local;
    SameTimes(s, r.schedule, looked, local);
    hide *;
    QuietTick(r, clock, now, looked);
    IsWatched(s, r, true, local, often && due <= MISSED_CAP + 1, now);
  }

  lemma {:induction false} WatchTick(s: Schedule, r: Rhythm, looked: int, often: bool, clock: int, now: int)
    requires Watches(s, r, true, looked, often, clock) && Settled(r) && Past(r, clock) && clock <= now
    requires Readable(r.schedule, now)
    ensures var local := Local(s, now);
      Watches(s, OnTick(r, now), true, local, often && |Firings(s, looked, local)| <= MISSED_CAP + 1, now)
  {
    if OnTick(r, now) != r {
      var o := TickEffect(r, now);
      WatchFiring(s, r, looked, often, clock, now, o);
    } else {
      WatchQuiet(s, r, looked, often, clock, now);
    }
  }

  lemma {:induction false} WatchPause(s: Schedule, r: Rhythm, enabled: bool, looked: int, often: bool, clock: int)
    requires Watches(s, r, enabled, looked, often, clock) && r.Valid()
    ensures Watches(s, r.(schedule := r.schedule.(enabled := false)), false, looked, often, clock)
  {
    var r' := r.(schedule := r.schedule.(enabled := false));
    assert SameClockwork(s, r'.schedule) && FloorOf(r') == FloorOf(r) && Reached(r') == Reached(r);
    assert r'.fires[..|r.fires|] == r.fires && (Uncapped(r) <==> often);
    assert Caught(r, looked) && FloorOf(r) <= looked <= Local(s, clock);
    SameTimes(r.schedule, r'.schedule, Reached(r), looked);
    assert Caught(r', looked) by {
      hide Fires, Firings, Reached, Uncapped, Rhythm.Valid;
    }
    assert r'.epoch == r.epoch <= |r.fires| && r'.schedule.(enabled := r.schedule.enabled) == r.schedule;
    assert |r'.fires| == |r.fires| && !r'.schedule.enabled;
    hide *;
    SameUncapped(r, r');
    IsWatched(s, r', false, looked, often, clock);
  }

  lemma {:induction false} WatchResume(s: Schedule, r: Rhythm, enabled: bool, looked: int, often: bool, clock: int,
                                       now: int)
    requires Watches(s, r, enabled, looked, often, clock) && AllBehind(r, now)
    ensures Watches(s, r.(schedule := r.schedule.(enabled := true, floorAt := now), epoch := |r.fires|),
                    true, Local(s, now), true, now)
  {
    var r' := r.(schedule := r.schedule.(enabled := true, floorAt := now), epoch := |r.fires|);
    GreatestIs(r'.fires, FloorOf(r'));
    assert Reached(r') == FloorOf(r') == Local(s, now);
    NothingFiresInNoTime(r'.schedule, Local(s, now));
    hide Fires, Firings, Gap, Reached;
  }

  lemma {:induction false} WatchLater(s: Schedule, r: Rhythm, enabled: bool, looked: int, often: bool, clock: int,
                                      now: int)
    requires Watches(s, r, enabled, looked, often, clock) && clock <= now
    ensures Watches(s, r, enabled, looked, often, now)
  {
    hide Caught, Uncapped;
  }

  lemma {:induction false} WatchedStep(s: Schedule, es: seq<Event>, r: Rhythm)
    requires es != [] && Watched(s, es[..|es| - 1], r) && Settled(r)
    requires Past(r, ClockAfter(s.floorAt, es[..|es| - 1])) && NeverBackwards(s.floorAt, es)
    requires Readable(r.schedule, es[|es| - 1].now)
    ensures Watched(s, es, Step(r, es[|es| - 1]))
  {
    var before, last := es[..|es| - 1], es[|es| - 1];
    var enabled, looked, often := EnabledAfter(s, before), Looked(s, before), LooksOften(s, before);
    var clock := ClockAfter(s.floorAt, before);
    ForwardInit(s.floorAt, es);
    ForwardStep(r, clock, last);
    assert r.Valid() && r.schedule.enabled == enabled;
    WatchLater(s, r, enabled, looked, often, clock, last.now);
    hide Watches, Settled, Past, OnTick, AllBehind, Rhythm.Valid;
    match last
    case Tick(now) =>
      if enabled {
        WatchTick(s, r, looked, often, clock, now);
      } else {
        IdleTick(r, now);
      }
    case Pause(now) => WatchPause(s, r, enabled, looked, often, now);
    case Resume(now) => WatchResume(s, r, enabled, looked, often, clock, now);
  }

  lemma {:induction false} IdleTick(r: Rhythm, now: int)
    requires r.Valid() && Readable(r.schedule, now) && !r.schedule.enabled
    ensures OnTick(r, now) == r
  {
  }

  lemma {:induction false} ForwardRunIsWatched(s: Schedule, es: seq<Event>)
    requires Runnable(Created(s), es) && NeverBackwards(s.floorAt, es)
    ensures Watched(s, es, Run(Created(s), es))
    decreases |es|
  {
    var r := Created(s);
    if es == [] {
      NothingFiresInNoTime(s, FloorOf(r));
    } else {
      var before := es[..|es| - 1];
      ForwardInit(s.floorAt, es);
      ForwardRun(s, before);
      ForwardRunIsWatched(s, before);
      RunLast(r, es);
      hide Watched, Settled, Past, Run;
      WatchedStep(s, es, Run(r, before));
    }
  }

  /** Under a clock that never runs backwards the account is exact if and only if the clock readings
      leave at most the cap and one more occurrence to fall due from one enabled tick to the next; and
      otherwise it undercounts. */
  lemma {:induction false} ForwardConservation(s: Schedule, es: seq<Event>)
    requires Runnable(Created(s), es) && NeverBackwards(s.floorAt, es)
    ensures var r := Run(Created(s), es);
      var named, all := Named(r.fires[r.epoch..]), |Firings(r.schedule, FloorOf(r), Reached(r))|;
      named <= all && (named == all <==> LooksOften(s, es))
  {
    ForwardRun(s, es);
    ForwardRunIsWatched(s, es);
    InOrderExactlyIfNoneStale(Created(s), es);
    WholeRunConservation(s, es);
    BaseIsFloor(Run(Created(s), es));
    hide Run, InOrder, NoneStale, Settled, Past, Caught, Named, Firings, LooksOften, Uncapped;
  }
}
