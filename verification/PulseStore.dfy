/** The durable store behind the pulse, and the gateway's tick over it. */
module PulseStores {
  import opened Occurrences
  import opened OccurrenceLaws
  import opened OccurrenceKeys
  import opened Pulse
  import opened PulseAccounts
  import Text

  const MAX_PER_PERSON := 100
  const MAX_GOAL_CHARS := 500
  const MAX_LABEL_CHARS := 200

  datatype Owner = Owner(tenant: string, principal: string)

  /** Whose rhythm it is and what it runs. */
  datatype Card = Card(owner: Owner, goal: string, caption: string)

  function HeldBy(cards: map<string, Card>, owner: Owner): set<string> {
    set id | id in cards && cards[id].owner == owner
  }

  lemma {:induction false} OneMoreHeld(cards: map<string, Card>, id: string, card: Card, owner: Owner)
    requires id !in cards
    ensures |HeldBy(cards[id := card], owner)| == |HeldBy(cards, owner)| + if card.owner == owner then 1 else 0
  {
    var more := cards[id := card];
    assert HeldBy(more, owner) == HeldBy(cards, owner) + if card.owner == owner then {id} else {};
  }

  /** Nobody holds more rhythms than the limit. */
  ghost predicate WithinLimit(cards: map<string, Card>) {
    forall owner :: MayHold(cards, owner)
  }

  predicate MayHold(cards: map<string, Card>, owner: Owner) {
    |HeldBy(cards, owner)| <= MAX_PER_PERSON
  }

  lemma {:induction false} StaysWithinLimit(cards: map<string, Card>, id: string, card: Card)
    requires id !in cards && WithinLimit(cards) && |HeldBy(cards, card.owner)| < MAX_PER_PERSON
    ensures WithinLimit(cards[id := card])
  {
    var more := cards[id := card];
    forall owner ensures MayHold(more, owner) {
      assert MayHold(cards, owner);
      OneMoreHeld(cards, id, card, owner);
    }
  }

  class PulseStore {
    var schedules: map<string, Schedule>
    var cards: map<string, Card>
    var claims: map<string, seq<string>>
    ghost var fires: map<string, seq<Fire>>
    ghost var epochs: map<string, nat>

    ghost predicate Valid()
      reads this
    {
      && schedules.Keys == cards.Keys == fires.Keys == epochs.Keys && WithinLimit(cards)
      && forall id <- schedules :: View(id).Valid()
    }

    /** The stored row and claims of one schedule, with the firings they stand for. */
    ghost function View(id: string): Rhythm
      reads this
    {
      if id in schedules && id in fires && id in epochs
      then Rhythm(schedules[id], ClaimsOf(id), fires[id], epochs[id])
      else Created(Schedule(Daily, 0, 0, false, 0))
    }

    function ClaimsOf(id: string): seq<string>
      reads this
    {
      if id in claims then claims[id] else []
    }

    constructor ()
      ensures Valid() && schedules == map[] && claims == map[] && cards == map[]
    {
      schedules, cards, claims, fires, epochs := map[], map[], map[], map[], map[];
      assert forall owner :: HeldBy(map[], owner) == {};
    }

    method Put(id: string, row: Schedule, ghost fired: seq<Fire>, ghost epoch: nat)
      requires schedules.Keys == fires.Keys == epochs.Keys
      modifies this`schedules, this`fires, this`epochs
      ensures schedules == old(schedules)[id := row] && schedules.Keys == fires.Keys == epochs.Keys
      ensures View(id) == Rhythm(row, ClaimsOf(id), fired, epoch)
      ensures forall other :: other != id ==> View(other) == old(View(other))
    {
      schedules, fires, epochs := schedules[id := row], fires[id := fired], epochs[id := epoch];
    }

    /** A new row starts its floor at the moment of creation. A goal of no words or too long, a rhythm
        that breaks the rules of its cadence, and one more than a person may hold are refused, and then
        nothing changes. */
    method Add(id: string, owner: Owner, cadence: Cadence, atMinute: int, goal: string, tzOffset: int,
               caption: string, enabled: bool, now: int)
      returns (added: bool)
      requires Valid() && id !in schedules && id !in claims && FourDigit(now + tzOffset)
      modifies this
      ensures Valid()
      ensures added <==> 1 <= |Text.Folded(goal)| <= MAX_GOAL_CHARS
                         && Schedule(cadence, atMinute, tzOffset, enabled, now).Valid()
                         && |HeldBy(old(cards), owner)| < MAX_PER_PERSON
      ensures added ==> schedules == old(schedules)[id := Schedule(cadence, atMinute, tzOffset, enabled, now)]
      ensures added ==> cards == old(cards)[id := Card(owner, Text.Folded(goal), Text.Cut(caption, MAX_LABEL_CHARS))]
      ensures added ==> View(id) == Created(schedules[id])
      ensures !added ==> schedules == old(schedules) && cards == old(cards)
      ensures claims == old(claims) && forall other <- old(schedules) :: View(other) == old(View(other))
    {
      hide Rhythm.Valid, Schedule.Valid, FourDigit, WithinLimit, HeldBy, Text.Folded, Text.Cut;
      var row := Schedule(cadence, atMinute, tzOffset, enabled, now);
      var folded := Text.Folded(goal);
      if folded == "" || |folded| > MAX_GOAL_CHARS || !row.Valid() || |HeldBy(cards, owner)| >= MAX_PER_PERSON {
        return false;
      }
      var card := Card(owner, folded, Text.Cut(caption, MAX_LABEL_CHARS));
      StaysWithinLimit(cards, id, card);
      cards := cards[id := card];
      Put(id, row, [], 0);
      CreatedIsValid(row);
      assert View(id) == Created(row);
      added := true;
    }

    /** Pausing keeps the floor; resuming resets it to now. A missing row, or a stranger's, is reported. */
    method SetEnabled(id: string, owner: Owner, enabled: bool, now: int) returns (found: bool)
      requires Valid() && (id in schedules ==> Readable(schedules[id], now))
      modifies this`schedules, this`fires, this`epochs
      ensures Valid() && claims == old(claims)
      ensures found <==> id in cards && cards[id].owner == owner
      ensures found ==> View(id) == Step(old(View(id)), if enabled then Resume(now) else Pause(now))
      ensures found ==> schedules[id] == old(schedules)[id].(enabled := enabled,
        floorAt := if enabled then now else old(schedules)[id].floorAt)
      ensures !found ==> schedules == old(schedules)
      ensures schedules.Keys == old(schedules.Keys)
      ensures forall other <- schedules :: other != id ==> View(other) == old(View(other))
    {
      hide Rhythm.Valid, Schedule.Valid, Readable, WithinLimit, Step;
      found := id in schedules && cards[id].owner == owner;
      if found {
        Toggle(id, enabled, now);
      }
    }

    method Toggle(id: string, enabled: bool, now: int)
      requires Valid() && id in schedules && Readable(schedules[id], now)
      modifies this`schedules, this`fires, this`epochs
      ensures Valid() && schedules.Keys == old(schedules.Keys)
      ensures View(id) == Step(old(View(id)), if enabled then Resume(now) else Pause(now))
      ensures schedules[id] == old(schedules)[id].(enabled := enabled,
        floorAt := if enabled then now else old(schedules)[id].floorAt)
      ensures forall other :: other != id ==> View(other) == old(View(other))
    {
      hide Rhythm.Valid, Schedule.Valid, Readable, WithinLimit, Step;
      var row := schedules[id];
      ToggledIsStep(View(id), enabled, now);
      if enabled {
        Replace(id, row.(enabled := true, floorAt := now), fires[id], |fires[id]|);
      } else {
        Replace(id, row.(enabled := false), fires[id], epochs[id]);
      }
    }

    /** Another row for a schedule there is. */
    method Replace(id: string, row: Schedule, ghost fired: seq<Fire>, ghost epoch: nat)
      requires Valid() && id in schedules && Rhythm(row, ClaimsOf(id), fired, epoch).Valid()
      modifies this`schedules, this`fires, this`epochs
      ensures Valid() && schedules == old(schedules)[id := row]
      ensures View(id) == Rhythm(row, ClaimsOf(id), fired, epoch)
      ensures forall other :: other != id ==> View(other) == old(View(other))
    {
      hide Rhythm.Valid, Schedule.Valid, WithinLimit;
      Put(id, row, fired, epoch);
      hide View;
    }

    /** The fire election: true exactly once per schedule and occurrence. */
    method Claim(id: string, occurrence: string) returns (won: bool)
      modifies this`claims
      ensures won <==> occurrence !in old(ClaimsOf(id))
      ensures won ==> claims == old(claims)[id := old(ClaimsOf(id)) + [occurrence]]
      ensures !won ==> claims == old(claims)
      ensures occurrence in ClaimsOf(id)
    {
      won := occurrence !in ClaimsOf(id);
      if won {
        claims := claims[id := ClaimsOf(id) + [occurrence]];
      }
    }

    /** Read the newest earlier claim, try to claim, and count what was missed. */
    method Elect(id: string, o: int) returns (fired: Option<Fire>)
      requires schedules.Keys == fires.Keys == epochs.Keys && id in schedules
      requires schedules[id].Valid() && FourDigit(Local(schedules[id], schedules[id].floorAt)) && FourDigit(o)
      requires IsKey(Key(o)) && PriorIsKnown(ClaimsOf(id), o)
      modifies this`claims, this`fires
      ensures schedules.Keys == fires.Keys == epochs.Keys
      ensures View(id) == Elected(old(View(id)), o)
      ensures View(id).fires == old(View(id)).fires + (if fired.Some? then [fired.value] else [])
      ensures forall other :: other != id ==> View(other) == old(View(other))
    {
      hide FourDigit, Key, Moment, NewestBelow, StepsAfter, CatchUpFrom, Schedule.Valid;
      var prior := NewestBelow(ClaimsOf(id), Some(Key(o)));
      var won := Claim(id, Key(o));
      if !won {
        return None;
      }
      var skipped := MissedBetween(schedules[id], prior, Key(o));
      fired := Some(Fire(o, skipped));
      fires := fires[id := fires[id] + [fired.value]];
    }

    /** One schedule's due-check: whatever is due now is put to the election. */
    method Check(id: string, now: int) returns (fired: Option<Fire>)
      requires Valid() && id in schedules && Readable(schedules[id], now)
      modifies this`claims, this`fires
      ensures Valid()
      ensures View(id) == OnTick(old(View(id)), now)
      ensures View(id).fires == old(View(id)).fires + (if fired.Some? then [fired.value] else [])
      ensures forall other :: other != id ==> View(other) == old(View(other))
    {
      hide FourDigit, Key, PriorIsKnown, Elected, OccurrenceAt, OnTick, Schedule.Valid;
      ghost var before := View(id);
      TickCases(before, now);
      fired := None;
      var s := schedules[id];
      assert before.schedule == s && before.claims == ClaimsOf(id);
      assert s.Valid() && FourDigit(Local(s, s.floorAt)) && Readable(s, now);
      hide Readable, Rhythm.Valid, View, ClaimsOf;
      if s.enabled {
        var due := OccurrenceAt(s, now);
        if due.Some? {
          fired := Elect(id, due.value);
        }
      }
    }

    /** The gateway's tick: every schedule is checked once, independently of the others. */
    method Sweep(now: int)
      requires Valid() && forall id <- schedules :: Readable(schedules[id], now)
      modifies this`claims, this`fires
      ensures Valid()
      ensures forall id <- schedules :: View(id) == OnTick(old(View(id)), now)
    {
      hide FourDigit, OnTick, WithinLimit, Key, Text.Less, OccurrenceAt;
      var todo := schedules.Keys;
      while todo != {}
        invariant Valid() && todo <= schedules.Keys
        invariant forall id <- todo :: View(id) == old(View(id))
        invariant forall id <- schedules.Keys - todo :: View(id) == OnTick(old(View(id)), now)
        decreases todo
      {
        var id :| id in todo;
        var _ := Check(id, now);
        todo := todo - {id};
      }
    }
  }

  /** What a due-check reads and does, case by case, in the terms the tables offer. */
  lemma {:induction false} TickCases(r: Rhythm, now: int)
    requires r.Valid() && Readable(r.schedule, now)
    ensures OnTick(r, now).Valid()
    ensures var due := OccurrenceAt(r.schedule, now);
      if !r.schedule.enabled || due.None? then OnTick(r, now) == r
      else
        FourDigit(due.value) && IsKey(Key(due.value)) && PriorIsKnown(r.claims, due.value)
        && OnTick(r, now) == Elected(r, due.value)
  {
    StepKeepsValid(r, Tick(now));
    var due := OccurrenceAt(r.schedule, now);
    if r.schedule.enabled && due.Some? {
      DueIsReadable(r.schedule, now, due.value);
      KeyRoundTrip(due.value);
      PriorIsKey(r, due.value);
      var from := CatchUpFrom(r.schedule, NewestBelow(r.claims, Some(Key(due.value))));
      StepsCountMissed(r.schedule, due.value, from, MISSED_CAP);
      hide FourDigit, Key, Fires, Moment, NewestBelow, StepsAfter, CatchUpFrom, OccurrenceAt, Rhythm.Valid, Missed;
    }
  }

  ghost predicate PriorIsKnown(claims: seq<string>, o: int)
    requires FourDigit(o)
  {
    var prior := NewestBelow(claims, Some(Key(o))); prior.Some? ==> IsKey(prior.value)
  }

  /** The rhythm after its due occurrence was put to the election. */
  function Elected(r: Rhythm, o: int): Rhythm
    requires FourDigit(o) && r.schedule.Valid()
  {
    if Key(o) in r.claims then r
    else
      var prior := NewestBelow(r.claims, Some(Key(o)));
      Fired(r, o, StepsAfter(r.schedule, Moment(Key(o)), CatchUpFrom(r.schedule, prior), MISSED_CAP))
  }

  function Toggled(r: Rhythm, enabled: bool, now: int): Rhythm {
    if enabled then r.(schedule := r.schedule.(enabled := true, floorAt := now), epoch := |r.fires|)
    else r.(schedule := r.schedule.(enabled := false))
  }

  lemma {:induction false} ToggledIsStep(r: Rhythm, enabled: bool, now: int)
    requires r.Valid() && Readable(r.schedule, now)
    ensures Toggled(r, enabled, now) == Step(r, if enabled then Resume(now) else Pause(now))
    ensures Toggled(r, enabled, now).Valid()
  {
    StepKeepsValid(r, if enabled then Resume(now) else Pause(now));
  }

  lemma {:induction false} CreatedIsValid(row: Schedule)
    requires row.Valid() && FourDigit(Local(row, row.floorAt))
    ensures Created(row).Valid()
  {
  }

  lemma {:induction false} PriorIsKey(r: Rhythm, o: int)
    requires r.Valid() && FourDigit(o)
    ensures var prior := NewestBelow(r.claims, Some(Key(o))); prior.Some? ==> IsKey(prior.value)
  {
    hide Key, FourDigit;
    if NewestBelow(r.claims, Some(Key(o))).Some? {
      var i := NewestIsAFire(r, o);
    }
  }

  // ---- Why the clock must not run backwards ----

  /** An occurrence after the floor, with a four-digit year, of an enabled rhythm. */
  ghost predicate Claimable(s: Schedule, o: int) {
    && s.Valid() && s.enabled && FourDigit(Local(s, s.floorAt))
    && Local(s, s.floorAt) < o && FourDigit(o) && Fires(s, o)
  }

  /** The clock reading at which the local clock shows a given minute. */
  function ClockAt(s: Schedule, local: int): int {
    local - s.tzOffset
  }

  lemma {:induction false} DueOnTheMinute(s: Schedule, o: int)
    requires Claimable(s, o)
    ensures OccurrenceAt(s, ClockAt(s, o)) == Some(o) && Readable(s, ClockAt(s, o))
  {
    hide Fires, FourDigit, OccurrenceAt;
    OccurrenceAtIsNewestDue(s, ClockAt(s, o));
    assert o in Firings(s, Local(s, s.floorAt), o);
  }

  /** A tick on an unclaimed occurrence older than every claim counts from the floor. */
  lemma {:induction false} TickOnTheMinute(r: Rhythm, o: int)
    requires r.Valid() && Claimable(r.schedule, o) && forall f <- r.fires :: o < f.moment
    ensures Readable(r.schedule, ClockAt(r.schedule, o))
    ensures OnTick(r, ClockAt(r.schedule, o)) == Fired(r, o, Capped(Missed(r.schedule, FloorOf(r), o)))
  {
    DueOnTheMinute(r.schedule, o);
    hide Fires, FourDigit, OccurrenceAt, Key, Missed, Capped;
    forall key | key in r.claims ensures key != Key(o) && !Text.Less(key, Key(o)) {
      var i :| 0 <= i < |r.claims| && r.claims[i] == key;
      assert r.fires[i] in r.fires;
      KeyOrder(r.fires[i].moment, o);
    }
    assert NewestBelow(r.claims, Some(Key(o))) == None;
  }

  /** A clock that steps back breaks conservation, on every rhythm: ticked at one occurrence and
      then at an earlier one, the second firing was already named as missed by the first, and what
      was missed before it is named twice. */
  lemma {:induction false} BackwardClockOvercounts(s: Schedule, o1: int, o2: int)
    requires Claimable(s, o1) && Claimable(s, o2) && o1 < o2
    requires Missed(s, Local(s, s.floorAt), o2) <= MISSED_CAP
    ensures var floor, ticks := Local(s, s.floorAt), [Tick(ClockAt(s, o2)), Tick(ClockAt(s, o1))];
      && Runnable(Created(s), ticks)
      && Run(Created(s), ticks).fires == [Fire(o2, Missed(s, floor, o2)), Fire(o1, Missed(s, floor, o1))]
      && Named(Run(Created(s), ticks).fires) == |Firings(s, floor, o2)| + 1 + Missed(s, floor, o1)
  {
    var floor := Local(s, s.floorAt);
    hide *;
    FirstTick(s, o1, o2);
    var r := OnTick(Created(s), ClockAt(s, o2));
    SecondTick(s, r, o1, o2);
    TwoTicks(Created(s), ClockAt(s, o2), ClockAt(s, o1));
    NamedTwice(Fire(o2, Missed(s, floor, o2)), Fire(o1, Missed(s, floor, o1)));
    ClaimableFires(s, o2);
    EarlierMissFewer(s, floor, o1, o2);
  }

  lemma {:induction false} ClaimableFires(s: Schedule, o: int)
    requires Claimable(s, o)
    ensures Fires(s, o) && Local(s, s.floorAt) < o
  {
    hide Fires;
  }

  lemma {:induction false} FirstTick(s: Schedule, o1: int, o2: int)
    requires Claimable(s, o1) && Claimable(s, o2) && o1 < o2
    requires Missed(s, Local(s, s.floorAt), o2) <= MISSED_CAP
    ensures s.Valid() && FourDigit(Local(s, s.floorAt)) && Readable(s, ClockAt(s, o2))
    ensures Created(s).Valid() && Created(s).schedule == s
    ensures Local(s, s.floorAt) < o1 && Runnable(Created(s), [Tick(ClockAt(s, o2)), Tick(ClockAt(s, o1))])
    ensures var r := OnTick(Created(s), ClockAt(s, o2));
      r.Valid() && r.schedule == s && r.fires == [Fire(o2, Missed(s, Local(s, s.floorAt), o2))]
  {
    CreatedIsValid(s);
    TickOnTheMinute(Created(s), o2);
    StepKeepsValid(Created(s), Tick(ClockAt(s, o2)));
    DueOnTheMinute(s, o1);
    hide Fires, FourDigit, Key, Missed, OnTick, Rhythm.Valid;
  }

  lemma {:induction false} SecondTick(s: Schedule, r: Rhythm, o1: int, o2: int)
    requires Claimable(s, o1) && Claimable(s, o2) && o1 < o2 && Missed(s, Local(s, s.floorAt), o2) <= MISSED_CAP
    requires r.Valid() && r.schedule == s && r.fires == [Fire(o2, Missed(s, Local(s, s.floorAt), o2))]
    ensures Readable(s, ClockAt(s, o1))
    ensures OnTick(r, ClockAt(s, o1)).fires == r.fires + [Fire(o1, Missed(s, Local(s, s.floorAt), o1))]
  {
    ClaimableFires(s, o1);
    ClaimableFires(s, o2);
    EarlierMissFewer(s, Local(s, s.floorAt), o1, o2);
    TickOnTheMinute(r, o1);
    hide Fires, FourDigit, Key, Missed, OnTick, Rhythm.Valid, Claimable;
  }

  lemma {:induction false} NamedTwice(a: Fire, b: Fire)
    ensures Named([a] + [b]) == 2 + a.skipped + b.skipped
  {
    assert [a, b][..1] == [a];
    assert Named([a]) == 1 + a.skipped;
    assert [a] + [b] == [a, b];
  }

  lemma {:induction false} EarlierMissFewer(s: Schedule, floor: int, o1: int, o2: int)
    requires floor < o1 < o2 && Fires(s, o2)
    ensures Missed(s, floor, o1) <= Missed(s, floor, o2)
    ensures |Firings(s, floor, o2)| == Missed(s, floor, o2) + 1
  {
    hide Fires;
    assert Firings(s, floor, o2 - 1) == Firings(s, floor, o1 - 1) + Firings(s, o1 - 1, o2 - 1);
    assert Firings(s, floor, o2) == Firings(s, floor, o2 - 1) + {o2};
  }

  lemma {:induction false} TwoTicks(r: Rhythm, first: int, second: int)
    requires Runnable(r, [Tick(first), Tick(second)])
    ensures Readable(OnTick(r, first).schedule, second) && OnTick(r, first).Valid()
    ensures Run(r, [Tick(first), Tick(second)]) == OnTick(OnTick(r, first), second)
  {
    var es := [Tick(first), Tick(second)];
    assert es[..1] == [Tick(first)];
    RunLast(r, es);
    assert es[..1][..0] == [];
    RunLast(r, es[..1]);
  }
}
