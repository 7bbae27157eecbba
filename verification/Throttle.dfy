/** Pacing for outbound sends: a cooldown and a daily cap per identifier and purpose. Time is
    counted in microseconds. */
module Throttle {
  import opened Occurrences

  const DAY := 86_400_000_000

  datatype Meter = Meter(lastAt: int, dayStart: int, dayCount: int)

  predicate OpensWindow(m: Meter, now: int) {
    now - m.dayStart >= DAY
  }

  predicate Allowed(row: Option<Meter>, cooldown: int, perDay: int, now: int) {
    row.Some? ==>
      now - row.value.lastAt >= cooldown
      && (if OpensWindow(row.value, now) then 0 else row.value.dayCount) < perDay
  }

  function Sent(row: Option<Meter>, now: int): Meter {
    if row.None? then Meter(now, now, 1)
    else if OpensWindow(row.value, now) then Meter(now, now, 1)
    else Meter(now, row.value.dayStart, row.value.dayCount + 1)
  }

  class SendThrottle {
    var rows: map<(string, string), Meter>

    constructor ()
      ensures rows == map[]
    {
      rows := map[];
    }

    function Row(identifier: string, purpose: string): Option<Meter>
      reads this
    {
      if (identifier, purpose) in rows then Some(rows[(identifier, purpose)]) else None
    }

    /** True, and the send recorded, exactly if it may go out now; a refusal changes nothing, and
        other identifiers and purposes are never touched. */
    method Allow(identifier: string, purpose: string, cooldown: int, perDay: int, now: int) returns (allowed: bool)
      modifies this
      ensures allowed <==> Allowed(old(Row(identifier, purpose)), cooldown, perDay, now)
      ensures allowed <==>
        ((identifier, purpose) !in old(rows)
         || var row := old(rows)[(identifier, purpose)];
            now - row.lastAt >= cooldown && perDay > (if now - row.dayStart >= DAY then 0 else row.dayCount))
      ensures rows == if allowed then old(rows)[(identifier, purpose) := Sent(old(Row(identifier, purpose)), now)]
        else old(rows)
    {
      var key := (identifier, purpose);
      if key !in rows {
        rows := rows[key := Meter(now, now, 1)];
        return true;
      }
      var row := rows[key];
      if now - row.lastAt < cooldown {
        return false;
      }
      var dayStart, dayCount := row.dayStart, row.dayCount;
      if now - dayStart >= DAY {
        dayStart, dayCount := now, 0;
      }
      if dayCount >= perDay {
        return false;
      }
      rows := rows[key := Meter(now, dayStart, dayCount + 1)];
      return true;
    }
  }

  // ---- Whole runs of one identifier and purpose ----

  /** The meter, the times of the sends that went out, and which of them opened a window. */
  datatype Traffic = Traffic(row: Option<Meter>, sends: seq<int>, opens: seq<int>)

  function Ask(t: Traffic, cooldown: int, perDay: int, now: int): Traffic {
    if !Allowed(t.row, cooldown, perDay, now) then t
    else
      var opening := t.row.None? || OpensWindow(t.row.value, now);
      Traffic(Some(Sent(t.row, now)), t.sends + [now], if opening then t.opens + [|t.sends|] else t.opens)
  }

  function Asked(cooldown: int, perDay: int, readings: seq<int>): Traffic {
    if readings == [] then Traffic(None, [], [])
    else Ask(Asked(cooldown, perDay, readings[..|readings| - 1]), cooldown, perDay, readings[|readings| - 1])
  }

  ghost predicate Spaced(t: Traffic, cooldown: int) {
    forall i :: 0 <= i < |t.sends| - 1 ==> t.sends[i] + cooldown <= t.sends[i + 1]
  }

  /** Window j and the next: a day apart, at most the cap in the first. */
  ghost predicate WindowHolds(t: Traffic, perDay: int, j: nat)
    requires j + 1 < |t.opens|
  {
    && 0 <= t.opens[j] < t.opens[j + 1] < |t.sends|
    && t.opens[j + 1] <= t.opens[j] + perDay
    && t.sends[t.opens[j]] + DAY <= t.sends[t.opens[j + 1]]
  }

  /** The meter describes the newest window. */
  ghost predicate Metered(t: Traffic, perDay: int) {
    if t.row.None? then t.sends == [] && t.opens == []
    else
      && t.opens != [] && t.opens[0] == 0
      && var last := t.opens[|t.opens| - 1];
      && 0 <= last < |t.sends|
      && t.row.value == Meter(t.sends[|t.sends| - 1], t.sends[last], |t.sends| - last)
      && |t.sends| - last <= perDay
  }

  /** Sends at least the cooldown apart; windows opened at least a day apart, each holding at most
      the daily cap; and the meter describing the newest of them. */
  ghost predicate Paced(t: Traffic, cooldown: int, perDay: int) {
    && Spaced(t, cooldown) && Metered(t, perDay)
    && forall j :: 0 <= j < |t.opens| - 1 ==> WindowHolds(t, perDay, j)
  }

  lemma {:induction false} AskKeepsPace(t: Traffic, cooldown: int, perDay: int, now: int)
    requires cooldown >= 0 && perDay >= 1 && Paced(t, cooldown, perDay)
    ensures Paced(Ask(t, cooldown, perDay, now), cooldown, perDay)
  {
    var t' := Ask(t, cooldown, perDay, now);
    forall j | 0 <= j < |t'.opens| - 1 ensures WindowHolds(t', perDay, j) {
      if j < |t.opens| - 1 {
        assert WindowHolds(t, perDay, j);
      }
    }
    AskSpaces(t, cooldown, perDay, now);
    AskMeters(t, cooldown, perDay, now);
    hide Ask, Spaced, Metered;
  }

  lemma {:induction false} AskSpaces(t: Traffic, cooldown: int, perDay: int, now: int)
    requires Spaced(t, cooldown) && Metered(t, perDay)
    ensures Spaced(Ask(t, cooldown, perDay, now), cooldown)
  {
  }

  lemma {:induction false} AskMeters(t: Traffic, cooldown: int, perDay: int, now: int)
    requires perDay >= 1 && Metered(t, perDay)
    ensures Metered(Ask(t, cooldown, perDay, now), perDay)
  {
  }

  lemma {:induction false} AskedIsPaced(cooldown: int, perDay: int, readings: seq<int>)
    requires cooldown >= 0 && perDay >= 1
    ensures Paced(Asked(cooldown, perDay, readings), cooldown, perDay)
  {
    if readings != [] {
      AskedIsPaced(cooldown, perDay, readings[..|readings| - 1]);
      AskKeepsPace(Asked(cooldown, perDay, readings[..|readings| - 1]), cooldown, perDay, readings[|readings| - 1]);
    }
  }

  lemma {:induction false} SendsInOrder(t: Traffic, cooldown: int, perDay: int, i: nat, j: nat)
    requires cooldown >= 0 && Paced(t, cooldown, perDay) && i <= j < |t.sends|
    ensures t.sends[i] <= t.sends[j]
    decreases j
  {
    if i < j {
      SendsInOrder(t, cooldown, perDay, i, j - 1);
    }
  }

  /** The window send i belongs to, counted back from window j. */
  lemma {:induction false} WindowOf(t: Traffic, cooldown: int, perDay: int, i: nat, from: nat) returns (j: nat)
    requires cooldown >= 0 && Paced(t, cooldown, perDay) && i < |t.sends| && from < |t.opens|
    requires from == |t.opens| - 1 || i < t.opens[from + 1]
    ensures j < |t.opens| && t.opens[j] <= i && (j + 1 < |t.opens| ==> i < t.opens[j + 1])
    decreases from
  {
    if t.opens[from] <= i {
      j := from;
    } else {
      j := WindowOf(t, cooldown, perDay, i, from - 1);
    }
  }

  /** The newest window holds at most the cap too, so a send a full cap past a window's opening lies
      in a later one. */
  lemma {:induction false} NextWindowIsNear(t: Traffic, cooldown: int, perDay: int, j: nat)
    requires Paced(t, cooldown, perDay) && j < |t.opens|
    ensures 0 <= t.opens[j] < |t.sends|
    ensures t.opens[j] + perDay < |t.sends| ==> j + 1 < |t.opens|
  {
    if j + 1 < |t.opens| {
      assert WindowHolds(t, perDay, j);
    }
  }

  /** Any 2 * perDay consecutive sends span at least a day. */
  lemma {:induction false} DoubleCapSpansADay(t: Traffic, cooldown: int, perDay: int, i: nat)
    requires cooldown >= 0 && perDay >= 1 && Paced(t, cooldown, perDay)
    requires i + 2 * perDay - 1 < |t.sends|
    ensures t.sends[i] + DAY <= t.sends[i + 2 * perDay - 1]
  {
    var j := WindowOf(t, cooldown, perDay, i, |t.opens| - 1);
    NextWindowIsNear(t, cooldown, perDay, j);
    assert WindowHolds(t, perDay, j);
    var next := t.opens[j + 1];
    if i == t.opens[j] {
      SendsInOrder(t, cooldown, perDay, next, i + 2 * perDay - 1);
    } else {
      NextWindowIsNear(t, cooldown, perDay, j + 1);
      assert WindowHolds(t, perDay, j + 1);
      var afterNext := t.opens[j + 2];
      SendsInOrder(t, cooldown, perDay, i, next);
      SendsInOrder(t, cooldown, perDay, afterNext, i + 2 * perDay - 1);
    }
  }

  function SendsIn(sends: seq<int>, from: int, until: int): set<int> {
    set i | 0 <= i < |sends| && from <= sends[i] < until
  }

  function Range(lo: int, n: nat): (r: set<int>)
    ensures |r| == n && forall x :: x in r <==> lo <= x < lo + n
  {
    if n == 0 then {} else Range(lo, n - 1) + {lo + n - 1}
  }

  lemma {:induction false} RangeSize(s: set<int>, lo: int, n: nat)
    requires forall x <- s :: lo <= x < lo + n
    ensures |s| <= n
  {
    assert s <= Range(lo, n);
    SubsetSize(s, Range(lo, n));
  }

  lemma {:induction false} SubsetSize(s: set<int>, t: set<int>)
    requires s <= t
    ensures |s| <= |t|
  {
    assert t == s + (t - s);
  }

  /** The first send at or after a moment. */
  function FirstFrom(sends: seq<int>, from: int): (k: nat)
    ensures k <= |sends| && (k < |sends| ==> from <= sends[k])
    ensures forall i :: 0 <= i < k ==> sends[i] < from
  {
    if sends == [] || from <= sends[0] then 0 else
    var k := FirstFrom(sends[1..], from);
    assert forall i :: 0 < i < |sends| ==> sends[1..][i - 1] == sends[i];
    k + 1
  }

  /** For any clock readings whatsoever, even backward ones, the sends that go out are in order and
      at least the cooldown apart, and no 24-hour half-open interval, wherever it begins, holds
      2 * perDay of them. */
  lemma {:induction false} SlidingWindowBound(cooldown: int, perDay: int, readings: seq<int>, from: int)
    requires cooldown >= 0 && perDay >= 1
    ensures var sends := Asked(cooldown, perDay, readings).sends;
      && (forall i :: 0 <= i < |sends| - 1 ==> sends[i] + cooldown <= sends[i + 1])
      && |SendsIn(sends, from, from + DAY)| <= 2 * perDay - 1
  {
    AskedIsPaced(cooldown, perDay, readings);
    var t := Asked(cooldown, perDay, readings);
    var inside := SendsIn(t.sends, from, from + DAY);
    var lo, span := FirstFrom(t.sends, from), 2 * perDay - 1;
    forall x | x in inside ensures lo <= x < lo + span {
      if lo + span <= x {
        DoubleCapSpansADay(t, cooldown, perDay, lo);
        SendsInOrder(t, cooldown, perDay, lo + span, x);
      }
    }
    RangeSize(inside, lo, span);
  }

  // ---- The most that fits into one day, exactly ----

  lemma {:induction false} OneMore(k: nat, each: int)
    ensures (k + 1) * each == k * each + each
  {
  }

  lemma {:induction false} NoMore(k: int, n: int, each: int)
    requires k <= n && each >= 0
    ensures k * each <= n * each
  {
    assert (n - k) * each >= 0;
  }

  lemma {:induction false} SpacedApart(t: Traffic, cooldown: int, i: nat, j: nat)
    requires Spaced(t, cooldown) && i <= j < |t.sends|
    ensures t.sends[i] + (j - i) * cooldown <= t.sends[j]
    decreases j
  {
    if i < j {
      SpacedApart(t, cooldown, i, j - 1);
      OneMore(j - 1 - i, cooldown);
    }
  }

  /** `n` sends of some run fall into one 24-hour half-open interval. */
  ghost predicate Packs(cooldown: int, perDay: int, readings: seq<int>, from: int, n: nat) {
    |SendsIn(Asked(cooldown, perDay, readings).sends, from, from + DAY)| >= n
  }

  /** Some run packs n sends into some day. */
  ghost predicate Attained(cooldown: int, perDay: int, n: nat) {
    exists readings: seq<int>, from: int :: Packs(cooldown, perDay, readings, from, n)
  }

  lemma {:induction false} PackingIsBounded(cooldown: int, perDay: int, readings: seq<int>, from: int, n: nat)
    requires cooldown >= 0 && perDay >= 1 && n >= 1 && Packs(cooldown, perDay, readings, from, n)
    ensures n <= 2 * perDay - 1 && (n - 1) * cooldown < DAY
  {
    SlidingWindowBound(cooldown, perDay, readings, from);
    AskedIsPaced(cooldown, perDay, readings);
    var t := Asked(cooldown, perDay, readings);
    var inside, lo := SendsIn(t.sends, from, from + DAY), FirstFrom(t.sends, from);
    if forall x <- inside :: lo <= x < lo + (n - 1) {
      RangeSize(inside, lo, n - 1);
    }
    var x :| x in inside && x >= lo + (n - 1);
    SpacedApart(t, cooldown, lo, x);
    NoMore(n - 1, x - lo, cooldown);
  }

  function Burst(from: int, step: int, n: nat): (r: seq<int>)
    ensures |r| == n && forall i :: 0 <= i < n ==> r[i] == from + i * step
  {
    if n == 0 then [] else Burst(from, step, n - 1) + [from + (n - 1) * step]
  }

  lemma {:induction false} AskedMore(cooldown: int, perDay: int, readings: seq<int>, now: int)
    ensures Asked(cooldown, perDay, readings + [now]) == Ask(Asked(cooldown, perDay, readings), cooldown, perDay, now)
  {
    assert (readings + [now])[..|readings|] == readings;
  }

  // A run of sends that all fit the first window.

  function Steady(cooldown: int, n: nat): Traffic
    requires n >= 1
  {
    Traffic(Some(Meter((n - 1) * cooldown, 0, n)), Burst(0, cooldown, n), [0])
  }

  lemma {:induction false} AnotherSteady(cooldown: int, perDay: int, n: nat)
    requires cooldown >= 0 && 1 <= n < perDay && n * cooldown < DAY
    ensures Ask(Steady(cooldown, n), cooldown, perDay, n * cooldown) == Steady(cooldown, n + 1)
  {
    OneMore(n - 1, cooldown);
    assert Burst(0, cooldown, n + 1) == Burst(0, cooldown, n) + [0 + n * cooldown];
    hide Burst;
  }

  lemma {:induction false} SteadySendsGoOut(cooldown: int, perDay: int, n: nat)
    requires cooldown >= 0 && 1 <= n <= perDay && (n - 1) * cooldown < DAY
    ensures Asked(cooldown, perDay, Burst(0, cooldown, n)) == Steady(cooldown, n)
  {
    if n == 1 {
      AskedMore(cooldown, perDay, [], 0);
      assert [] + [0] == [0] == Burst(0, cooldown, 1);
    } else {
      NoMore(n - 2, n - 1, cooldown);
      assert Burst(0, cooldown, n) == Burst(0, cooldown, n - 1) + [(n - 1) * cooldown];
      hide *;
      SteadySendsGoOut(cooldown, perDay, n - 1);
      AskedMore(cooldown, perDay, Burst(0, cooldown, n - 1), (n - 1) * cooldown);
      AnotherSteady(cooldown, perDay, n - 1);
    }
  }

  lemma {:induction false} SteadyPacks(cooldown: int, perDay: int, n: nat)
    requires cooldown >= 0 && 1 <= n <= perDay && (n - 1) * cooldown < DAY
    ensures Packs(cooldown, perDay, Burst(0, cooldown, n), 0, n)
  {
    SteadySendsGoOut(cooldown, perDay, n);
    hide Asked;
    var sends := Burst(0, cooldown, n);
    forall i | 0 <= i < n ensures 0 <= sends[i] < DAY {
      NoMore(0, i, cooldown);
      NoMore(i, n - 1, cooldown);
    }
    assert SendsIn(sends, 0, 0 + DAY) == Range(0, n);
  }

  // A run that straddles the end of the first window: one send opens it, the rest of its cap goes out
  // at its very end, and the sends after that open the next.

  function LateFrom(cooldown: int, perDay: int): int {
    DAY - 1 - (perDay - 2) * cooldown
  }

  function EarlyFrom(cooldown: int): int {
    DAY - 1 + (if cooldown >= 1 then cooldown else 1)
  }

  function Straddle(cooldown: int, perDay: int, late: nat, early: nat): seq<int> {
    [0] + Burst(LateFrom(cooldown, perDay), cooldown, late) + Burst(EarlyFrom(cooldown), cooldown, early)
  }

  lemma {:induction false} StraddleMore(cooldown: int, perDay: int, late: nat, early: nat)
    ensures |Straddle(cooldown, perDay, late, early)| == 1 + late + early
    ensures Straddle(cooldown, perDay, late, early) + [EarlyFrom(cooldown) + early * cooldown]
      == Straddle(cooldown, perDay, late, early + 1)
    ensures Straddle(cooldown, perDay, late, 0) + [LateFrom(cooldown, perDay) + late * cooldown]
      == Straddle(cooldown, perDay, late + 1, 0)
    ensures Straddle(cooldown, perDay, 0, 0) == [0]
  {
    hide LateFrom, EarlyFrom;
  }

  function Late(cooldown: int, perDay: int, late: nat): Traffic {
    var last := if late == 0 then 0 else LateFrom(cooldown, perDay) + (late - 1) * cooldown;
    Traffic(Some(Meter(last, 0, late + 1)), Straddle(cooldown, perDay, late, 0), [0])
  }

  function Early(cooldown: int, perDay: int, early: nat): Traffic
    requires perDay >= 1 && early >= 1
  {
    var opens := EarlyFrom(cooldown);
    Traffic(Some(Meter(opens + (early - 1) * cooldown, opens, early)),
            Straddle(cooldown, perDay, perDay - 1, early), [0, perDay])
  }

  lemma {:induction false} AnotherLate(cooldown: int, perDay: int, late: nat)
    requires cooldown >= 0 && late + 1 < perDay && perDay * cooldown < DAY
    ensures Ask(Late(cooldown, perDay, late), cooldown, perDay, LateFrom(cooldown, perDay) + late * cooldown)
      == Late(cooldown, perDay, late + 1)
  {
    StraddleMore(cooldown, perDay, late, 0);
    hide Straddle;
    NoMore(late, perDay - 2, cooldown);
    OneMore(perDay - 2, cooldown);
    OneMore(perDay - 1, cooldown);
    if late > 0 {
      OneMore(late - 1, cooldown);
    }
  }

  lemma {:induction false} FirstEarly(cooldown: int, perDay: int)
    requires cooldown >= 0 && perDay >= 2
    ensures Ask(Late(cooldown, perDay, perDay - 1), cooldown, perDay, EarlyFrom(cooldown)) == Early(cooldown, perDay, 1)
  {
    StraddleMore(cooldown, perDay, perDay - 1, 0);
    hide Straddle;
  }

  lemma {:induction false} AnotherEarly(cooldown: int, perDay: int, early: nat)
    requires cooldown >= 0 && 1 <= early < perDay && perDay * cooldown < DAY
    ensures Ask(Early(cooldown, perDay, early), cooldown, perDay, EarlyFrom(cooldown) + early * cooldown)
      == Early(cooldown, perDay, early + 1)
  {
    StraddleMore(cooldown, perDay, perDay - 1, early);
    hide Straddle;
    NoMore(early, perDay, cooldown);
    OneMore(early - 1, cooldown);
  }

  lemma {:induction false} LateSendsGoOut(cooldown: int, perDay: int, late: nat)
    requires cooldown >= 0 && late < perDay && perDay * cooldown < DAY
    ensures Asked(cooldown, perDay, Straddle(cooldown, perDay, late, 0)) == Late(cooldown, perDay, late)
  {
    if late == 0 {
      AskedMore(cooldown, perDay, [], 0);
      StraddleMore(cooldown, perDay, 0, 0);
      hide Straddle, LateFrom;
      assert [] + [0] == [0];
    } else {
      hide *;
      LateSendsGoOut(cooldown, perDay, late - 1);
      AskedMore(cooldown, perDay, Straddle(cooldown, perDay, late - 1, 0),
                LateFrom(cooldown, perDay) + (late - 1) * cooldown);
      StraddleMore(cooldown, perDay, late - 1, 0);
      AnotherLate(cooldown, perDay, late - 1);
    }
  }

  lemma {:induction false} EarlySendsGoOut(cooldown: int, perDay: int, early: nat)
    requires cooldown >= 0 && perDay >= 2 && 1 <= early <= perDay && perDay * cooldown < DAY
    ensures Asked(cooldown, perDay, Straddle(cooldown, perDay, perDay - 1, early)) == Early(cooldown, perDay, early)
  {
    hide *;
    AskedMore(cooldown, perDay, Straddle(cooldown, perDay, perDay - 1, early - 1),
              EarlyFrom(cooldown) + (early - 1) * cooldown);
    StraddleMore(cooldown, perDay, perDay - 1, early - 1);
    if early == 1 {
      LateSendsGoOut(cooldown, perDay, perDay - 1);
      FirstEarly(cooldown, perDay);
    } else {
      EarlySendsGoOut(cooldown, perDay, early - 1);
      AnotherEarly(cooldown, perDay, early - 1);
    }
  }

  /** Every send of the straddling run but the first lies within a day of the second. */
  lemma {:induction false} StraddleIsTight(cooldown: int, perDay: int, early: nat, i: nat)
    requires cooldown >= 0 && perDay >= 2 && 1 <= early && (perDay + early - 2) * cooldown < DAY
    requires 1 <= i < perDay + early
    ensures |Straddle(cooldown, perDay, perDay - 1, early)| == perDay + early
    ensures var from := LateFrom(cooldown, perDay);
      from <= Straddle(cooldown, perDay, perDay - 1, early)[i] < from + DAY
  {
    var sends, from := Straddle(cooldown, perDay, perDay - 1, early), LateFrom(cooldown, perDay);
    if i < perDay {
      assert sends[i] == from + (i - 1) * cooldown;
      NoMore(0, i - 1, cooldown);
      NoMore(i - 1, perDay + early - 2, cooldown);
    } else {
      var k := i - perDay;
      assert sends[i] == EarlyFrom(cooldown) + k * cooldown;
      NoMore(k, early - 1, cooldown);
      NoMore(0, k, cooldown);
      NoMore(0, perDay - 2, cooldown);
      assert (perDay - 2) * cooldown + (early - 1) * cooldown + cooldown == (perDay + early - 2) * cooldown;
    }
  }

  lemma {:induction false} StraddlePacks(cooldown: int, perDay: int, early: nat)
    requires cooldown >= 0 && perDay >= 2 && 1 <= early <= perDay && perDay * cooldown < DAY
    requires (perDay + early - 2) * cooldown < DAY
    ensures Packs(cooldown, perDay, Straddle(cooldown, perDay, perDay - 1, early), LateFrom(cooldown, perDay),
                  perDay + early - 1)
  {
    EarlySendsGoOut(cooldown, perDay, early);
    StraddleMore(cooldown, perDay, perDay - 1, early);
    var sends, from := Straddle(cooldown, perDay, perDay - 1, early), LateFrom(cooldown, perDay);
    forall i | 1 <= i < |sends| ensures from <= sends[i] < from + DAY {
      hide *;
      StraddleIsTight(cooldown, perDay, early, i);
    }
    hide Asked, Straddle, LateFrom, Early, Ask;
    AllInside(sends, from, 1);
  }

  lemma {:induction false} AllInside(sends: seq<int>, from: int, lo: nat)
    requires lo <= |sends| && forall i :: lo <= i < |sends| ==> from <= sends[i] < from + DAY
    ensures |SendsIn(sends, from, from + DAY)| >= |sends| - lo
  {
    assert Range(lo, |sends| - lo) <= SendsIn(sends, from, from + DAY);
    SubsetSize(Range(lo, |sends| - lo), SendsIn(sends, from, from + DAY));
  }

  /** Exactly how much goes out in a day. Some run packs n sends into some 24-hour half-open interval
      if and only if n is at most 2 * perDay - 1 and n - 1 cooldowns fit within a day. */
  lemma {:induction false} DailyMaximum(cooldown: int, perDay: int, n: nat)
    requires cooldown >= 0 && perDay >= 1 && n >= 1
    ensures Attained(cooldown, perDay, n) <==> n <= 2 * perDay - 1 && (n - 1) * cooldown < DAY
  {
    hide Packs;
    if Attained(cooldown, perDay, n) {
      var readings: seq<int>, from: int :| Packs(cooldown, perDay, readings, from, n);
      PackingIsBounded(cooldown, perDay, readings, from, n);
    }
    if n <= 2 * perDay - 1 && (n - 1) * cooldown < DAY {
      if n <= perDay {
        SteadyPacks(cooldown, perDay, n);
      } else {
        NoMore(perDay, n - 1, cooldown);
        StraddlePacks(cooldown, perDay, n - perDay + 1);
      }
    }
  }

  /** The bound of 2 * perDay - 1 is attained for every cooldown that leaves room for it in a day. */
  lemma {:induction false} BoundIsSharp(cooldown: int, perDay: int)
    requires cooldown >= 0 && perDay >= 1
    ensures Attained(cooldown, perDay, 2 * perDay - 1) <==> (2 * perDay - 2) * cooldown < DAY
  {
    hide Attained;
    DailyMaximum(cooldown, perDay, 2 * perDay - 1);
  }

  predicate CapHolds(cooldown: int, perDay: int, readings: seq<int>, from: int) {
    |SendsIn(Asked(cooldown, perDay, readings).sends, from, from + DAY)| <= perDay
  }

  /** So the daily cap holds of every 24-hour half-open interval of every run if and only if the cap is
      one or the cooldown alone enforces it. */
  lemma {:induction false} CapHoldsExactly(cooldown: int, perDay: int)
    requires cooldown >= 0 && perDay >= 1
    ensures (forall readings: seq<int>, from: int :: CapHolds(cooldown, perDay, readings, from))
      <==> perDay == 1 || perDay * cooldown >= DAY
  {
    var more := perDay + 1;
    DailyMaximum(cooldown, perDay, more);
    forall readings: seq<int>, from: int
      ensures CapHolds(cooldown, perDay, readings, from) <==> !Packs(cooldown, perDay, readings, from, more)
    {
      hide Asked, SendsIn;
    }
    if perDay != 1 {
      assert more <= 2 * perDay - 1;
    }
    hide CapHolds, Packs;
  }

  /** What the meter decides, read off the sends: the next request goes out if and only if it is the first,
      or the cooldown has passed since the last send, and the window in force, begun by the newest send that
      opened one, is a day old or holds fewer than the cap. */
  lemma {:induction false} SentExactly(cooldown: int, perDay: int, readings: seq<int>, now: int)
    requires cooldown >= 0 && perDay >= 1
    ensures var t := Asked(cooldown, perDay, readings);
      Ask(t, cooldown, perDay, now).sends
      == if t.sends == [] || Due(t, cooldown, perDay, now) then t.sends + [now] else t.sends
  {
    AskedIsPaced(cooldown, perDay, readings);
    hide Asked, Spaced, WindowHolds;
  }

  predicate Due(t: Traffic, cooldown: int, perDay: int, now: int) {
    && t.sends != [] && t.opens != [] && 0 <= t.opens[|t.opens| - 1] < |t.sends|
    && var newest := t.opens[|t.opens| - 1];
    && now - t.sends[|t.sends| - 1] >= cooldown
    && (now - t.sends[newest] >= 24 * 60 * 60 * 1_000_000 || |t.sends| - newest < perDay)
  }
}
