/** Skills are kept under their steps joined with an arrow. What the key loses: with an arrow in a step
    two motifs can share one; without, every offered skill is the motif it was offered for. */
module SkillKeys {
  import opened Occurrences
  import opened Spine
  import opened SpineLaws
  import opened Episodes
  import opened Motifs
  import opened Negative
  import opened Skills
  import Mining
  import Text

  const ARROW := '→'

  predicate Plain(m: seq<string>) {
    forall step <- m :: ARROW !in step
  }

  // ---- The key of arrow-free steps ----

  lemma {:induction false} BeforeArrow(s: string, rest: string)
    requires ARROW !in s
    ensures Before(s + ([ARROW] + rest), ARROW) == s && Before(s, ARROW) == s
  {
    if s != [] {
      assert (s + ([ARROW] + rest))[1..] == s[1..] + ([ARROW] + rest);
      BeforeArrow(s[1..], rest);
    } else {
      assert s + ([ARROW] + rest) == [ARROW] + rest;
    }
  }

  /** The first step is what comes before the first arrow. */
  lemma {:induction false} KeyStart(m: Motif)
    requires Plain(m) && m != []
    ensures Before(MotifKey(m), ARROW) == m[0] && Plain(m[1..])
    ensures MotifKey(m) == if |m| == 1 then m[0] else m[0] + ([ARROW] + MotifKey(m[1..]))
  {
    assert m[0] in m;
    BeforeArrow(m[0], if |m| == 1 then "" else MotifKey(m[1..]));
    if |m| > 1 {
      assert m[0] + "→" + MotifKey(m[1..]) == m[0] + ([ARROW] + MotifKey(m[1..]));
    }
  }

  lemma {:induction false} PlainKeysDiffer(a: Motif, b: Motif)
    requires Plain(a) && Plain(b) && a != [] && b != []
    ensures MotifKey(a) == MotifKey(b) <==> a == b
    decreases |a|
  {
    if MotifKey(a) == MotifKey(b) {
      KeyStart(a);
      KeyStart(b);
      hide Text.Join, MotifKey, Plain;
      assert a == [a[0]] + a[1..] && b == [b[0]] + b[1..];
      if |a| > 1 && |b| > 1 {
        var x, y := [ARROW] + MotifKey(a[1..]), [ARROW] + MotifKey(b[1..]);
        assert x == (a[0] + x)[|a[0]|..] && y == (b[0] + y)[|b[0]|..];
        assert MotifKey(a[1..]) == x[1..] && MotifKey(b[1..]) == y[1..];
        PlainKeysDiffer(a[1..], b[1..]);
      }
    }
  }

  // ---- Every row stands under its own steps' key ----

  ghost predicate KeyedRow(row: Row) {
    row.value.Skill? && exists tenant :: row.scope == ScopeOf(tenant, SubjectOf(MotifKey(row.value.steps)))
  }

  /** Candidates and skills stand in the scope of their own steps. */
  ghost predicate Keyed(log: Log) {
    forall i :: 0 <= i < |log| && log[i].memoryType in [CANDIDATE, SKILL] ==> KeyedRow(log[i])
  }

  lemma {:induction false} AdmitKeepsKeyed(log: Log, r: Record, supersedes: set<int>)
    requires Keyed(log) && (r.memoryType in [CANDIDATE, SKILL] ==> KeyedRow(NewRow(r)))
    ensures Keyed(AdmitTo(log, r, supersedes))
  {
    var log' := AdmitTo(log, r, supersedes);
    hide NewRow;
    forall i | 0 <= i < |log'| && log'[i].memoryType in [CANDIDATE, SKILL] ensures KeyedRow(log'[i]) {
      var row := (log + [NewRow(r)])[i];
      assert log'[i] == if i + 1 in supersedes then StampRow(row, |log| + 1) else row;
      assert NewRow(r).memoryType == r.memoryType by {
        RecordedType(r);
      }
      assert i < |log| ==> row == log[i];
      SameKeyed(row, log'[i]);
      hide KeyedRow;
    }
  }

  lemma {:induction false} RecordedType(r: Record)
    ensures NewRow(r).memoryType == r.memoryType
  {
  }

  lemma {:induction false} SameKeyed(row: Row, row': Row)
    requires row'.scope == row.scope && row'.value == row.value
    ensures KeyedRow(row') == KeyedRow(row)
  {
  }

  lemma {:induction false} InducedKeepsKeyed(log: Log, tenant: string, c: Mining.Candidate, now: int)
    requires Keyed(log)
    ensures Keyed(Induced(log, tenant, c, now))
  {
    var r := CandidateRecord(tenant, c);
    assert NewRow(r).scope == ScopeOf(tenant, SubjectOf(MotifKey(c.steps))) && NewRow(r).value.steps == c.steps;
    assert KeyedRow(NewRow(r));
    hide AdmitTo, Newest, CandidateRecord, KeyedRow, NewRow, MotifKey, Keyed;
    AdmitKeepsKeyed(log, r, Elements(Newest(log, tenant, MotifKey(c.steps), CANDIDATE, now)));
  }

  /** A promotion as one admission. */
  lemma {:induction false} PromotionIs(log: Log, tenant: string, key: string, now: int) returns (id: int, r: Record)
    requires Promotable(log, tenant, key, now).Some?
    ensures 1 <= id <= |log| && log[id - 1].memoryType == CANDIDATE != SKILL
    ensures Promoted(log, tenant, key, now) == AdmitTo(log, r, {id})
    ensures log[id - 1].scope == NewRow(r).scope == ScopeOf(tenant, SubjectOf(key))
    ensures NewRow(r).memoryType == r.memoryType == SKILL && NewRow(r).value == log[id - 1].value
    ensures Standing(NewRow(r), ScopeOf(tenant, SubjectOf(key)), now)
    ensures NewRow(r).validUntil.None?
  {
    id := Promotable(log, tenant, key, now).value;
    FoundToPromote(log, tenant, key, now);
    r := SkillRecord(tenant, key, log[id - 1].value, log[id - 1].provenance, id);
    hide AdmitTo, Promotable, Text.Strip, Text.Decimal, Newest;
  }

  lemma {:induction false} FoundToPromote(log: Log, tenant: string, key: string, now: int)
    requires Promotable(log, tenant, key, now).Some?
    ensures var id := Promotable(log, tenant, key, now).value;
      && 1 <= id <= |log| && log[id - 1].memoryType == CANDIDATE && log[id - 1].value.Skill?
      && log[id - 1].scope == ScopeOf(tenant, SubjectOf(key))
  {
    var id := Promotable(log, tenant, key, now).value;
    assert StandingId(log, id, ScopeOf(tenant, SubjectOf(key)), now) && OfKind(log, id, [CANDIDATE]);
    hide Newest, ScopeOf, SubjectOf;
  }

  lemma {:induction false} PromotedKeepsKeyed(log: Log, tenant: string, key: string, now: int)
    requires Keyed(log)
    ensures Keyed(Promoted(log, tenant, key, now))
  {
    assert Promotable(log, tenant, key, now).None? ==> Promoted(log, tenant, key, now) == log;
    assert forall i :: 0 <= i < |log| && log[i].memoryType == CANDIDATE ==> KeyedRow(log[i]);
    hide *;
    if Promotable(log, tenant, key, now).Some? {
      var id, r := PromotionIs(log, tenant, key, now);
      SameKeyed(log[id - 1], NewRow(r));
      AdmitKeepsKeyed(log, r, {id});
    }
  }

  lemma {:induction false} TurnKeepsKeyed(log: Log, t: Turn)
    requires Keyed(log) && FairTurn(log, t)
    ensures Keyed(TurnTaken(log, t))
  {
    hide Induced, Promoted, KeyedRow, Mined;
    match t
    case Inducing(_, tenant, c, now) => InducedKeepsKeyed(log, tenant, c, now);
    case Promoting(tenant, key, now) => PromotedKeepsKeyed(log, tenant, key, now);
    case Else(w) =>
      if w.Admission? {
        AdmitKeepsKeyed(log, w.record, w.supersedes);
      } else {
        ClosingKeepsKeyed(log, w);
      }
  }

  lemma {:induction false} ClosingKeepsKeyed(log: Log, w: Write)
    requires Keyed(log) && w.Closing?
    ensures Keyed(Apply(log, w))
  {
    var log' := Apply(log, w);
    forall i | 0 <= i < |log'| && log'[i].memoryType in [CANDIDATE, SKILL] ensures KeyedRow(log'[i]) {
      SameKeyed(log[i], log'[i]);
    }
  }

  lemma {:induction false} TurnsKeepKeyed(from: Log, ts: seq<Turn>, to: Log)
    requires Keyed(from) && Turns(from, ts, to)
    ensures Keyed(to)
    decreases |ts|
  {
    if ts != [] {
      hide Keyed, FairTurn, TurnTaken;
      TurnKeepsKeyed(from, ts[0]);
      TurnsKeepKeyed(TurnTaken(from, ts[0]), ts[1..], to);
    }
  }

  // ---- Arrow-free corpora leave arrow-free skills ----

  ghost predicate PlainRuns(runs: seq<Run>) {
    forall run <- runs, step <- run.steps :: ARROW !in step.nodeKey
  }

  lemma {:induction false} VerifiedKeysArePlain(steps: seq<Step>)
    requires forall step <- steps :: ARROW !in step.nodeKey
    ensures Plain(VerifiedKeys(steps))
  {
    if steps != [] {
      var init, last := steps[..|steps| - 1], steps[|steps| - 1];
      assert last in steps && forall step <- init :: step in steps;
      VerifiedKeysArePlain(init);
    }
  }

  lemma {:induction false} SequencesArePlain(runs: seq<Run>)
    requires PlainRuns(runs)
    ensures forall t <- VerifiedSequences(runs) :: Plain(t.keys)
  {
    if runs != [] {
      var init, last := runs[..|runs| - 1], runs[|runs| - 1];
      assert last in runs && forall run <- init :: run in runs;
      SequencesArePlain(init);
      VerifiedKeysArePlain(last.steps);
      hide Plain;
    }
  }

  lemma {:induction false} PartsArePlain(keys: seq<string>, m: Motif)
    requires Plain(keys) && Occurs(keys, m)
    ensures Plain(m)
  {
    var i :| StartsAt(keys, m, i);
    forall step | step in m ensures ARROW !in step {
      var k :| 0 <= k < |m| && m[k] == step;
      assert keys[i + k] == step && keys[i + k] in keys;
    }
  }

  /** A skill that met the bars was seen in some run, so its steps are that run's. */
  lemma {:induction false} EarnedIsPlain(corpora: set<seq<Run>>, v: Value)
    requires MinedFrom(corpora, v) && MeetsThresholds(v) && forall runs <- corpora :: PlainRuns(runs)
    ensures Plain(v.steps)
  {
    var runs :| runs in corpora && Mined(runs, v);
    SequencesArePlain(runs);
    hide PlainRuns, Occurs, Plain, VerifiedSequences;
    assert v.contexts != {};
    var goal :| goal in v.contexts;
    var t :| t in VerifiedSequences(runs) && Occurs(t.keys, v.steps);
    PartsArePlain(t.keys, v.steps);
  }

  // ---- What is offered ----

  ghost predicate PlainRow(row: Row) {
    row.memoryType == SKILL && row.value.Skill? ==> Plain(row.value.steps)
  }

  /** No tenant is named like a motif's subject. */
  predicate OwnName(tenant: string) {
    !("motif:" <= tenant)
  }

  /** For such a tenant a scope says which key it belongs to. */
  lemma {:induction false} ScopeTellsKey(tenant: string, other: string, key: string, otherKey: string)
    requires OwnName(tenant) && ScopeOf(tenant, SubjectOf(key)) == ScopeOf(other, SubjectOf(otherKey))
    ensures key == otherKey && tenant == other
  {
    var a, b := SubjectOf(key), SubjectOf(otherKey);
    assert "motif:" <= b && "motif:" <= a;
    assert ScopeOf(other, b) - multiset{b} == multiset{other} && ScopeOf(tenant, a) - multiset{tenant} == multiset{a};
    assert tenant in ScopeOf(other, b);
    assert tenant == other;
    assert a in multiset{b};
    assert a[6..] == key && b[6..] == otherKey;
  }

  /** The skill of that id is the newest standing one of its motif, and its motif runs in the steps. */
  ghost predicate Offered(log: Log, tenant: string, steps: seq<string>, now: int, id: int) {
    1 <= id <= |log| && log[id - 1].value.Skill? &&
    (var own := log[id - 1].value.steps;
     Mining.Minable(own) && Occurs(steps, own)
     && NewestOfKind(log, id, ScopeOf(tenant, SubjectOf(MotifKey(own))), now, SKILL))
  }

  lemma {:induction false} NewestIsFound(log: Log, tenant: string, key: string, now: int, id: int)
    ensures id in Newest(log, tenant, key, SKILL, now)
      <==> NewestOfKind(log, id, ScopeOf(tenant, SubjectOf(key)), now, SKILL)
  {
    var scope := ScopeOf(tenant, SubjectOf(key));
    RecallNewest(log, scope, now, SKILL, 1);
    var found := Newest(log, tenant, key, SKILL, now);
    assert |found| <= 1 && found == Recalled(log, scope, now, [SKILL], 1);
    hide Recalled, ScopeOf, SubjectOf;
    if NewestOfKind(log, id, scope, now, SKILL) {
      assert found != [] && StandingId(log, id, scope, now) && StandingId(log, found[0], scope, now);
      assert found[0] == id;
    }
  }

  /** What is found under a key has that key's steps, whether a skill that is offered or a candidacy
      that a fresh one supersedes. */
  lemma {:induction false} FoundIsItsMotif(log: Log, tenant: string, m: Motif, kind: string, now: int, id: int)
    requires Keyed(log) && OwnName(tenant) && Plain(m) && Mining.Minable(m)
    requires kind in [CANDIDATE, SKILL] && id in Newest(log, tenant, MotifKey(m), kind, now)
    ensures 1 <= id <= |log| && log[id - 1].memoryType == kind && log[id - 1].value.Skill?
    ensures Plain(log[id - 1].value.steps) ==> log[id - 1].value.steps == m
  {
    var scope := ScopeOf(tenant, SubjectOf(MotifKey(m)));
    assert StandingId(log, id, scope, now) && OfKind(log, id, [kind]);
    var row := log[id - 1];
    assert row.memoryType == kind && row.scope == scope && KeyedRow(row);
    hide Newest, MotifKey, ScopeOf, Keyed;
    var other :| row.scope == ScopeOf(other, SubjectOf(MotifKey(row.value.steps)));
    ScopeTellsKey(tenant, other, MotifKey(m), MotifKey(row.value.steps));
    KeyStart(m);
    if Plain(row.value.steps) && row.value.steps != [] {
      PlainKeysDiffer(m, row.value.steps);
    }
    assert MotifKey([]) == "";
  }

  /** Of what is offered for arrow-free steps, a skill's own steps run in them if and only if they are
      free of arrows too. */
  lemma {:induction false} HitOccursExactly(log: Log, tenant: string, steps: seq<string>, now: int, id: int)
    requires Keyed(log) && OwnName(tenant) && Plain(steps) && Applicable(log, tenant, steps, now, id)
    ensures 1 <= id <= |log| && log[id - 1].value.Skill?
    ensures Occurs(steps, log[id - 1].value.steps) <==> Plain(log[id - 1].value.steps)
  {
    var m: Motif :| Mining.Minable(m) && Occurs(steps, m) && id in Newest(log, tenant, MotifKey(m), SKILL, now);
    hide Newest, MotifKey, Keyed, Occurs, Plain;
    PartsArePlain(steps, m);
    FoundIsItsMotif(log, tenant, m, SKILL, now, id);
    if Occurs(steps, log[id - 1].value.steps) {
      PartsArePlain(steps, log[id - 1].value.steps);
    }
  }

  /** On arrow-free steps exactly the newest standing skill of each motif of two to five steps that runs
      in them is offered. */
  lemma {:induction false} ApplicableIsOffered(log: Log, tenant: string, steps: seq<string>, now: int, id: int)
    requires Keyed(log) && OwnName(tenant) && Plain(steps) && (forall row <- log :: PlainRow(row))
    ensures Applicable(log, tenant, steps, now, id) <==> Offered(log, tenant, steps, now, id)
  {
    if Applicable(log, tenant, steps, now, id) {
      var m: Motif :| Mining.Minable(m) && Occurs(steps, m) && id in Newest(log, tenant, MotifKey(m), SKILL, now);
      hide Newest, MotifKey, Keyed, NewestOfKind, Occurs;
      PartsArePlain(steps, m);
      FoundIsItsMotif(log, tenant, m, SKILL, now, id);
      assert log[id - 1] in log;
      NewestIsFound(log, tenant, MotifKey(m), now, id);
    }
    if Offered(log, tenant, steps, now, id) {
      NewestIsFound(log, tenant, MotifKey(log[id - 1].value.steps), now, id);
    }
  }

  /** Over any run of inductions, promotions and other writes from an empty log, with no arrow in the
      corpora or the proposed steps, route assembly is offered exactly the newest standing skill of each
      motif that runs in the proposed steps; so every offered skill's own steps do. */
  lemma {:induction false} OfferedSkillsOccur(ts: seq<Turn>, log: Log, tenant: string, steps: seq<string>, now: int,
                                              id: int)
    requires Turns([], ts, log) && OwnName(tenant) && Plain(steps)
    requires forall runs <- Corpora(ts) :: PlainRuns(runs)
    ensures Applicable(log, tenant, steps, now, id) <==> Offered(log, tenant, steps, now, id)
  {
    hide Applicable, Offered, Turns, PlainRuns, Plain, OwnName, FairTurn, MinedFrom, MeetsThresholds;
    SkillsAreEarned([], ts, log, Corpora(ts));
    TurnsKeepKeyed([], ts, log);
    forall row | row in log ensures PlainRow(row) {
      if row.memoryType == SKILL && row.value.Skill? {
        EarnedIsPlain(Corpora(ts), row.value);
      }
    }
    ApplicableIsOffered(log, tenant, steps, now, id);
  }

  // ---- With an arrow in a step ----

  const SPLIT: Motif := ["a", "b→c"]
  const JOINED: Motif := ["a→b", "c"]

  lemma {:induction false} OneKey()
    ensures MotifKey(SPLIT) == MotifKey(JOINED) && Mining.Minable(SPLIT)
    ensures Occurs(SPLIT, SPLIT) && !Occurs(SPLIT, JOINED)
  {
    assert SPLIT[1..] == ["b→c"] && JOINED[1..] == ["c"];
    assert StartsAt(SPLIT, SPLIT, 0);
    forall i ensures !StartsAt(SPLIT, JOINED, i) {
      assert SPLIT[0] != JOINED[0];
    }
  }

  /** A skill of one motif is offered for steps in which another motif of the same key runs, although its
      own steps do not run there. */
  lemma {:induction false} KeysCollide(log: Log, tenant: string, now: int, id: int)
    requires id in Newest(log, tenant, MotifKey(JOINED), SKILL, now)
    ensures Applicable(log, tenant, SPLIT, now, id) && !Occurs(SPLIT, JOINED)
  {
    OneKey();
    hide Newest, MotifKey, Occurs, Mining.Minable;
  }

  /** And a candidacy of the one supersedes the standing candidacy of the other. */
  lemma {:induction false} CandidaciesCollide(log: Log, tenant: string, joined: Mining.Candidate,
                                              split: Mining.Candidate, now: int, later: int)
    requires joined.steps == JOINED && split.steps == SPLIT
    ensures var once := Induced(log, tenant, joined, now);
      var twice := Induced(once, tenant, split, later);
      |twice| == |log| + 2 && twice[|log|].supersededBy == Some(|log| + 2)
  {
    OneKey();
    var once := Induced(log, tenant, joined, now);
    NewestCandidate(log, tenant, joined, now, later);
    assert Newest(once, tenant, MotifKey(SPLIT), CANDIDATE, later) == [|log| + 1];
    hide Newest, MotifKey, CandidateRecord;
  }

  /** A fresh candidacy is the newest of its motif. */
  lemma {:induction false} NewestCandidate(log: Log, tenant: string, c: Mining.Candidate, now: int, later: int)
    ensures var once := Induced(log, tenant, c, now);
      |once| == |log| + 1 && once[|log|].supersededBy.None?
      && Newest(once, tenant, MotifKey(c.steps), CANDIDATE, later) == [|log| + 1]
  {
    var key := MotifKey(c.steps);
    var once, scope := Induced(log, tenant, c, now), ScopeOf(tenant, SubjectOf(key));
    var prior := Newest(log, tenant, key, CANDIDATE, now);
    assert |log| + 1 !in Elements(prior);
    assert NewRow(CandidateRecord(tenant, c)).scope == scope;
    assert once[|log|] == NewRow(CandidateRecord(tenant, c));
    hide Newest, MotifKey;
    LastIsNewest(once, tenant, key, CANDIDATE, later);
  }

  /** The last row of the log, standing, is the newest of its kind. */
  lemma {:induction false} LastIsNewest(log: Log, tenant: string, key: string, kind: string, now: int)
    requires log != [] && Standing(log[|log| - 1], ScopeOf(tenant, SubjectOf(key)), now)
    requires log[|log| - 1].memoryType == kind
    ensures Newest(log, tenant, key, kind, now) == [|log|]
  {
    var scope := ScopeOf(tenant, SubjectOf(key));
    assert StandingIds(log, scope, now)[0] == |log|;
    assert |log| in Window(log, scope, now);
    RecallNewest(log, scope, now, kind, 1);
    var found := Newest(log, tenant, key, kind, now);
    assert found == Recalled(log, scope, now, [kind], 1) && |found| <= 1;
    hide Recalled, Window, StandingIds, Standing;
  }

  /** Promotion leaves every skill standing, so two skills of one motif can stand; the newer is offered. */
  lemma {:induction false} PromotionOffersTheNewer(log: Log, tenant: string, key: string, now: int, later: int)
    requires Promotable(log, tenant, key, now).Some?
    ensures var log' := Promoted(log, tenant, key, now);
      && Newest(log', tenant, key, SKILL, later) == [|log| + 1]
      && forall i :: 0 <= i < |log| && log[i].memoryType == SKILL ==> log'[i] == log[i]
  {
    hide *;
    var id, r := PromotionIs(log, tenant, key, now);
    SkillAdmitted(log, r, id);
    StillStanding(NewRow(r), ScopeOf(tenant, SubjectOf(key)), now, later);
    LastIsNewest(Promoted(log, tenant, key, now), tenant, key, SKILL, later);
  }

  lemma {:induction false} StillStanding(row: Row, scope: Scope, now: int, later: int)
    requires Standing(row, scope, now) && row.validUntil.None?
    ensures Standing(row, scope, later)
  {
  }

  lemma {:induction false} SkillAdmitted(log: Log, r: Record, id: int)
    requires 1 <= id <= |log| && log[id - 1].memoryType != SKILL
    ensures var log' := AdmitTo(log, r, {id});
      && |log'| == |log| + 1 && log'[|log|] == NewRow(r)
      && forall i :: 0 <= i < |log| && log[i].memoryType == SKILL ==> log'[i] == log[i]
  {
    hide NewRow;
  }

  /** A publication records the skill it publishes, by its value. */
  lemma {:induction false} PublicationTells(log: Log, tenant: string, key: string, listing: string, now: int)
    requires Newest(log, tenant, key, SKILL, now) != []
    ensures var log', id := Publication(log, tenant, key, [], listing, now), Newest(log, tenant, key, SKILL, now)[0];
      && 1 <= id <= |log| && |log'| == |log| + 1 && log'[|log|].memoryType == "skill-published"
      && log'[|log|].value == log[id - 1].value && log'[|log|].scope == ScopeOf(tenant, SubjectOf(key))
      && forall i :: 0 <= i < |log| ==> log'[i] == log[i]
  {
    var id := Newest(log, tenant, key, SKILL, now)[0];
    assert StandingId(log, id, ScopeOf(tenant, SubjectOf(key)), now);
    hide Newest, Text.Strip, Text.Decimal;
  }
}
