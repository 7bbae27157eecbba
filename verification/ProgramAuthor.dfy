/** The staged program author: one consultation for the plan, then each module authored, gated and
    boundedly repaired before the next. The model, the screens and the sandbox are oracles. */
module ProgramAuthors {
  import opened Occurrences
  import opened Topology
  import Sorting
  import Text

  type Tree = map<string, string>

  /** A reply as read: unreachable or fenceless, or code with an optional second fence. */
  datatype Reply = NoCode | Code(text: string, check: Option<string>)

  datatype Report = Passed | HonestError(error: string) | Failed

  /** Everything outside the builder. Replies and check runs are numbered, so an oracle may answer
      the same question differently each time. */
  datatype Oracles = Oracles(reply: nat -> Reply, verify: (nat, string, Tree) -> Report,
                             flagged: string -> bool, mocked: string -> bool)

  datatype Problem =
    | PlanRefused
    | AuthorRefused(path: string)
    | RepairRefused(path: string)
    | Exhausted(path: string)

  /** What can go wrong with one module. */
  predicate OfModule(problem: Problem, path: string) {
    problem == AuthorRefused(path) || problem == RepairRefused(path) || problem == Exhausted(path)
  }

  datatype Build = Build(problem: Option<Problem>, files: Tree, notes: seq<string>, consultations: int)

  /** What the spec parser guarantees of a plan it accepts. */
  predicate Accepted(ms: seq<ModuleSpec>) {
    && DistinctPaths(ms) && Closed(ms) && Resolves(ms, {})
    && (forall m <- ms :: m.check.Some? ==> m.check.value !in Paths(ms))
  }

  // ---- Scaffolding ----

  /** The package directory of every prefix of a path that ends at a slash. */
  function InitNames(paths: set<string>): set<string> {
    set p, i | p in paths && 0 <= i < |p| && p[i] == '/' :: p[..i] + "/__init__.py"
  }

  function PackageInits(ms: seq<ModuleSpec>): Tree {
    map name | name in InitNames(Paths(ms)) :: ""
  }

  /** Exactly the packages a module lies in are marked, each by an empty file. */
  lemma {:induction false} PackageInitsExactly(ms: seq<ModuleSpec>, name: string)
    ensures name in PackageInits(ms)
      <==> exists m <- ms, dir, rest :: m.path == dir + "/" + rest && name == dir + "/__init__.py"
    ensures name in PackageInits(ms) ==> PackageInits(ms)[name] == ""
  {
    if name in PackageInits(ms) {
      var p, i :| p in Paths(ms) && 0 <= i < |p| && p[i] == '/' && name == p[..i] + "/__init__.py";
      var m :| m in ms && m.path == p;
      assert m.path == p[..i] + "/" + p[i + 1..];
    }
    if m, dir, rest :| m in ms && m.path == dir + "/" + rest && name == dir + "/__init__.py" {
      assert m.path[|dir|] == '/' && m.path[..|dir|] == dir && m.path in Paths(ms);
      assert name in InitNames(Paths(ms));
    }
  }

  // ---- The gate ----

  function Staged(files: Tree, m: ModuleSpec, text: string, check: Option<string>): Tree {
    var withText := files[m.path := text];
    if m.check.Some? && check.Some? then withText[m.check.value := check.value] else withText
  }

  predicate ScreensClear(o: Oracles, text: string, check: Option<string>) {
    !o.flagged(text) && !o.mocked(text) && (check.Some? ==> !o.flagged(check.value))
  }

  predicate HasCheckRun(m: ModuleSpec, check: Option<string>) {
    m.check.Some? && check.Some?
  }

  /** The screens, then the module's own check with the partial tree staged; an honest error passes. */
  predicate GatePasses(o: Oracles, run: nat, m: ModuleSpec, text: string, check: Option<string>, files: Tree) {
    && ScreensClear(o, text, check)
    && (HasCheckRun(m, check) ==> o.verify(run, check.value, Staged(files, m, text, check)) != Failed)
  }

  /** The note an honest error leaves. */
  function Note(o: Oracles, run: nat, m: ModuleSpec, text: string, check: Option<string>, files: Tree): Option<string> {
    if !HasCheckRun(m, check) then None
    else match o.verify(run, check.value, Staged(files, m, text, check))
      case HonestError(error) => Some("check " + (m.check.value + ": honest error — " + Text.Cut(error, 200)))
      case _ => None
  }

  /** An author that always answers with code and a check, before screens and a sandbox that object to
      nothing. */
  ghost predicate Agreeable(o: Oracles) {
    && (forall n: nat :: o.reply(n).Code? && o.reply(n).check.Some?)
    && (forall text :: !o.flagged(text) && !o.mocked(text))
    && (forall run: nat, check, files :: o.verify(run, check, files) != Failed)
  }

  // ---- What a finished module leaves behind ----

  /** One module's last gate: what passed, in which tree, as which check run, and which replies the
      text and the check came from. */
  datatype Pass = Pass(m: ModuleSpec, text: string, check: Option<string>, before: Tree, run: nat,
                       said: nat, checkSaid: nat)
  {
    function After(): Tree {
      Staged(before, m, text, check)
    }
  }

  /** The replies after the one and up to the other bring code without a check. */
  ghost predicate NoCheckBetween(o: Oracles, checkSaid: nat, said: nat) {
    forall n :: checkSaid < n <= said ==> o.reply(n).Code? && o.reply(n).check.None?
  }

  /** Text and check are the author's own, not made up by the builder. */
  predicate Spoken(o: Oracles, p: Pass) {
    && o.reply(p.said).Code? && o.reply(p.said).text == p.text
    && (p.check.Some? ==> o.reply(p.checkSaid).Code? && o.reply(p.checkSaid).check == p.check)
  }

  ghost predicate SoundPass(o: Oracles, p: Pass) {
    && GatePasses(o, p.run, p.m, p.text, p.check, p.before) && (p.m.check.Some? ==> p.check.Some?)
    && Spoken(o, p)
  }

  function TreeAfter(start: Tree, passes: seq<Pass>): Tree {
    if passes == [] then start else passes[|passes| - 1].After()
  }

  /** Pass i gated module i of the order on the tree its predecessors left. */
  ghost predicate Link(o: Oracles, order: seq<ModuleSpec>, start: Tree, passes: seq<Pass>, i: nat)
    requires i < |passes| <= |order|
  {
    passes[i].m == order[i] && SoundPass(o, passes[i]) && passes[i].before == TreeAfter(start, passes[..i])
  }

  ghost predicate Chain(o: Oracles, order: seq<ModuleSpec>, start: Tree, passes: seq<Pass>) {
    |passes| <= |order| && forall i :: 0 <= i < |passes| ==> Link(o, order, start, passes, i)
  }

  // ---- The numbering of replies and check runs ----

  /** The reply number after the last pass. */
  function NextAsked(asked: nat, passes: seq<Pass>): nat {
    if passes == [] then asked else passes[|passes| - 1].said + 1
  }

  /** The check-run number after the last pass. */
  function NextRun(ran: nat, passes: seq<Pass>): nat {
    if passes == [] then ran else
    var last := passes[|passes| - 1];
    last.run + if HasCheckRun(last.m, last.check) then 1 else 0
  }

  /** Each module is written by replies, and checked by a run, that come after its predecessors'. */
  ghost predicate Numbered(asked: nat, ran: nat, passes: seq<Pass>)
    decreases |passes|
  {
    passes == []
    || (var before, last := passes[..|passes| - 1], passes[|passes| - 1];
        Numbered(asked, ran, before) && NextAsked(asked, before) <= last.checkSaid <= last.said
        && NextRun(ran, before) <= last.run)
  }

  lemma {:induction false} MoreNumbered(asked: nat, ran: nat, passes: seq<Pass>, p: Pass)
    requires Numbered(asked, ran, passes) && NextAsked(asked, passes) <= p.checkSaid <= p.said
    requires NextRun(ran, passes) <= p.run
    ensures Numbered(asked, ran, passes + [p])
  {
    assert (passes + [p])[..|passes|] == passes;
    hide NextAsked, NextRun;
  }

  lemma {:induction false} LaterReplies(asked: nat, ran: nat, passes: seq<Pass>, i: nat, j: nat)
    requires Numbered(asked, ran, passes) && i < j < |passes|
    ensures passes[i].said < passes[j].checkSaid <= passes[j].said
    decreases |passes|
  {
    var before, last := passes[..|passes| - 1], |passes| - 1;
    if j < last {
      LaterReplies(asked, ran, before, i, j);
    } else if i < last - 1 {
      LaterReplies(asked, ran, before, i, last - 1);
    }
  }

  lemma {:induction false} OwnReplies(asked: nat, ran: nat, passes: seq<Pass>, i: nat)
    requires Numbered(asked, ran, passes) && i < |passes|
    ensures passes[i].checkSaid <= passes[i].said
    decreases |passes|
  {
    if i < |passes| - 1 {
      OwnReplies(asked, ran, passes[..|passes| - 1], i);
    }
  }

  /** The notes of a whole build, in the order of its modules. */
  function NotesOf(o: Oracles, passes: seq<Pass>): seq<string> {
    if passes == [] then [] else
    NotesOf(o, passes[..|passes| - 1]) + NoteOf(o, passes[|passes| - 1])
  }

  function NoteOf(o: Oracles, p: Pass): seq<string> {
    match Note(o, p.run, p.m, p.text, p.check, p.before)
    case Some(note) => [note]
    case None => []
  }

  lemma {:induction false} MoreNotes(o: Oracles, passes: seq<Pass>, p: Pass)
    ensures NotesOf(o, passes + [p]) == NotesOf(o, passes) + NoteOf(o, p)
  {
    assert (passes + [p])[..|passes|] == passes;
    hide NoteOf;
  }

  class ProgramAuthor {
    const oracles: Oracles
    const maxRepairs: nat
    var consultations: nat
    var runs: nat

    constructor (oracles: Oracles, maxRepairs: int)
      ensures this.oracles == oracles && this.maxRepairs == if maxRepairs < 0 then 0 else maxRepairs
      ensures consultations == 0 && runs == 0
    {
      this.oracles := oracles;
      this.maxRepairs := if maxRepairs < 0 then 0 else maxRepairs;
      consultations, runs := 0, 0;
    }

    method Consult() returns (reply: Reply)
      modifies this`consultations
      ensures consultations == old(consultations) + 1 && reply == oracles.reply(old(consultations))
    {
      reply := oracles.reply(consultations);
      consultations := consultations + 1;
    }

    /** The per-module gates: text screens first, the sandboxed check last. A note is left exactly by a
        check that ends in an honest error. */
    method Gate(m: ModuleSpec, text: string, check: Option<string>, files: Tree)
      returns (passed: bool, note: Option<string>, ghost run: nat)
      modifies this`runs
      ensures passed <==> GatePasses(oracles, run, m, text, check, files)
      ensures passed <==>
        (!oracles.flagged(text) && !oracles.mocked(text) && (check.Some? ==> !oracles.flagged(check.value))
         && (m.check.Some? && check.Some? ==>
               oracles.verify(run, check.value, files[m.path := text][m.check.value := check.value]) != Failed))
      ensures note == if passed then Note(oracles, run, m, text, check, files) else None
      ensures run == old(runs) <= runs && (passed ==> runs == run + if HasCheckRun(m, check) then 1 else 0)
    {
      run := runs;
      if oracles.flagged(text) || oracles.mocked(text) || (check.Some? && oracles.flagged(check.value)) {
        return false, None, run;
      }
      if m.check.None? || check.None? {
        return true, None, run;
      }
      var report := oracles.verify(runs, check.value, Staged(files, m, text, check));
      runs := runs + 1;
      match report
      case Passed => return true, None, run;
      case HonestError(error) =>
        return true, Some("check " + (m.check.value + ": honest error — " + Text.Cut(error, 200))), run;
      case Failed => return false, None, run;
    }

    /** One module: authored once, then gated and repaired until it passes, a repair brings no code,
        or the repairs run out. */
    method AuthorModule(m: ModuleSpec, files: Tree)
      returns (problem: Option<Problem>, notes: seq<string>, files': Tree, ghost pass: Pass)
      modifies this
      ensures problem.None? ==> SoundPass(oracles, pass) && pass.m == m && pass.before == files
      ensures problem.None? ==> old(consultations) <= pass.checkSaid <= pass.said == consultations - 1
      ensures problem.None? ==> NoCheckBetween(oracles, pass.checkSaid, pass.said)
      ensures problem.None? ==> old(runs) <= pass.run && NextRun(old(runs), [pass]) <= runs
      ensures notes == if problem.None? then NoteOf(oracles, pass) else []
      ensures files' == if problem.None? then pass.After() else files
      ensures problem.Some? ==> OfModule(problem.value, m.path) && problem != Some(PlanRefused)
      ensures old(consultations) + 1 <= consultations <= old(consultations) + 1 + maxRepairs
      ensures problem == Some(Exhausted(m.path)) ==> consultations == old(consultations) + 1 + maxRepairs
      ensures Agreeable(oracles) ==> problem.None?
    {
      hide Agreeable, GatePasses;
      notes, files', pass := [], files, Pass(m, "", None, files, 0, 0, 0);
      ghost var said, checkSaid := consultations, consultations;
      var reply := Consult();
      AgreeableReplies(oracles, said);
      if reply.NoCode? || (m.check.Some? && reply.check.None?) {
        return Some(AuthorRefused(m.path)), notes, files', pass;
      }
      var text, check := reply.text, reply.check;
      var round := 0;
      while true
        invariant 0 <= round <= maxRepairs && notes == [] && files' == files
        invariant consultations == old(consultations) + 1 + round && old(runs) <= runs
        invariant old(consultations) <= checkSaid <= said == consultations - 1
        invariant NoCheckBetween(oracles, checkSaid, said)
        invariant m.check.Some? ==> check.Some?
        invariant oracles.reply(said).Code? && oracles.reply(said).text == text
        invariant oracles.reply(checkSaid).Code? && oracles.reply(checkSaid).check == check
        decreases maxRepairs - round
      {
        ghost var run;
        var passed, note;
        passed, note, run := Gate(m, text, check, files);
        AgreeableGates(oracles, run, m, text, check, files);
        if note.Some? {
          notes := notes + [note.value];
        }
        if passed {
          pass := Pass(m, text, check, files, run, said, checkSaid);
          files' := files[m.path := text];
          if m.check.Some? && check.Some? {
            files' := files'[m.check.value := check.value];
          }
          return None, notes, files', pass;
        }
        if round == maxRepairs {
          return Some(Exhausted(m.path)), notes, files', pass;
        }
        ghost var asked := consultations;
        var repair := Consult();
        round := round + 1;
        if repair.NoCode? {
          return Some(RepairRefused(m.path)), notes, files', pass;
        }
        text, said := repair.text, asked;
        if repair.check.Some? {
          check, checkSaid := repair.check, asked;
        }
      }
    }

    /** The whole build from a plan the parser accepted or refused. */
    method BuildProgram(plan: Option<seq<ModuleSpec>>) returns (build: Build, ghost passes: seq<Pass>)
      requires plan.Some? ==> Accepted(plan.value)
      modifies this
      ensures plan.None? <==> build.problem == Some(PlanRefused)
      ensures build.problem.None? ==> Complete(oracles, old(consultations) + 1, old(runs), plan.value, passes)
      ensures build.files == if build.problem.None? then TreeAfter(PackageInits(plan.value), passes) else map[]
      ensures build.notes == if build.problem.None? then NotesOf(oracles, passes) else []
      ensures build.consultations == consultations - old(consultations)
      ensures build.consultations <= Budget(if plan.Some? then |plan.value| else 0, maxRepairs)
      ensures plan.Some? && Agreeable(oracles) ==> build.problem.None?
    {
      var asked := consultations;
      consultations := consultations + 1;
      passes := [];
      hide *;
      BudgetStart(maxRepairs);
      if plan.None? {
        return Build(Some(PlanRefused), map[], [], 1), passes;
      }
      var problem, files, notes;
      problem, files, notes, passes := BuildModules(plan.value);
      if problem.Some? {
        return Build(problem, map[], [], consultations - asked), passes;
      }
      return Build(None, files, notes, consultations - asked), passes;
    }

    /** The modules of an accepted plan, one after the other. */
    method BuildModules(ms: seq<ModuleSpec>)
      returns (problem: Option<Problem>, files: Tree, notes: seq<string>, ghost passes: seq<Pass>)
      requires Accepted(ms)
      modifies this
      ensures problem != Some(PlanRefused)
      ensures problem.None? ==> Complete(oracles, old(consultations), old(runs), ms, passes)
      ensures problem.None? ==> files == TreeAfter(PackageInits(ms), passes) && notes == NotesOf(oracles, passes)
      ensures old(consultations) <= consultations < old(consultations) + Budget(|ms|, maxRepairs)
      ensures Agreeable(oracles) ==> problem.None?
    {
      ghost var first, ran := consultations, runs;
      var order := Topological(ms);
      ghost var start := PackageInits(ms);
      notes, files, passes, problem := [], PackageInits(ms), [], None;
      BudgetStart(maxRepairs);
      assert DistinctPaths(ms);
      hide *;
      OrderPermutes(ms);
      StartOfBuild(oracles, order, start, first, ran);
      var n := 0;
      while n < |order|
        invariant 0 <= n <= |order| && |passes| == n && problem.None?
        invariant Underway(oracles, order, start, first, ran, passes, files, notes, consultations, runs)
        invariant first <= consultations < first + Budget(n, maxRepairs)
      {
        ghost var pass;
        var noted;
        ghost var before, asking, running := files, consultations, runs;
        problem, noted, files, pass := AuthorModule(order[n], files);
        BudgetStep(n, |order|, maxRepairs);
        if problem.Some? {
          return;
        }
        OneModuleMore(oracles, order, start, first, ran, passes, before, notes, asking, running, pass,
                      consultations, runs);
        notes := notes + noted;
        passes := passes + [pass];
        n := n + 1;
      }
      BuildIsComplete(oracles, first, ran, ms, passes, files, notes, consultations, runs);
    }
  }

  lemma {:induction false} AgreeableReplies(o: Oracles, n: nat)
    ensures Agreeable(o) ==> o.reply(n).Code? && o.reply(n).check.Some?
  {
  }

  lemma {:induction false} AgreeableGates(o: Oracles, run: nat, m: ModuleSpec, text: string, check: Option<string>,
                                          files: Tree)
    ensures Agreeable(o) ==> GatePasses(o, run, m, text, check, files)
  {
  }

  /** Where a build stands between two modules. */
  ghost predicate Underway(o: Oracles, order: seq<ModuleSpec>, start: Tree, first: nat, ran: nat, passes: seq<Pass>,
                           files: Tree, notes: seq<string>, consultations: nat, runs: nat) {
    && Chain(o, order, start, passes) && files == TreeAfter(start, passes) && notes == NotesOf(o, passes)
    && Numbered(first, ran, passes) && NextAsked(first, passes) <= consultations && NextRun(ran, passes) <= runs
  }

  lemma {:induction false} StartOfBuild(o: Oracles, order: seq<ModuleSpec>, start: Tree, first: nat, ran: nat)
    ensures Underway(o, order, start, first, ran, [], start, [], first, ran)
  {
  }

  lemma {:induction false} OneModuleMore(o: Oracles, order: seq<ModuleSpec>, start: Tree, first: nat, ran: nat,
      passes: seq<Pass>, files: Tree, notes: seq<string>, asking: nat, running: nat, p: Pass, consultations: nat,
      runs: nat)
    requires Underway(o, order, start, first, ran, passes, files, notes, asking, running) && |passes| < |order|
    requires SoundPass(o, p) && p.m == order[|passes|] && p.before == files
    requires asking <= p.checkSaid <= p.said < consultations && running <= p.run && NextRun(running, [p]) <= runs
    ensures Underway(o, order, start, first, ran, passes + [p], p.After(), notes + NoteOf(o, p), consultations, runs)
  {
    hide Chain, SoundPass, Numbered, NotesOf, NoteOf, TreeAfter;
    ExtendChain(o, order, start, passes, p);
    MoreNumbered(first, ran, passes, p);
    MoreNotes(o, passes, p);
  }

  lemma {:induction false} BuildIsComplete(o: Oracles, first: nat, ran: nat, ms: seq<ModuleSpec>, passes: seq<Pass>,
                                           files: Tree, notes: seq<string>, consultations: nat, runs: nat)
    requires Underway(o, Order(ms), PackageInits(ms), first, ran, passes, files, notes, consultations, runs)
    requires |passes| == |ms|
    ensures Complete(o, first, ran, ms, passes)
    ensures files == TreeAfter(PackageInits(ms), passes) && notes == NotesOf(o, passes)
  {
    hide Chain, Numbered, NotesOf, TreeAfter;
  }

  /** The passes of a finished build: one for each module in order, numbered as they came. */
  ghost predicate Complete(o: Oracles, asked: nat, ran: nat, ms: seq<ModuleSpec>, passes: seq<Pass>) {
    Chain(o, Order(ms), PackageInits(ms), passes) && |passes| == |ms| && Numbered(asked, ran, passes)
  }

  /** The plan, then for each module one authoring and its repairs. */
  function Budget(modules: nat, repairs: nat): nat {
    1 + modules * (1 + repairs)
  }

  lemma {:induction false} BudgetStart(repairs: nat)
    ensures Budget(0, repairs) == 1
  {
  }

  lemma {:induction false} BudgetStep(n: nat, total: nat, repairs: nat)
    requires n < total
    ensures Budget(n + 1, repairs) == Budget(n, repairs) + 1 + repairs <= Budget(total, repairs)
  {
    MoreModules(n, total, 1 + repairs);
  }

  lemma {:induction false} OrderPermutes(ms: seq<ModuleSpec>)
    requires DistinctPaths(ms)
    ensures multiset(Order(ms)) == multiset(ms) && |Order(ms)| == |ms|
  {
    RoundsPermute(ms, {});
    hide Rounds;
    assert |multiset(Order(ms))| == |multiset(ms)|;
  }

  lemma {:induction false} EmptyChain(o: Oracles, order: seq<ModuleSpec>, start: Tree)
    ensures Chain(o, order, start, [])
  {
  }

  lemma {:induction false} ExtendChain(o: Oracles, order: seq<ModuleSpec>, start: Tree, passes: seq<Pass>, p: Pass)
    requires Chain(o, order, start, passes) && |passes| < |order|
    requires SoundPass(o, p) && p.m == order[|passes|] && p.before == TreeAfter(start, passes)
    ensures Chain(o, order, start, passes + [p]) && TreeAfter(start, passes + [p]) == p.After()
  {
    hide SoundPass;
    var more := passes + [p];
    assert more[..|passes|] == passes;
    forall i | 0 <= i < |passes| ensures Link(o, order, start, more, i) {
      assert Link(o, order, start, passes, i) && more[..i] == passes[..i];
    }
  }

  lemma {:induction false} MoreModules(n: nat, total: nat, each: nat)
    requires n < total
    ensures (n + 1) * each == n * each + each && (n + 1) * each <= total * each
  {
    var left := total - n - 1;
    assert left * each >= 0;
    assert total == n + 1 + left;
    assert total * each == (n + 1) * each + left * each;
  }

  // ---- What a finished build guarantees ----

  /** A pass writes its own module and check and nothing else. */
  lemma {:induction false} PassWrites(p: Pass, name: string)
    ensures name != p.m.path && (p.m.check.None? || name != p.m.check.value) ==>
      (name in p.After() <==> name in p.before) && (name in p.before ==> p.After()[name] == p.before[name])
    ensures p.m.check != Some(p.m.path) ==> p.m.path in p.After() && p.After()[p.m.path] == p.text
    ensures HasCheckRun(p.m, p.check) ==> p.m.check.value in p.After() && p.After()[p.m.check.value] == p.check.value
  {
  }

  ghost predicate Writes(p: Pass, name: string) {
    name == p.m.path || p.m.check == Some(name)
  }

  /** A file no later pass writes still holds what it held. */
  lemma {:induction false} UntouchedFile(o: Oracles, order: seq<ModuleSpec>, start: Tree, passes: seq<Pass>,
                                         i: nat, n: nat, name: string)
    requires Chain(o, order, start, passes) && i < n <= |passes|
    requires forall k :: i < k < n ==> !Writes(passes[k], name)
    ensures name in passes[n - 1].After() <==> name in passes[i].After()
    ensures name in passes[i].After() ==> passes[n - 1].After()[name] == passes[i].After()[name]
    decreases n
  {
    if i < n - 1 {
      UntouchedFile(o, order, start, passes, i, n - 1, name);
      PassWrites(passes[n - 1], name);
      assert Link(o, order, start, passes, n - 1) && passes[..n - 1][n - 2] == passes[n - 2];
    }
  }

  lemma {:induction false} ModuleFileStays(o: Oracles, ms: seq<ModuleSpec>, passes: seq<Pass>, i: nat, n: nat)
    requires Accepted(ms) && Chain(o, Order(ms), PackageInits(ms), passes) && i < n <= |passes|
    ensures passes[i].m.path in passes[n - 1].After()
    ensures passes[n - 1].After()[passes[i].m.path] == passes[i].text
  {
    var order := Order(ms);
    OrderMembers(ms);
    hide Resolves, Closed, Order;
    hide SoundPass;
    var path := passes[i].m.path;
    assert Link(o, order, PackageInits(ms), passes, i);
    PassWrites(passes[i], path);
    forall k | i < k < n ensures !Writes(passes[k], path) {
      assert Link(o, order, PackageInits(ms), passes, k);
      assert order[k].path != order[i].path && order[i].path in Paths(ms);
    }
    UntouchedFile(o, order, PackageInits(ms), passes, i, n, path);
  }

  /** The order lists the accepted modules, each once. */
  lemma {:induction false} OrderMembers(ms: seq<ModuleSpec>)
    requires Accepted(ms)
    ensures var order := Order(ms);
      && (forall i :: 0 <= i < |order| ==> order[i] in ms && order[i].path in Paths(ms))
      && (forall i :: 0 <= i < |order| && order[i].check.Some? ==> order[i].check.value !in Paths(ms))
      && DistinctPaths(order)
  {
    var order := Order(ms);
    OrderPermutes(ms);
    hide Order, Resolves, Closed;
    Sorting.SameElements(ms, order);
    DistinctIsUnrepeated(ms);
    Sorting.UnrepeatedSurvives(ms, order);
    PathsStayDistinct(ms, order);
    hide Sorting.Unrepeated, DistinctPaths;
    EachIsAccepted(ms, order);
  }

  lemma {:induction false} EachIsAccepted(ms: seq<ModuleSpec>, order: seq<ModuleSpec>)
    requires Accepted(ms) && forall m <- order :: m in ms
    ensures forall i :: 0 <= i < |order| ==> order[i] in ms && order[i].path in Paths(ms)
    ensures forall i :: 0 <= i < |order| && order[i].check.Some? ==> order[i].check.value !in Paths(ms)
  {
    assert forall i :: 0 <= i < |order| ==> order[i] in order;
  }

  lemma {:induction false} DistinctIsUnrepeated(ms: seq<ModuleSpec>)
    requires DistinctPaths(ms)
    ensures Sorting.Unrepeated(ms)
  {
  }

  lemma {:induction false} PathsStayDistinct(ms: seq<ModuleSpec>, order: seq<ModuleSpec>)
    requires DistinctPaths(ms) && Sorting.Unrepeated(order) && forall m <- order :: m in ms
    ensures DistinctPaths(order)
  {
    forall i, j | 0 <= i < j < |order| ensures order[i].path != order[j].path {
      assert order[i] in ms && order[j] in ms;
    }
  }

  /** When the build returns ok, every module's final text passed its gate, on a tree that held the
      final text of each module it depends on, and that text is what the build ships. */
  lemma {:induction false} ShippedModulesPassedTheirGates(o: Oracles, ms: seq<ModuleSpec>, passes: seq<Pass>, j: nat)
    requires Accepted(ms) && Chain(o, Order(ms), PackageInits(ms), passes) && |passes| == |ms| && j < |passes|
    ensures var files, p := TreeAfter(PackageInits(ms), passes), passes[j];
      && p.m == Order(ms)[j] && SoundPass(o, p)
      && p.m.path in files && files[p.m.path] == p.text
      && forall d <- p.m.depends :: d in files && d in p.After() && p.After()[d] == files[d]
  {
    hide Accepted, Order, PackageInits, SoundPass;
    var files, p := TreeAfter(PackageInits(ms), passes), passes[j];
    assert Link(o, Order(ms), PackageInits(ms), passes, j);
    ModuleFileStays(o, ms, passes, j, |passes|);
    forall d | d in p.m.depends ensures d in files && d in p.After() && p.After()[d] == files[d] {
      var i := DependencyPass(o, ms, passes, j, d);
      ModuleFileStays(o, ms, passes, i, |passes|);
      ModuleFileStays(o, ms, passes, i, j + 1);
    }
  }

  lemma {:induction false} DependencyPass(o: Oracles, ms: seq<ModuleSpec>, passes: seq<Pass>, j: nat, d: string)
    returns (i: nat)
    requires Accepted(ms) && Chain(o, Order(ms), PackageInits(ms), passes) && j < |passes|
    requires d in passes[j].m.depends
    ensures i < j && passes[i].m.path == d
  {
    ParserAcceptsAcyclic(ms);
    hide Order, Resolves, Closed;
    hide SoundPass;
    var rank :| Ranked(ms, rank);
    assert Link(o, Order(ms), PackageInits(ms), passes, j);
    i := DependenciesComeFirst(ms, rank, j, d);
    assert Link(o, Order(ms), PackageInits(ms), passes, i);
  }

  /** The check a module declares ships as it passed. */
  predicate CheckShips(files: Tree, p: Pass)
    requires p.m.check.Some?
  {
    p.check.Some? && p.m.check.value in files && files[p.m.check.value] == p.check.value
  }

  /** Of the modules declaring one check path, the last one's check ships as it passed. */
  lemma {:induction false} LastCheckShips(o: Oracles, ms: seq<ModuleSpec>, passes: seq<Pass>, j: nat)
    requires Accepted(ms) && Chain(o, Order(ms), PackageInits(ms), passes) && |passes| == |ms| && j < |passes|
    requires passes[j].m.check.Some? && forall k :: j < k < |passes| ==> passes[k].m.check != passes[j].m.check
    ensures CheckShips(TreeAfter(PackageInits(ms), passes), passes[j])
  {
    var order, start, name := Order(ms), PackageInits(ms), passes[j].m.check.value;
    hide *;
    LastTree(start, passes);
    forall k | j < k < |passes| ensures !Writes(passes[k], name) {
      LaterPassSparesCheck(o, ms, passes, j, k);
    }
    UntouchedFile(o, order, start, passes, j, |passes|, name);
    PassHasCheck(o, order, start, passes, j);
    ShipsUnchanged(passes[j].After(), TreeAfter(start, passes), passes[j]);
  }

  lemma {:induction false} LastTree(start: Tree, passes: seq<Pass>)
    requires passes != []
    ensures TreeAfter(start, passes) == passes[|passes| - 1].After()
  {
  }

  lemma {:induction false} ShipsUnchanged(files: Tree, files': Tree, p: Pass)
    requires p.m.check.Some? && CheckShips(files, p)
    requires var name := p.m.check.value;
      (name in files' <==> name in files) && (name in files ==> files'[name] == files[name])
    ensures CheckShips(files', p)
  {
  }

  lemma {:induction false} PassHasCheck(o: Oracles, order: seq<ModuleSpec>, start: Tree, passes: seq<Pass>, j: nat)
    requires Chain(o, order, start, passes) && j < |passes|
    ensures passes[j].m.check.Some? ==> CheckShips(passes[j].After(), passes[j])
  {
    assert Link(o, order, start, passes, j);
    hide GatePasses;
  }

  ghost predicate DistinctChecks(ms: seq<ModuleSpec>) {
    forall a, b :: a in ms && b in ms && a.check.Some? && a.check == b.check ==> a == b
  }

  lemma {:induction false} LaterPassSparesCheck(o: Oracles, ms: seq<ModuleSpec>, passes: seq<Pass>, j: nat, k: nat)
    requires Accepted(ms) && Chain(o, Order(ms), PackageInits(ms), passes) && j < k < |passes|
    requires passes[j].m.check.Some? && passes[k].m.check != passes[j].m.check
    ensures !Writes(passes[k], passes[j].m.check.value)
  {
    var order := Order(ms);
    OrderMembers(ms);
    assert Link(o, order, PackageInits(ms), passes, j) && Link(o, order, PackageInits(ms), passes, k);
    hide Order, Accepted, PackageInits, SoundPass, Chain;
    assert order[k].path in Paths(ms);
  }

  /** With distinct check paths, every check that passed its gate ships. */
  lemma {:induction false} ShippedChecksPassed(o: Oracles, ms: seq<ModuleSpec>, passes: seq<Pass>, j: nat)
    requires Accepted(ms) && Chain(o, Order(ms), PackageInits(ms), passes) && |passes| == |ms| && j < |passes|
    requires passes[j].m.check.Some? && DistinctChecks(ms)
    ensures CheckShips(TreeAfter(PackageInits(ms), passes), passes[j])
  {
    hide Accepted, Order, PackageInits;
    forall k | j < k < |passes| ensures passes[k].m.check != passes[j].m.check {
      ChecksDiffer(o, ms, passes, j, k);
    }
    hide Chain, DistinctChecks;
    LastCheckShips(o, ms, passes, j);
  }

  lemma {:induction false} ChecksDiffer(o: Oracles, ms: seq<ModuleSpec>, passes: seq<Pass>, j: nat, k: nat)
    requires Accepted(ms) && Chain(o, Order(ms), PackageInits(ms), passes) && j < k < |passes|
    requires passes[j].m.check.Some? && DistinctChecks(ms)
    ensures passes[k].m.check != passes[j].m.check
  {
    var order := Order(ms);
    OrderMembers(ms);
    assert Link(o, order, PackageInits(ms), passes, j) && Link(o, order, PackageInits(ms), passes, k);
    hide Order, Accepted, PackageInits, SoundPass, Chain;
    assert order[k] in ms && order[j] in ms && order[k].path != order[j].path;
  }

  // ---- Distinct check paths are exactly what shipping needs ----

  /** Every declared check ships as it passed. */
  predicate ChecksShip(ms: seq<ModuleSpec>, passes: seq<Pass>) {
    forall j :: 0 <= j < |passes| && passes[j].m.check.Some? ==>
      CheckShips(TreeAfter(PackageInits(ms), passes), passes[j])
  }

  /** An author that never writes the same check twice, before a sandbox that passes everything. */
  const MARKING := Oracles((n: nat) => Code("", Some(Mark(n))), (_, _, _) => Passed, _ => false, _ => false)

  function Mark(n: nat): (r: string)
    ensures |r| == n
  {
    seq(n, _ => 'x')
  }

  lemma {:induction false} MarkingIsAgreeable()
    ensures Agreeable(MARKING)
  {
  }

  function MarkedPasses(order: seq<ModuleSpec>, start: Tree, n: nat): (passes: seq<Pass>)
    requires n <= |order|
    ensures |passes| == n
  {
    if n == 0 then [] else
    var before := MarkedPasses(order, start, n - 1);
    before + [Pass(order[n - 1], "", Some(Mark(n)), TreeAfter(start, before), NextRun(0, before), n, n)]
  }

  lemma {:induction false} MarkedChain(order: seq<ModuleSpec>, start: Tree, n: nat)
    requires n <= |order|
    ensures var passes := MarkedPasses(order, start, n);
      Chain(MARKING, order, start, passes) && Numbered(1, 0, passes) && NextAsked(1, passes) == n + 1
  {
    if n == 0 {
      EmptyChain(MARKING, order, start);
    } else {
      var before := MarkedPasses(order, start, n - 1);
      hide *;
      MarkedChain(order, start, n - 1);
      var p := MarkedPass(order, start, n);
      ExtendChain(MARKING, order, start, before, p);
      MoreNumbered(1, 0, before, p);
    }
  }

  lemma {:induction false} MarkedPass(order: seq<ModuleSpec>, start: Tree, n: nat) returns (p: Pass)
    requires 0 < n <= |order|
    ensures var before := MarkedPasses(order, start, n - 1);
      && MarkedPasses(order, start, n) == before + [p] && |before| == n - 1
      && SoundPass(MARKING, p) && p.m == order[n - 1] && p.before == TreeAfter(start, before)
      && p.said == p.checkSaid == n && p.run == NextRun(0, before) && NextAsked(1, before + [p]) == n + 1
  {
    var before := MarkedPasses(order, start, n - 1);
    p := Pass(order[n - 1], "", Some(Mark(n)), TreeAfter(start, before), NextRun(0, before), n, n);
  }

  lemma {:induction false} LastWith(order: seq<ModuleSpec>, i: nat, n: nat) returns (j: nat)
    requires i < n <= |order|
    ensures i <= j < n && order[j].check == order[i].check
    ensures forall k :: j < k < n ==> order[k].check != order[i].check
    decreases n
  {
    if order[n - 1].check == order[i].check {
      j := n - 1;
    } else {
      j := LastWith(order, i, n - 1);
    }
  }

  lemma {:induction false} Clash(ms: seq<ModuleSpec>) returns (a: ModuleSpec, b: ModuleSpec)
    requires !DistinctChecks(ms)
    ensures a in ms && b in ms && a.check.Some? && a.check == b.check && a != b
  {
    a, b :| a in ms && b in ms && a.check.Some? && a.check == b.check && a != b;
  }

  lemma {:induction false} Positions(order: seq<ModuleSpec>, a: ModuleSpec, b: ModuleSpec) returns (p: nat, q: nat)
    requires a in order && b in order && a != b
    ensures p < q < |order| && {order[p], order[q]} == {a, b}
  {
    var i :| 0 <= i < |order| && order[i] == a;
    var j :| 0 <= j < |order| && order[j] == b;
    p, q := if i < j then i else j, if i < j then j else i;
  }

  lemma {:induction false} TwoWithOneCheck(ms: seq<ModuleSpec>) returns (i: nat, j: nat)
    requires DistinctPaths(ms) && !DistinctChecks(ms)
    ensures i < j < |Order(ms)| && Order(ms)[i].check.Some? && Order(ms)[i].check == Order(ms)[j].check
    ensures forall k :: j < k < |Order(ms)| ==> Order(ms)[k].check != Order(ms)[j].check
  {
    hide *;
    var order := Order(ms);
    var a, b := Clash(ms);
    OrderPermutes(ms);
    Sorting.SameElements(ms, order);
    var p, q := Positions(order, a, b);
    assert order[p] in {order[p], order[q]} && order[q] in {order[p], order[q]};
    i := p;
    j := LastWith(order, q, |order|);
  }

  /** Checks from different replies of that author differ. */
  lemma {:induction false} MarkedChecksDiffer(ms: seq<ModuleSpec>, asked: nat, ran: nat, passes: seq<Pass>, i: nat,
                                              j: nat)
    requires Complete(MARKING, asked, ran, ms, passes) && i < j < |passes|
    requires passes[i].m.check.Some? && passes[j].m.check.Some?
    ensures passes[i].check.Some? && passes[j].check.Some? && passes[i].check != passes[j].check
  {
    assert Link(MARKING, Order(ms), PackageInits(ms), passes, i);
    assert Link(MARKING, Order(ms), PackageInits(ms), passes, j);
    LaterReplies(asked, ran, passes, i, j);
    OwnReplies(asked, ran, passes, i);
    hide Chain, Numbered, GatePasses, TreeAfter, PackageInits, Order, Mark;
    var a, b := passes[i].checkSaid, passes[j].checkSaid;
    assert passes[i].check == Some(Mark(a)) && passes[j].check == Some(Mark(b)) && |Mark(a)| < |Mark(b)|;
  }

  lemma {:induction false} ChainModules(o: Oracles, order: seq<ModuleSpec>, start: Tree, passes: seq<Pass>)
    requires Chain(o, order, start, passes)
    ensures forall k :: 0 <= k < |passes| ==> passes[k].m == order[k]
  {
    hide SoundPass, TreeAfter;
    forall k | 0 <= k < |passes| ensures passes[k].m == order[k] {
      assert Link(o, order, start, passes, k);
    }
  }

  /** Every finished build of that author loses a check two modules share. */
  lemma {:induction false} SharedCheckIsLost(ms: seq<ModuleSpec>, asked: nat, ran: nat, passes: seq<Pass>)
    requires Accepted(ms) && !DistinctChecks(ms) && Complete(MARKING, asked, ran, ms, passes)
    ensures !ChecksShip(ms, passes)
  {
    var order, start := Order(ms), PackageInits(ms);
    var files := TreeAfter(start, passes);
    assert DistinctPaths(ms) && Chain(MARKING, order, start, passes) && |passes| == |ms|;
    hide Accepted, Order, PackageInits, DistinctPaths, DistinctChecks, TreeAfter, Chain, Complete;
    OrderPermutes(ms);
    ChainModules(MARKING, order, start, passes);
    var i, j := TwoWithOneCheck(ms);
    LastCheckShips(MARKING, ms, passes, j);
    MarkedChecksDiffer(ms, asked, ran, passes, i, j);
    assert !CheckShips(files, passes[i]);
  }

  /** And such a build there is, right after the plan. */
  lemma {:induction false} MarkedIsComplete(ms: seq<ModuleSpec>)
    requires DistinctPaths(ms)
    ensures Complete(MARKING, 1, 0, ms, MarkedPasses(Order(ms), PackageInits(ms), |Order(ms)|))
  {
    hide Order, PackageInits, Chain, Numbered, MarkedPasses, DistinctPaths;
    OrderPermutes(ms);
    MarkedChain(Order(ms), PackageInits(ms), |Order(ms)|);
  }

  /** Whatever the author, screens and sandbox do, every declared check of a finished build ships as it
      passed, if and only if no two modules declare the same check path. */
  lemma {:induction false} DistinctChecksExactly(ms: seq<ModuleSpec>)
    requires Accepted(ms)
    ensures DistinctChecks(ms)
      <==> forall o: Oracles, asked: nat, ran: nat, passes: seq<Pass> ::
             Complete(o, asked, ran, ms, passes) ==> ChecksShip(ms, passes)
  {
    if DistinctChecks(ms) {
      forall o: Oracles, asked: nat, ran: nat, passes: seq<Pass> | Complete(o, asked, ran, ms, passes)
        ensures ChecksShip(ms, passes)
      {
        hide Accepted, Order, PackageInits, DistinctChecks, Chain, TreeAfter, Numbered;
        forall j | 0 <= j < |passes| && passes[j].m.check.Some?
          ensures CheckShips(TreeAfter(PackageInits(ms), passes), passes[j])
        {
          ShippedChecksPassed(o, ms, passes, j);
        }
      }
    } else {
      assert DistinctPaths(ms);
      hide *;
      var passes := MarkedPasses(Order(ms), PackageInits(ms), |Order(ms)|);
      MarkedIsComplete(ms);
      SharedCheckIsLost(ms, 1, 0, passes);
    }
  }

  /** Nothing staged is ever removed: every package directory of every module keeps its marker. */
  lemma {:induction false} ScaffoldingStays(o: Oracles, order: seq<ModuleSpec>, start: Tree, passes: seq<Pass>)
    requires Chain(o, order, start, passes)
    ensures start.Keys <= TreeAfter(start, passes).Keys
    decreases |passes|
  {
    if passes != [] {
      var init := passes[..|passes| - 1];
      hide SoundPass;
      assert Link(o, order, start, passes, |passes| - 1);
      forall i | 0 <= i < |init| ensures Link(o, order, start, init, i) {
        assert Link(o, order, start, passes, i) && init[..i] == passes[..i];
      }
      ScaffoldingStays(o, order, start, init);
    }
  }
}
