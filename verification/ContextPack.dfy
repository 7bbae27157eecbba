/** The build context pack: ranked material rendered as text, compacted to a token budget in a fixed
    drop order. Similarity scores and the token estimate are parameters. */
module ContextPack {
  import opened Sorting
  import Text
  import TextLaws

  const KEPT_CONTRACTS := 3

  datatype Slot = Slot(name: string, kind: string)
  datatype Card = Card(nodeId: string, title: string, goal: string, consumes: seq<Slot>, produces: seq<Slot>)
  datatype Example = Example(card: Card, script: string, score: real)
  datatype Block = Block(key: string, text: string)

  /** What rides in a pack: the verbatim head, then the compressible classes, best first. */
  datatype Material = Material(head: seq<string>, contracts: seq<string>, blocks: seq<Block>, notes: seq<string>)

  datatype Drop = DroppedExample(key: string) | DroppedContract | DroppedLesson

  datatype Pack = Pack(text: string, kept: Material, excluded: seq<Drop>, tokens: nat)

  // ---- Rendering ----

  function BlockTexts(blocks: seq<Block>): seq<string> {
    seq(|blocks|, i requires 0 <= i < |blocks| => blocks[i].text)
  }

  const CONTRACTS_TITLE := "Similar node contracts on this desk:\n"
  const BLOCKS_TITLE :=
    "Verified example functions (style and contract reference — the request below is DIFFERENT work):\n"
  const NOTES_TITLE := "Lessons from earlier failures:\n- "

  function Sections(m: Material): seq<string> {
    m.head
    + (if m.contracts == [] then []
       else [CONTRACTS_TITLE + Text.Join(m.contracts, "\n")])
    + (if m.blocks == [] then []
       else [BLOCKS_TITLE + Text.Join(BlockTexts(m.blocks), "\n")])
    + (if m.notes == [] then [] else [NOTES_TITLE + Text.Join(m.notes, "\n- ")])
  }

  function Render(m: Material): string {
    if Sections(m) == [] then "" else
    "=== Desk context (reference for the request below) ===\n" + Text.Join(Sections(m), "\n\n")
    + "\n=== End of desk context ==="
  }

  // ---- Ranking ----

  /** Highest score first, ties in their given order, at most `limit`. */
  function Ranked<T(!new)>(items: seq<T>, score: T -> real, limit: nat): seq<T> {
    var sorted := Sort(items, (a, b) => score(a) >= score(b));
    if |sorted| <= limit then sorted else sorted[..limit]
  }

  /** The ranked prefix holds the best: everything left out scores no higher than anything kept. */
  lemma {:induction false} RankedKeepsTheBest<T(!new)>(items: seq<T>, score: T -> real, limit: nat)
    ensures var sorted, kept := Sort(items, (a, b) => score(a) >= score(b)), Ranked(items, score, limit);
      && multiset(sorted) == multiset(items)
      && kept <= sorted && |kept| == (if |items| <= limit then |items| else limit)
      && forall i, j :: 0 <= i < j < |sorted| ==> score(sorted[i]) >= score(sorted[j])
  {
    var leq := (a, b) => score(a) >= score(b);
    SortIsSorted(items, leq);
  }

  // ---- Compaction ----

  predicate OverBudget(text: string, estimate: string -> nat, budget: nat) {
    text != "" && estimate(text) > budget
  }

  predicate NothingToDrop(m: Material) {
    m.blocks == [] && |m.contracts| <= KEPT_CONTRACTS && m.notes == []
  }

  function Init<T>(s: seq<T>): seq<T>
    requires s != []
  {
    s[..|s| - 1]
  }

  /** One drop: the lowest example first, then a contract beyond the third, then a lesson. */
  function DropOne(m: Material): (Material, Drop)
    requires !NothingToDrop(m)
  {
    if m.blocks != [] then (m.(blocks := Init(m.blocks)), DroppedExample(m.blocks[|m.blocks| - 1].key))
    else if |m.contracts| > KEPT_CONTRACTS then (m.(contracts := Init(m.contracts)), DroppedContract)
    else (m.(notes := Init(m.notes)), DroppedLesson)
  }

  function Droppable(m: Material): nat {
    |m.blocks| + (if |m.contracts| > KEPT_CONTRACTS then |m.contracts| - KEPT_CONTRACTS else 0) + |m.notes|
  }

  /** The material and the record after `n` drops. */
  function AfterDrops(m: Material, n: nat): (r: (Material, seq<Drop>))
    requires n <= Droppable(m)
    ensures Droppable(r.0) == Droppable(m) - n && |r.1| == n
  {
    if n == 0 then (m, [])
    else
      var (before, drops) := AfterDrops(m, n - 1);
      var (kept, drop) := DropOne(before);
      (kept, drops + [drop])
  }

  lemma {:induction false} OneDropMore(m: Material, n: nat)
    requires n <= Droppable(m)
    ensures var (kept, drops) := AfterDrops(m, n);
      if NothingToDrop(kept) then n == Droppable(m)
      else n + 1 <= Droppable(m) && AfterDrops(m, n + 1) == (DropOne(kept).0, drops + [DropOne(kept).1])
  {
  }

  /** The first n states were all over budget. */
  ghost predicate OverUntil(m: Material, estimate: string -> nat, budget: nat, n: nat)
    requires n <= Droppable(m)
  {
    forall k :: 0 <= k < n ==> OverBudget(Render(AfterDrops(m, k).0), estimate, budget)
  }

  lemma {:induction false} OverOneMore(m: Material, estimate: string -> nat, budget: nat, n: nat)
    requires n <= Droppable(m)
    ensures n == 0 ==> OverUntil(m, estimate, budget, n)
    ensures OverUntil(m, estimate, budget, n) && OverBudget(Render(AfterDrops(m, n).0), estimate, budget) ==>
      n < Droppable(m) ==> OverUntil(m, estimate, budget, n + 1)
  {
  }

  /** Compaction stops at the first state that fits, or when nothing more may go: the head and at
      most three contracts. Every state passed on the way was over budget. */
  method Compact(m: Material, estimate: string -> nat, budget: nat) returns (pack: Pack)
    ensures |pack.excluded| <= Droppable(m) && (pack.kept, pack.excluded) == AfterDrops(m, |pack.excluded|)
    ensures pack.text == Render(pack.kept) && pack.tokens == estimate(pack.text)
    ensures !OverBudget(pack.text, estimate, budget) || NothingToDrop(pack.kept)
    ensures OverUntil(m, estimate, budget, |pack.excluded|)
  {
    var kept, excluded: seq<Drop> := m, [];
    var text := Render(kept);
    assert AfterDrops(m, 0) == (m, []);
    OverOneMore(m, estimate, budget, 0);
    hide Render, AfterDrops, Droppable, DropOne, NothingToDrop, OverUntil;
    while text != "" && estimate(text) > budget
      invariant |excluded| <= Droppable(m) && (kept, excluded) == AfterDrops(m, |excluded|)
      invariant text == Render(kept)
      invariant OverUntil(m, estimate, budget, |excluded|)
      decreases Droppable(m) - |excluded|
    {
      OneDropMore(m, |excluded|);
      OverOneMore(m, estimate, budget, |excluded|);
      if NothingToDrop(kept) {
        break;
      }
      var dropped;
      kept, dropped := DropLowest(kept);
      excluded := excluded + [dropped];
      text := Render(kept);
    }
    pack := Pack(text, kept, excluded, estimate(text));
  }

  /** Pops one item off the class whose turn it is. */
  method DropLowest(m: Material) returns (kept: Material, dropped: Drop)
    requires !NothingToDrop(m)
    ensures (kept, dropped) == DropOne(m)
  {
    var contracts, blocks, notes := m.contracts, m.blocks, m.notes;
    if blocks != [] {
      dropped := DroppedExample(blocks[|blocks| - 1].key);
      blocks := blocks[..|blocks| - 1];
    } else if |contracts| > KEPT_CONTRACTS {
      contracts := contracts[..|contracts| - 1];
      dropped := DroppedContract;
    } else {
      notes := notes[..|notes| - 1];
      dropped := DroppedLesson;
    }
    kept := Material(m.head, contracts, blocks, notes);
  }

  function Least(a: nat, b: nat): nat {
    if a <= b then a else b
  }

  function SpareContracts(m: Material): nat {
    if |m.contracts| > KEPT_CONTRACTS then |m.contracts| - KEPT_CONTRACTS else 0
  }

  /** After any number of drops, in closed form: the head is whole, each class is a prefix of its
      ranking, no contract goes before the last example and no lesson before the last spare
      contract, and the record counts exactly what is gone. */
  lemma {:induction false} DropsInOrder(m: Material, n: nat)
    requires n <= Droppable(m)
    ensures AfterDrops(m, n) == (KeptAfter(m, n), RecordOf(m, n))
  {
    if n == 0 {
      NoDrops(m);
    } else {
      hide *;
      OneDropMore(m, n - 1);
      DropsInOrder(m, n - 1);
      DropFromPrefix(m, n - 1);
    }
  }

  lemma {:induction false} NoDrops(m: Material)
    ensures AfterDrops(m, 0) == (KeptAfter(m, 0), RecordOf(m, 0))
  {
    assert m.contracts[..|m.contracts|] == m.contracts && m.blocks[..|m.blocks|] == m.blocks;
    assert m.notes[..|m.notes|] == m.notes && RecordOf(m, 0) == [];
    assert KeptAfter(m, 0) == m;
  }

  /** How many of the first n drops fall on each class. */
  function ExampleDrops(m: Material, n: nat): nat {
    Least(n, |m.blocks|)
  }

  function ContractDrops(m: Material, n: nat): nat {
    Least(n - ExampleDrops(m, n), SpareContracts(m))
  }

  function LessonDrops(m: Material, n: nat): nat {
    n - ExampleDrops(m, n) - ContractDrops(m, n)
  }

  function KeptAfter(m: Material, n: nat): Material
    requires n <= Droppable(m)
  {
    Material(m.head, m.contracts[..|m.contracts| - ContractDrops(m, n)],
             m.blocks[..|m.blocks| - ExampleDrops(m, n)], m.notes[..|m.notes| - LessonDrops(m, n)])
  }

  function RecordAt(m: Material, i: nat): Drop {
    if i < |m.blocks| then DroppedExample(m.blocks[|m.blocks| - 1 - i].key)
    else if i < |m.blocks| + SpareContracts(m) then DroppedContract
    else DroppedLesson
  }

  function RecordOf(m: Material, n: nat): seq<Drop> {
    seq(n, i requires 0 <= i < n => RecordAt(m, i))
  }

  lemma {:induction false} DropFromPrefix(m: Material, n: nat)
    requires n < Droppable(m)
    ensures !NothingToDrop(KeptAfter(m, n))
    ensures DropOne(KeptAfter(m, n)).0 == KeptAfter(m, n + 1)
    ensures RecordOf(m, n) + [DropOne(KeptAfter(m, n)).1] == RecordOf(m, n + 1)
  {
    assert DropOne(KeptAfter(m, n)).1 == RecordAt(m, n);
  }

  /** A pack that is still over budget holds nothing but the head and at most three contracts. */
  lemma {:induction false} OverBudgetOnlyWhenBare(m: Material, n: nat)
    requires n <= Droppable(m) && NothingToDrop(AfterDrops(m, n).0)
    ensures var kept := AfterDrops(m, n).0;
      n == Droppable(m) && kept == Material(m.head, m.contracts[..Least(|m.contracts|, KEPT_CONTRACTS)], [], [])
  {
    DropsInOrder(m, n);
  }

  // ---- The whole compilation ----

  function SlotText(slots: seq<Slot>): string {
    "[" + Text.Join(seq(|slots|, i requires 0 <= i < |slots| => slots[i].name + ":" + slots[i].kind), ", ") + "]"
  }

  function CardText(card: Card): string {
    (if card.title != "" then card.title else card.nodeId) + ": consumes " + SlotText(card.consumes)
    + " produces " + SlotText(card.produces) + " — " + Text.Strip(card.goal)
  }

  function ContractLines(cards: seq<Card>): seq<string> {
    seq(|cards|, i requires 0 <= i < |cards| => "- " + CardText(cards[i]))
  }

  /** Examples without a script are left out after ranking. */
  function ExampleBlocks(examples: seq<Example>): seq<Block> {
    if examples == [] then [] else
    var e := examples[0];
    (if e.script == "" then []
     else [Block("example:" + e.card.nodeId, "--- verified function: " + e.card.title + " (" + CardText(e.card)
                 + ") ---\n```python\n" + e.script + "\n```")])
    + ExampleBlocks(examples[1..])
  }

  function Lessons(lessons: seq<string>): seq<string> {
    if lessons == [] then [] else
    (if Text.Strip(lessons[0]) == "" then [] else [Text.Strip(lessons[0])]) + Lessons(lessons[1..])
  }

  function Assembled(head: seq<string>, catalog: seq<Card>, similarity: Card -> real, maxContracts: nat,
                     examples: seq<Example>, maxExamples: nat, lessons: seq<string>): Material
  {
    Material(head, ContractLines(Ranked(catalog, similarity, maxContracts)),
             ExampleBlocks(Ranked(examples, (e: Example) => e.score, maxExamples)), Lessons(lessons))
  }

  /** A compiled pack is the assembled material after the fewest drops that make it fit. */
  method Compile(head: seq<string>, catalog: seq<Card>, similarity: Card -> real, maxContracts: nat,
                 examples: seq<Example>, maxExamples: nat, lessons: seq<string>,
                 estimate: string -> nat, budget: nat) returns (pack: Pack)
    ensures var m := Assembled(head, catalog, similarity, maxContracts, examples, maxExamples, lessons);
      && |pack.excluded| <= Droppable(m)
      && pack.kept == KeptAfter(m, |pack.excluded|) && pack.excluded == RecordOf(m, |pack.excluded|)
      && pack.text == Render(pack.kept) && pack.tokens == estimate(pack.text)
      && (!OverBudget(pack.text, estimate, budget)
          || pack.kept == Material(head, m.contracts[..Least(|m.contracts|, KEPT_CONTRACTS)], [], []))
      && forall k :: 0 <= k < |pack.excluded| ==> TooLong(Render(KeptAfter(m, k)), estimate, budget)
    ensures pack.text == "" || estimate(pack.text) <= budget
      || (pack.kept.blocks == [] && pack.kept.notes == [] && |pack.kept.contracts| <= 3)
  {
    var m := Assembled(head, catalog, similarity, maxContracts, examples, maxExamples, lessons);
    assert m.head == head;
    hide *;
    pack := Compact(m, estimate, budget);
    CompactedPack(m, pack, estimate, budget);
    FitsOrBare(pack.text, pack.kept, estimate, budget);
  }

  /** What the loop leaves, in closed form. */
  lemma {:induction false} CompactedPack(m: Material, pack: Pack, estimate: string -> nat, budget: nat)
    requires |pack.excluded| <= Droppable(m) && (pack.kept, pack.excluded) == AfterDrops(m, |pack.excluded|)
    requires OverUntil(m, estimate, budget, |pack.excluded|)
    ensures pack.kept == KeptAfter(m, |pack.excluded|) && pack.excluded == RecordOf(m, |pack.excluded|)
    ensures forall k :: 0 <= k < |pack.excluded| ==> TooLong(Render(KeptAfter(m, k)), estimate, budget)
    ensures NothingToDrop(pack.kept) ==>
      pack.kept == Material(m.head, m.contracts[..Least(|m.contracts|, KEPT_CONTRACTS)], [], [])
  {
    hide *;
    DropsInOrder(m, |pack.excluded|);
    OverOnTheWay(m, estimate, budget, |pack.excluded|);
    forall k | 0 <= k < |pack.excluded| ensures TooLong(Render(KeptAfter(m, k)), estimate, budget) {
      OverIsTooLong(Render(KeptAfter(m, k)), estimate, budget);
    }
    if NothingToDrop(pack.kept) {
      OverBudgetOnlyWhenBare(m, |pack.excluded|);
    }
  }

  /** There is a text, and by the estimate it takes more tokens than there are. */
  predicate TooLong(text: string, estimate: string -> nat, budget: nat) {
    |text| > 0 && !(estimate(text) <= budget)
  }

  lemma {:induction false} OverIsTooLong(text: string, estimate: string -> nat, budget: nat)
    ensures OverBudget(text, estimate, budget) ==> TooLong(text, estimate, budget)
  {
  }

  lemma {:induction false} FitsOrBare(text: string, kept: Material, estimate: string -> nat, budget: nat)
    ensures !OverBudget(text, estimate, budget) || NothingToDrop(kept) ==>
      text == "" || estimate(text) <= budget || (kept.blocks == [] && kept.notes == [] && |kept.contracts| <= 3)
  {
  }

  lemma {:induction false} OverOnTheWay(m: Material, estimate: string -> nat, budget: nat, drops: nat)
    requires drops <= Droppable(m) && OverUntil(m, estimate, budget, drops)
    ensures forall k :: 0 <= k < drops ==> OverBudget(Render(KeptAfter(m, k)), estimate, budget)
  {
    hide Render, OverBudget, AfterDrops;
    forall k | 0 <= k < drops ensures AfterDrops(m, k).0 == KeptAfter(m, k) {
      DropsInOrder(m, k);
    }
  }

  // ---- What is assembled, and what is shown ----

  /** A list in order of score, best first, of the same items; its first n are what a ranking to n keeps. */
  ghost predicate RankedTo<T(!new)>(items: seq<T>, score: T -> real, n: nat, order: seq<T>, kept: seq<T>) {
    && multiset(order) == multiset(items)
    && (forall i, j :: 0 <= i < j < |order| ==> score(order[i]) >= score(order[j]))
    && kept <= order && |kept| <= n && (|kept| < n ==> kept == order)
  }

  lemma {:induction false} RankedExactly<T(!new)>(items: seq<T>, score: T -> real, n: nat)
    ensures exists order :: RankedTo(items, score, n, order, Ranked(items, score, n))
  {
    RankedKeepsTheBest(items, score, n);
    assert RankedTo(items, score, n, Sort(items, (a, b) => score(a) >= score(b)), Ranked(items, score, n));
  }

  /** The pack starts from one line for each of the best-scored cards, as many as asked for, one block for
      each of the best-scored examples that has a script, and the lessons that say anything. */
  lemma {:induction false} AssembledExactly(head: seq<string>, catalog: seq<Card>, similarity: Card -> real,
      maxContracts: nat, examples: seq<Example>, maxExamples: nat, lessons: seq<string>)
    returns (cards: seq<Card>, shown: seq<Example>)
    ensures var m := Assembled(head, catalog, similarity, maxContracts, examples, maxExamples, lessons);
      && m.head == head
      && |m.contracts| == |cards| && (forall k :: 0 <= k < |cards| ==> m.contracts[k] == "- " + CardText(cards[k]))
      && m.blocks == ExampleBlocks(shown) && m.notes == Lessons(lessons)
    ensures exists order :: RankedTo(catalog, similarity, maxContracts, order, cards)
    ensures exists order :: RankedExamples(examples, maxExamples, order, shown)
  {
    cards, shown := Ranked(catalog, similarity, maxContracts), Ranked(examples, (e: Example) => e.score, maxExamples);
    RankedExactly(catalog, similarity, maxContracts);
    RankedExactly(examples, (e: Example) => e.score, maxExamples);
    var order :| RankedTo(examples, (e: Example) => e.score, maxExamples, order, shown);
    assert RankedExamples(examples, maxExamples, order, shown);
    hide Ranked, RankedTo, CardText, ExampleBlocks, Lessons;
  }

  ghost predicate RankedExamples(examples: seq<Example>, n: nat, order: seq<Example>, kept: seq<Example>) {
    RankedTo(examples, (e: Example) => e.score, n, order, kept)
  }

  /** One example more adds a block that shows its script under its id, unless it has none. */
  lemma {:induction false} BlocksExactly(examples: seq<Example>, e: Example)
    ensures ExampleBlocks([]) == []
    ensures var before, after := ExampleBlocks(examples), ExampleBlocks(examples + [e]);
      if e.script == "" then after == before
      else |after| == |before| + 1 && after[..|before|] == before && ShowsScript(after[|before|], e)
    decreases |examples|
  {
    if examples == [] {
      assert [] + [e] == [e] && [e][1..] == [];
      if e.script != "" {
        ScriptIsShown(e);
      }
      hide CardText, Text.Contains;
    } else {
      assert (examples + [e])[1..] == examples[1..] + [e];
      BlocksExactly(examples[1..], e);
      hide ShowsScript, CardText;
    }
  }

  ghost predicate ShowsScript(block: Block, e: Example) {
    block.key == "example:" + e.card.nodeId && Text.Contains(block.text, e.script)
  }

  lemma {:induction false} ScriptIsShown(e: Example)
    requires e.script != ""
    ensures |ExampleBlocks([e])| == 1 && ShowsScript(ExampleBlocks([e])[0], e)
  {
    var before := "--- verified function: " + e.card.title + " (" + CardText(e.card) + ") ---\n```python\n";
    var after := "\n```";
    TextLaws.ContainsExactly(before + e.script + after, e.script);
    assert [e][1..] == [];
    hide CardText, Text.Contains;
  }

  lemma {:induction false} LessonsExactly(lessons: seq<string>)
    ensures forall note ::
      (note in Lessons(lessons)
       <==> exists lesson <- lessons :: note == Text.Strip(lesson) && exists c <- lesson :: !Text.IsSpace(c))
  {
    if lessons != [] {
      assert lessons == [lessons[0]] + lessons[1..];
      LessonsExactly(lessons[1..]);
      TextLaws.StripsToNothing(lessons[0]);
      hide Text.Strip;
    }
  }

  lemma {:induction false} SectionIsShown(m: Material, k: nat)
    requires k < |Sections(m)|
    ensures TextLaws.Shows(Render(m), Sections(m)[k])
  {
    var sections := Sections(m);
    var before, after := "=== Desk context (reference for the request below) ===\n", "\n=== End of desk context ===";
    TextLaws.JoinShows(sections, "\n\n", k);
    TextLaws.ShowsAround(before, Text.Join(sections, "\n\n"), after);
    assert Render(m) == before + Text.Join(sections, "\n\n") + after;
    hide Render, Sections, TextLaws.Shows;
    TextLaws.ShowsWithin(Render(m), Text.Join(sections, "\n\n"), sections[k]);
  }

  lemma {:induction false} ContractsSection(m: Material) returns (k: nat)
    requires m.contracts != []
    ensures k < |Sections(m)| && Sections(m)[k] == CONTRACTS_TITLE + Text.Join(m.contracts, "\n")
  {
    k := |m.head|;
    hide Text.Join, BlockTexts;
  }

  lemma {:induction false} BlocksSection(m: Material) returns (k: nat)
    requires m.blocks != []
    ensures k < |Sections(m)| && Sections(m)[k] == BLOCKS_TITLE + Text.Join(BlockTexts(m.blocks), "\n")
  {
    k := |m.head| + if m.contracts == [] then 0 else 1;
    hide Text.Join, BlockTexts;
  }

  lemma {:induction false} NotesSection(m: Material) returns (k: nat)
    requires m.notes != []
    ensures k < |Sections(m)| && Sections(m)[k] == NOTES_TITLE + Text.Join(m.notes, "\n- ")
  {
    k := |Sections(m)| - 1;
    hide Text.Join, BlockTexts;
  }

  /** The text is empty exactly if there is nothing to show. */
  lemma {:induction false} NothingIsRendered(m: Material)
    ensures Render(m) == "" <==> m.head == [] && m.contracts == [] && m.blocks == [] && m.notes == []
  {
    hide Text.Join, BlockTexts;
  }

  /** And shows every part of the material whole. */
  lemma {:induction false} HeadIsShown(m: Material, part: string)
    requires part in m.head
    ensures TextLaws.Shows(Render(m), part)
  {
    var k :| 0 <= k < |m.head| && m.head[k] == part;
    assert k < |Sections(m)| && Sections(m)[k] == part;
    hide Sections, Render;
    SectionIsShown(m, k);
  }

  lemma {:induction false} ContractIsShown(m: Material, part: string)
    requires part in m.contracts
    ensures TextLaws.Shows(Render(m), part)
  {
    hide *;
    var k := ContractsSection(m);
    PartIsShown(m, k, CONTRACTS_TITLE, m.contracts, "\n", part);
  }

  lemma {:induction false} BlockIsShown(m: Material, block: Block)
    requires block in m.blocks
    ensures TextLaws.Shows(Render(m), block.text)
  {
    var i :| 0 <= i < |m.blocks| && m.blocks[i] == block;
    assert BlockTexts(m.blocks)[i] == block.text;
    hide *;
    var k := BlocksSection(m);
    PartIsShown(m, k, BLOCKS_TITLE, BlockTexts(m.blocks), "\n", block.text);
  }

  lemma {:induction false} NoteIsShown(m: Material, part: string)
    requires part in m.notes
    ensures TextLaws.Shows(Render(m), part)
  {
    hide *;
    var k := NotesSection(m);
    PartIsShown(m, k, NOTES_TITLE, m.notes, "\n- ", part);
  }

  lemma {:induction false} PartIsShown(m: Material, k: nat, title: string, parts: seq<string>, separator: string,
                                       part: string)
    requires k < |Sections(m)| && Sections(m)[k] == title + Text.Join(parts, separator) && part in parts
    ensures TextLaws.Shows(Render(m), part)
  {
    var i :| 0 <= i < |parts| && parts[i] == part;
    var joined := Text.Join(parts, separator);
    assert Sections(m)[k] == title + joined + "";
    hide *;
    SectionIsShown(m, k);
    TextLaws.JoinShows(parts, separator, i);
    TextLaws.ShowsAround(title, joined, "");
    TextLaws.ShowsWithin(Render(m), Sections(m)[k], joined);
    TextLaws.ShowsWithin(Render(m), joined, part);
  }

  /** A card's line tells its title, or its id if it has none, first, and its goal last. */
  lemma {:induction false} CardIsTold(card: Card)
    ensures (if card.title == "" then card.nodeId else card.title) <= CardText(card)
    ensures TextLaws.Shows(CardText(card), Text.Strip(card.goal))
  {
    var name := if card.title == "" then card.nodeId else card.title;
    var ports := ": consumes " + SlotText(card.consumes) + " produces " + SlotText(card.produces) + " — ";
    assert CardText(card) == name + ports + Text.Strip(card.goal);
    assert CardText(card) == (name + ports) + Text.Strip(card.goal) + "";
    hide CardText, SlotText, Text.Strip;
    TextLaws.ShowsAround(name + ports, Text.Strip(card.goal), "");
  }
}
