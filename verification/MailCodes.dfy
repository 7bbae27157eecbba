/** One-time mail codes: single use, expiring, and dead after five wrong guesses. */
module MailCodes {
  import opened Occurrences

  const MAX_ATTEMPTS := 5
  const CODE_TTL := 30

  /** The stored hash is empty once a code is burned. */
  datatype Row = Row(codeHash: string, expiresAt: int, attempts: nat, verifiedAt: Option<int>)

  function Issued(row: Option<Row>, codeHash: string, now: int): Row {
    Row(codeHash, now + CODE_TTL, 0, if row.Some? then row.value.verifiedAt else None)
  }

  predicate Open(row: Option<Row>, now: int) {
    row.Some? && row.value.attempts < MAX_ATTEMPTS && now <= row.value.expiresAt
  }

  function Guessed(row: Option<Row>, guessHash: string, now: int): (r: (bool, Option<Row>)) {
    if !Open(row, now) then (false, row)
    else if row.value.codeHash != guessHash then (false, Some(row.value.(attempts := row.value.attempts + 1)))
    else (true, Some(row.value.(verifiedAt := Some(now), codeHash := "")))
  }

  function Marked(row: Option<Row>, now: int): Row {
    if row.None? then Row("", now, 0, Some(now)) else row.value.(verifiedAt := Some(now), codeHash := "")
  }

  class MailCodeStore {
    var rows: map<(string, string), Row>
    /** The digest of email, purpose and code; never empty. */
    const hash: (string, string, string) -> string

    ghost predicate Valid() {
      forall e, p, c :: hash(e, p, c) != ""
    }

    constructor (hash: (string, string, string) -> string)
      requires forall e, p, c :: hash(e, p, c) != ""
      ensures Valid() && rows == map[] && this.hash == hash
    {
      rows := map[];
      this.hash := hash;
    }

    function At(email: string, purpose: string): Option<Row>
      reads this
    {
      if (email, purpose) in rows then Some(rows[(email, purpose)]) else None
    }

    method Issue(email: string, purpose: string, code: string, now: int)
      requires Valid()
      modifies this`rows
      ensures rows == old(rows)[(email, purpose) := Issued(old(At(email, purpose)), hash(email, purpose, code), now)]
      ensures var row := rows[(email, purpose)];
        && row.codeHash == hash(email, purpose, code) && row.expiresAt == now + 30 && row.attempts == 0
        && row.verifiedAt == if (email, purpose) in old(rows) then old(rows)[(email, purpose)].verifiedAt else None
    {
      var key := (email, purpose);
      rows := rows[key := Row(hash(email, purpose, code), now + CODE_TTL, 0,
        if key in rows then rows[key].verifiedAt else None)];
    }

    method Redeem(email: string, purpose: string, code: string, now: int) returns (accepted: bool)
      requires Valid()
      modifies this`rows
      ensures accepted <==>
        ((email, purpose) in old(rows)
         && var row := old(rows)[(email, purpose)];
            row.attempts < 5 && now <= row.expiresAt && row.codeHash == hash(email, purpose, code))
      ensures accepted == Guessed(old(At(email, purpose)), hash(email, purpose, code), now).0
      ensures At(email, purpose) == Guessed(old(At(email, purpose)), hash(email, purpose, code), now).1
      ensures accepted ==> (email, purpose) in rows
      ensures accepted ==> rows[(email, purpose)].codeHash == "" && rows[(email, purpose)].verifiedAt == Some(now)
      ensures (email, purpose) in old(rows) && !accepted ==>
        var row := old(rows)[(email, purpose)];
        rows == old(rows)[(email, purpose) := row.(attempts :=
          if row.attempts < 5 && now <= row.expiresAt then row.attempts + 1 else row.attempts)]
      ensures forall key :: key != (email, purpose) ==>
        (key in rows <==> key in old(rows)) && (key in rows ==> rows[key] == old(rows)[key])
    {
      var key := (email, purpose);
      if key !in rows || rows[key].attempts >= MAX_ATTEMPTS || now > rows[key].expiresAt {
        return false;
      }
      var row := rows[key];
      if row.codeHash != hash(email, purpose, code) {
        rows := rows[key := row.(attempts := row.attempts + 1)];
        return false;
      }
      rows := rows[key := row.(verifiedAt := Some(now), codeHash := "")];
      return true;
    }

    method MarkVerified(email: string, purpose: string, now: int)
      modifies this`rows
      ensures rows == old(rows)[(email, purpose) := Marked(old(At(email, purpose)), now)]
      ensures rows[(email, purpose)].codeHash == "" && rows[(email, purpose)].verifiedAt == Some(now)
    {
      var key := (email, purpose);
      if key in rows {
        rows := rows[key := rows[key].(verifiedAt := Some(now), codeHash := "")];
      } else {
        rows := rows[key := Row("", now, 0, Some(now))];
      }
    }
  }

  // ---- Whole runs of one address and purpose ----

  datatype Event = Issue(codeHash: string, now: int) | Guess(guessHash: string, now: int) | Mark(now: int)

  /** The row; how many guesses were accepted and judged wrong since a code was last issued; and how
      many acceptances and explicit marks there have been in all. */
  datatype Account = Account(row: Option<Row>, used: nat, wrong: nat, accepted: nat, marks: nat)

  function After(a: Account, e: Event): Account {
    match e
    case Issue(h, now) => a.(row := Some(Issued(a.row, h, now)), used := 0, wrong := 0)
    case Guess(h, now) =>
      var (ok, row) := Guessed(a.row, h, now);
      if ok then a.(row := row, used := a.used + 1, accepted := a.accepted + 1)
      else if row != a.row then a.(row := row, wrong := a.wrong + 1)
      else a
    case Mark(now) => a.(row := Some(Marked(a.row, now)), marks := a.marks + 1)
  }

  function Ran(es: seq<Event>): Account {
    if es == [] then Account(None, 0, 0, 0, 0) else After(Ran(es[..|es| - 1]), es[|es| - 1])
  }

  predicate RealHashes(es: seq<Event>) {
    forall e <- es :: (e.Issue? ==> e.codeHash != "") && (e.Guess? ==> e.guessHash != "")
  }

  /** Between two issues at most one guess is accepted, never after five wrong ones, and an address
      counts as verified only after an acceptance or an explicit mark. */
  lemma {:induction false} CodesAreSingleUse(es: seq<Event>)
    requires RealHashes(es)
    ensures var a := Ran(es);
      && a.used + (if a.row.Some? && a.row.value.codeHash != "" then 1 else 0) <= 1
      && a.wrong <= MAX_ATTEMPTS
      && (a.row.None? ==> a.wrong == 0)
      && (a.row.Some? ==> a.wrong == a.row.value.attempts)
      && (a.row.Some? && a.row.value.verifiedAt.Some? ==> a.accepted + a.marks > 0)
  {
    if es != [] {
      var init := es[..|es| - 1];
      assert forall e <- init :: e in es;
      CodesAreSingleUse(init);
      assert es[|es| - 1] in es;
    }
  }

  /** The guesses of a run, after a code was issued, that come in time. */
  function InTime(guesses: seq<Event>, issuedAt: int): set<int> {
    set k | 0 <= k < |guesses| && guesses[k].now <= issuedAt + 30
  }

  predicate WrongGuesses(guesses: seq<Event>, codeHash: string) {
    forall e <- guesses :: e.Guess? && e.guessHash != codeHash
  }

  lemma {:induction false} InTimeMore(guesses: seq<Event>, last: Event, issuedAt: int)
    ensures |InTime(guesses + [last], issuedAt)|
      == |InTime(guesses, issuedAt)| + if last.now <= issuedAt + 30 then 1 else 0
  {
    var more := guesses + [last];
    assert InTime(more, issuedAt) == InTime(guesses, issuedAt) + if last.now <= issuedAt + 30 then {|guesses|} else {};
  }

  lemma {:induction false} WrongGuessesCount(es: seq<Event>, codeHash: string, issuedAt: int, guesses: seq<Event>)
    requires WrongGuesses(guesses, codeHash)
    ensures var row := Ran(es + [Issue(codeHash, issuedAt)] + guesses).row;
      && row.Some? && row.value.codeHash == codeHash && row.value.expiresAt == issuedAt + 30
      && row.value.attempts == if |InTime(guesses, issuedAt)| < 5 then |InTime(guesses, issuedAt)| else 5
    decreases |guesses|
  {
    var issued := es + [Issue(codeHash, issuedAt)];
    if guesses == [] {
      assert issued + guesses == issued && issued[..|es|] == es;
      assert InTime([], issuedAt) == {};
    } else {
      var init, last := guesses[..|guesses| - 1], guesses[|guesses| - 1];
      assert guesses == init + [last] && last in guesses;
      assert (issued + guesses)[..|issued + guesses| - 1] == issued + init;
      WrongGuessesCount(es, codeHash, issuedAt, init);
      InTimeMore(init, last, issuedAt);
      hide InTime;
    }
  }

  /** Whatever came before, a code issued and then guessed wrong any number of times opens for its own hash
      if and only if it is tried within thirty minutes and fewer than five of the wrong guesses were. */
  lemma {:induction false} CodeOpensExactly(es: seq<Event>, codeHash: string, issuedAt: int, guesses: seq<Event>,
                                            now: int)
    requires WrongGuesses(guesses, codeHash)
    ensures Guessed(Ran(es + [Issue(codeHash, issuedAt)] + guesses).row, codeHash, now).0
      <==> now <= issuedAt + 30 && |InTime(guesses, issuedAt)| < 5
  {
    WrongGuessesCount(es, codeHash, issuedAt, guesses);
    hide Ran, InTime;
  }
}
