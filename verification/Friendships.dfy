/** Friendship as two directed edges per pair of accounts, and the one pair-state machine they
    amount to. */
module Friendships {
  import opened Occurrences

  datatype Status = Pending | Accepted | Blocked

  type Edge = (string, string, string)

  datatype Relationship = Friends | PendingOut | PendingIn | BlockedThem | BlockedBy | Strangers

  datatype Refusal = Yourself | TheyBlockedYou | YouBlockedThem | NoRequest

  datatype Asked = Now(relationship: Relationship) | Refused(why: Refusal)

  class FriendshipStore {
    var edges: map<Edge, Status>
    var closedDoors: set<(string, string)>

    constructor ()
      ensures edges == map[] && closedDoors == {}
    {
      edges, closedDoors := map[], {};
    }

    function EdgeStatus(tenant: string, owner: string, peer: string): Option<Status>
      reads this
    {
      if (tenant, owner, peer) in edges then Some(edges[(tenant, owner, peer)]) else None
    }

    /** Both directions between two accounts, mine first. */
    function Pair(tenant: string, me: string, other: string): PairState
      reads this
    {
      PairState(EdgeStatus(tenant, me, other), EdgeStatus(tenant, other, me))
    }

    /** Nothing but the two edges of this pair may have moved. */
    twostate predicate OnlyPair(tenant: string, a: string, b: string)
      reads this
    {
      forall e: Edge :: e != (tenant, a, b) && e != (tenant, b, a) ==>
        (e in edges <==> e in old(edges)) && (e in edges ==> edges[e] == old(edges)[e])
    }

    function RelationshipOf(tenant: string, me: string, other: string): Relationship
      reads this
    {
      Standing(Pair(tenant, me, other))
    }

    /** A blocked sender never may; a friend always may; a stranger unless the door is closed. */
    function MayMessage(tenant: string, sender: string, recipient: string): bool
      reads this
    {
      if EdgeStatus(tenant, recipient, sender) == Some(Blocked) then false
      else if EdgeStatus(tenant, recipient, sender) == Some(Accepted) then true
      else (tenant, recipient) !in closedDoors
    }

    method Set(tenant: string, owner: string, peer: string, status: Status)
      modifies this`edges
      ensures edges == old(edges)[(tenant, owner, peer) := status]
    {
      edges := edges[(tenant, owner, peer) := status];
    }

    method Clear(tenant: string, owner: string, peer: string)
      modifies this`edges
      ensures edges == old(edges) - {(tenant, owner, peer)}
    {
      edges := edges - {(tenant, owner, peer)};
    }

    method Request(tenant: string, requester: string, target: string) returns (asked: Asked)
      modifies this`edges
      ensures requester == target ==> asked == Refused(Yourself) && edges == old(edges)
      ensures OnlyPair(tenant, requester, target)
      ensures requester != target ==>
        (asked, Pair(tenant, requester, target)) == OnRequest(old(Pair(tenant, requester, target)))
    {
      if requester == target {
        return Refused(Yourself);
      }
      if EdgeStatus(tenant, target, requester) == Some(Blocked) {
        return Refused(TheyBlockedYou);
      }
      if EdgeStatus(tenant, requester, target) == Some(Blocked) {
        return Refused(YouBlockedThem);
      }
      if EdgeStatus(tenant, requester, target) == Some(Accepted) {
        return Now(Friends);
      }
      if EdgeStatus(tenant, target, requester) == Some(Pending) {
        AcceptPair(tenant, requester, target);
        return Now(Friends);
      }
      Set(tenant, requester, target, Pending);
      return Now(PendingOut);
    }

    method AcceptPair(tenant: string, a: string, b: string)
      modifies this`edges
      ensures edges == old(edges)[(tenant, a, b) := Accepted][(tenant, b, a) := Accepted]
    {
      Set(tenant, a, b, Accepted);
      Set(tenant, b, a, Accepted);
    }

    method Accept(tenant: string, me: string, requester: string) returns (ok: bool)
      modifies this`edges
      ensures OnlyPair(tenant, me, requester)
      ensures ok <==> old(EdgeStatus(tenant, requester, me)) == Some(Pending)
      ensures edges == if ok then old(edges)[(tenant, me, requester) := Accepted][(tenant, requester, me) := Accepted]
                       else old(edges)
      ensures me != requester ==> (ok, Pair(tenant, me, requester)) == OnAccept(old(Pair(tenant, me, requester)))
    {
      if EdgeStatus(tenant, requester, me) != Some(Pending) {
        return false;
      }
      AcceptPair(tenant, me, requester);
      return true;
    }

    method Decline(tenant: string, me: string, requester: string) returns (ok: bool)
      modifies this`edges
      ensures OnlyPair(tenant, me, requester)
      ensures ok <==> old(EdgeStatus(tenant, requester, me)) == Some(Pending)
      ensures edges == if ok then old(edges) - {(tenant, requester, me)} else old(edges)
      ensures me != requester ==> (ok, Pair(tenant, me, requester)) == OnDecline(old(Pair(tenant, me, requester)))
    {
      if EdgeStatus(tenant, requester, me) != Some(Pending) {
        return false;
      }
      Clear(tenant, requester, me);
      return true;
    }

    method Block(tenant: string, me: string, other: string)
      modifies this`edges
      ensures OnlyPair(tenant, me, other)
      ensures me != other ==> Pair(tenant, me, other) == PairState(Some(Blocked), None)
    {
      Clear(tenant, other, me);
      Clear(tenant, me, other);
      Set(tenant, me, other, Blocked);
    }

    method Unblock(tenant: string, me: string, other: string)
      modifies this`edges
      ensures OnlyPair(tenant, me, other)
      ensures edges == if old(EdgeStatus(tenant, me, other)) == Some(Blocked) then old(edges) - {(tenant, me, other)}
                       else old(edges)
      ensures me != other ==> Pair(tenant, me, other) == OnUnblock(old(Pair(tenant, me, other)))
    {
      if EdgeStatus(tenant, me, other) == Some(Blocked) {
        Clear(tenant, me, other);
      }
    }

    method Remove(tenant: string, me: string, other: string)
      modifies this`edges
      ensures OnlyPair(tenant, me, other)
      ensures me != other ==> Pair(tenant, me, other) == PairState(None, None)
    {
      Clear(tenant, me, other);
      Clear(tenant, other, me);
    }
  }

  /** Of two accounts in a coherent pair, the sender may write exactly if they are friends, or if the
      recipient has not blocked the sender and keeps an open door. */
  lemma {:induction false} WhoMayWrite(s: FriendshipStore, tenant: string, sender: string, recipient: string)
    requires Coherent(s.Pair(tenant, sender, recipient))
    ensures var r := s.RelationshipOf(tenant, sender, recipient);
      s.MayMessage(tenant, sender, recipient) <==>
        (r == Friends || (r != BlockedBy && (tenant, recipient) !in s.closedDoors))
  {
    var p := s.Pair(tenant, sender, recipient);
    assert p.theirs == s.EdgeStatus(tenant, recipient, sender);
  }

  // ---- One pair of distinct accounts ----

  datatype PairState = PairState(mine: Option<Status>, theirs: Option<Status>)
  {
    function Turned(): PairState {
      PairState(theirs, mine)
    }
  }

  function Standing(p: PairState): Relationship {
    if p.mine == Some(Accepted) then Friends
    else if p.mine == Some(Blocked) then BlockedThem
    else if p.theirs == Some(Blocked) then BlockedBy
    else if p.mine == Some(Pending) then PendingOut
    else if p.theirs == Some(Pending) then PendingIn
    else Strangers
  }

  function OnRequest(p: PairState): (Asked, PairState) {
    if p.theirs == Some(Blocked) then (Refused(TheyBlockedYou), p)
    else if p.mine == Some(Blocked) then (Refused(YouBlockedThem), p)
    else if p.mine == Some(Accepted) then (Now(Friends), p)
    else if p.theirs == Some(Pending) then (Now(Friends), PairState(Some(Accepted), Some(Accepted)))
    else (Now(PendingOut), p.(mine := Some(Pending)))
  }

  function OnAccept(p: PairState): (bool, PairState) {
    if p.theirs == Some(Pending) then (true, PairState(Some(Accepted), Some(Accepted))) else (false, p)
  }

  function OnDecline(p: PairState): (bool, PairState) {
    if p.theirs == Some(Pending) then (true, p.(theirs := None)) else (false, p)
  }

  function OnUnblock(p: PairState): PairState {
    if p.mine == Some(Blocked) then p.(mine := None) else p
  }

  datatype Act = Request | Accept | Decline | Block | Unblock | Remove

  /** A move of mine, or, turned around, of theirs. */
  datatype Move = Mine(act: Act) | Theirs(act: Act)

  function Acted(p: PairState, act: Act): PairState {
    match act
    case Request => OnRequest(p).1
    case Accept => OnAccept(p).1
    case Decline => OnDecline(p).1
    case Block => PairState(Some(Blocked), None)
    case Unblock => OnUnblock(p)
    case Remove => PairState(None, None)
  }

  function Moved(p: PairState, m: Move): PairState {
    match m
    case Mine(act) => Acted(p, act)
    case Theirs(act) => Acted(p.Turned(), act).Turned()
  }

  function Played(moves: seq<Move>): PairState {
    if moves == [] then PairState(None, None) else Moved(Played(moves[..|moves| - 1]), moves[|moves| - 1])
  }

  /** Nothing, one way pending, both accepted, one way blocked. */
  predicate Coherent(p: PairState) {
    p in {PairState(None, None), PairState(Some(Pending), None), PairState(None, Some(Pending)),
          PairState(Some(Accepted), Some(Accepted)), PairState(Some(Blocked), None), PairState(None, Some(Blocked))}
  }

  function Mirror(r: Relationship): Relationship {
    match r
    case Friends => Friends
    case PendingOut => PendingIn
    case PendingIn => PendingOut
    case BlockedThem => BlockedBy
    case BlockedBy => BlockedThem
    case Strangers => Strangers
  }

  /** Whatever the two accounts do in whatever order, the pair stays coherent, and each side sees
      the mirror image of what the other sees. */
  lemma {:induction false} PairStaysCoherent(moves: seq<Move>)
    ensures Coherent(Played(moves))
    ensures Standing(Played(moves).Turned()) == Mirror(Standing(Played(moves)))
  {
    if moves != [] {
      PairStaysCoherent(moves[..|moves| - 1]);
    }
  }

  lemma {:induction false} PlayedOne(moves: seq<Move>, m: Move)
    ensures Played(moves + [m]) == Moved(Played(moves), m)
  {
    assert (moves + [m])[..|moves|] == moves;
    hide Moved;
  }

  /** How each side stands after one more move of mine, by how I stood before. */
  function After(r: Relationship, act: Act): Relationship {
    match act
    case Block => BlockedThem
    case Remove => Strangers
    case Unblock => if r == BlockedThem then Strangers else r
    case Decline => if r == PendingIn then Strangers else r
    case Accept => if r == PendingIn then Friends else r
    case Request => if r == PendingIn then Friends else if r == Strangers then PendingOut else r
  }

  /** Accounts start as strangers, and every move of mine, whatever was played before, takes me to the
      relationship named, and the other side to its mirror image. */
  lemma {:induction false} MovesTellTheStanding(moves: seq<Move>, act: Act)
    ensures Standing(Played([])) == Strangers
    ensures var r, p := Standing(Played(moves)), Played(moves + [Mine(act)]);
      Standing(p) == After(r, act) && Standing(p.Turned()) == Mirror(After(r, act))
    ensures var r, p := Standing(Played(moves).Turned()), Played(moves + [Theirs(act)]);
      Standing(p.Turned()) == After(r, act) && Standing(p) == Mirror(After(r, act))
  {
    PairStaysCoherent(moves);
    PlayedOne(moves, Mine(act));
    PlayedOne(moves, Theirs(act));
    assert Played([]) == PairState(None, None);
    hide Played;
  }

  /** An accept or a decline succeeds exactly on a request of theirs that is pending, a request is refused
      exactly by a block, the other side's first; and what is refused changes nothing. */
  lemma {:induction false} RefusalsChangeNothing(moves: seq<Move>)
    ensures var p := Played(moves);
      && (OnAccept(p).0 <==> Standing(p) == PendingIn) && (!OnAccept(p).0 ==> OnAccept(p).1 == p)
      && (OnDecline(p).0 <==> Standing(p) == PendingIn) && (!OnDecline(p).0 ==> OnDecline(p).1 == p)
      && (OnRequest(p).0 == Refused(TheyBlockedYou) <==> Standing(p) == BlockedBy)
      && (OnRequest(p).0 == Refused(YouBlockedThem) <==> Standing(p) == BlockedThem)
      && (OnRequest(p).0.Refused? ==> OnRequest(p).1 == p)
      && (OnRequest(p).0.Now? ==> OnRequest(p).0.relationship == Standing(OnRequest(p).1))
  {
    PairStaysCoherent(moves);
    hide Played;
  }

  /** From any coherent pair with no block, asking from both sides, in either order, ends in
      friendship. */
  lemma {:induction false} MeetingInTheMiddle(moves: seq<Move>)
    requires Standing(Played(moves)) != BlockedThem && Standing(Played(moves)) != BlockedBy
    ensures Standing(Played(moves + [Mine(Request), Theirs(Request)])) == Friends
    ensures Standing(Played(moves + [Theirs(Request), Mine(Request)])) == Friends
  {
    PairStaysCoherent(moves);
    PlayedTwo(moves, Mine(Request), Theirs(Request));
    PlayedTwo(moves, Theirs(Request), Mine(Request));
    hide Played;
  }

  lemma {:induction false} PlayedTwo(moves: seq<Move>, a: Move, b: Move)
    ensures Played(moves + [a, b]) == Moved(Moved(Played(moves), a), b)
  {
    var all := moves + [a, b];
    assert all[..|all| - 1] == moves + [a];
    assert (moves + [a])[..|moves|] == moves;
    hide Moved;
  }

  /** While a block of mine stands, nothing they do short of a block or a removal of their own
      changes the pair. */
  lemma {:induction false} BlockHolds(moves: seq<Move>, act: Act)
    requires Standing(Played(moves)) == BlockedThem && act != Block && act != Remove
    ensures Played(moves + [Theirs(act)]) == Played(moves)
  {
    PairStaysCoherent(moves);
    assert (moves + [Theirs(act)])[..|moves|] == moves;
  }
}
