/**
 Two handlers of one call whose service calls both read before either writes: exactly when presence set and
 table disagree afterwards.
 */
module CallLostRows {
  import opened Common
  import opened CallModel
  import opened CallPresence
  import opened CallOverlap
  import opened CallRaces
  import opened CallUpdates
  import opened CallPhases

  /** A handler's request, and when its service call writes. */
  datatype Request = Request(user: UserId, op: Op, at: int)

  function Waiter(call: CallId, row: Call, r: Request): Section {
    Section(call, r.user, r.op, Asked(row, r.user, r.op, r.at))
  }

  predicate Saves(row: Call, r: Request) {
    SavesCall(row, r.user, r.op, r.at)
  }

  /** The table after both have written what they made of the row they read. */
  function Twice(row: Call, a: Request, b: Request): Call {
    Written(Written(row, row, a.user, a.op, a.at), row, b.user, b.op, b.at)
  }

  /** The handler looked, found what it needs, and is polite. */
  ghost predicate Ready(v: CallView, r: Request) {
    && Starts(v, r.user, r.op, r.at)
    && (r.op.Accepting? ==> Listed(v.row.participants, r.user))
    && (r.op.Declining? ==> r.user !in Present(v))
  }

  // ----- Who is JOINED ----------------------------------------------------------------------------------

  /** After one service call the table says what the presence set will. */
  lemma AskedJoined(call: CallId, v: CallView, r: Request, user: UserId)
    requires Synced(v) && Ready(v, r)
    ensures var p := Waiter(call, v.row, r);
            var after := RowAfter(v.row, p.answer).participants;
            && UniqueUsers(after)
            && (user in JoinedUsers(after) <==> LetsIn(p, user) || (user in Present(v) && !TakesOut(p, user)))
  {
    var p := Waiter(call, v.row, r);
    HalvesMakeWhole(v, r.user, r.op, r.at);
    WholeKeepsSync(v, r.user, r.op, r.at);
    PresentAfter(v.(row := RowAfter(v.row, p.answer)), p, user);
  }

  lemma PutJoined(ps: seq<Participant>, p: Participant, user: UserId)
    requires UniqueUsers(ps)
    ensures UniqueUsers(PutRow(ps, p))
    ensures user in JoinedUsers(PutRow(ps, p)) <==>
              if Listed(ps, p.user) && user == p.user then p.status.Joined? else user in JoinedUsers(ps)
  {
    var i := IndexOf(ps, p.user);
    ListedIffFound(ps, p.user);
    if i >= 0 {
      JoinedAfterUpdate(ps, i, p);
    }
  }

  /** Whom a write of one participant row takes out of the JOINED ones: a leaver who was one when it read. */
  predicate WritesOut(v: CallView, q: Section, user: UserId) {
    q.answer.Answered? &&
    match q.op
    case Declining => q.user == user && IndexOf(v.row.participants, user) >= 0
    case HangingUp => q.user == user && user in Present(v)
    case Dropping => q.user == user && user in Present(v)
    case Kicking(target) => target == user
    case _ => false
  }

  ghost predicate StillListed(row: Call, mid: Call) {
    forall u | Listed(row.participants, u) :: Listed(mid.participants, u)
  }

  /** A participant row written over a table that went on since it was read. */
  lemma StaleJoined(call: CallId, v: CallView, mid: Call, r: Request, user: UserId)
    requires Synced(v) && Ready(v, r) && !Saves(v.row, r)
    requires UniqueUsers(mid.participants) && StillListed(v.row, mid)
    ensures var q := Waiter(call, v.row, r);
            var after := Written(mid, v.row, r.user, r.op, r.at).participants;
            && (UniqueUsers(after) <==> !(r.op.Adding? && q.answer.Answered? && Listed(mid.participants, r.op.target)))
            && (user in JoinedUsers(after) <==>
                  LetsIn(q, user) || (user in JoinedUsers(mid.participants) && !WritesOut(v, q, user)))
  {
    var q := Waiter(call, v.row, r);
    if q.answer.Answered? {
      if r.op.Adding? {
        AddedJoined(mid.participants, r.op.target, user);
      } else {
        StaleIndex(v, r);
        var i := SavedIndex(v.row, r.user, r.op);
        if i >= 0 {
          PutJoined(mid.participants, q.answer.call.participants[i], user);
        }
      }
    }
  }

  lemma AddedJoined(ps: seq<Participant>, target: UserId, user: UserId)
    requires UniqueUsers(ps)
    ensures UniqueUsers(ps + [InviteRow(target)]) <==> !Listed(ps, target)
    ensures user in JoinedUsers(ps + [InviteRow(target)]) <==> user in JoinedUsers(ps)
  {
    var after := ps + [InviteRow(target)];
    assert after[|ps|].user == target;
    assert forall i | 0 <= i < |ps| :: after[i] == ps[i];
    assert forall p :: p in after <==> p in ps || p == InviteRow(target);
  }

  /** The row that is written: whose it is, whether it says JOINED, and that there is one. */
  lemma StaleIndex(v: CallView, r: Request)
    requires Synced(v) && Ready(v, r) && !Saves(v.row, r) && !r.op.Adding? && Asked(v.row, r.user, r.op, r.at).Answered?
    ensures var a, i := Asked(v.row, r.user, r.op, r.at), SavedIndex(v.row, r.user, r.op);
            && i < |a.call.participants|
            && (i >= 0 ==> Subject(r.user, r.op) == Some(a.call.participants[i].user))
            && (i >= 0 ==> Listed(v.row.participants, a.call.participants[i].user))
            && (i >= 0 ==> (a.call.participants[i].status.Joined? <==> r.op.Accepting?))
            && (r.op.Accepting? || r.op.Kicking? ==> i >= 0)
            && (r.op.Declining? ==> (i >= 0 <==> Listed(v.row.participants, r.user)))
            && (r.op.HangingUp? || r.op.Dropping? ==> (i >= 0 <==> r.user in Present(v)))
  {
    var ps := v.row.participants;
    ListedIffFound(ps, r.user);
    JoinedMember(ps, r.user);
    if IndexOf(ps, r.user) >= 0 {
      assert forall k | 0 <= k < |ps| && ps[k].user == r.user :: k == IndexOf(ps, r.user);
    }
  }

  lemma {:induction false} WrittenStaysListed(row: Call, r: Request, user: UserId)
    requires UniqueUsers(row.participants)
    ensures var after := Written(row, row, r.user, r.op, r.at).participants;
            Listed(after, user) <==>
                Listed(row.participants, user) ||
                  (r.op.Adding? && Asked(row, r.user, r.op, r.at).Answered? && r.op.target == user)
  {
    UndisturbedIsAtomic(row, r.user, r.op, r.at);
    var ps, after := row.participants, Written(row, row, r.user, r.op, r.at).participants;
    assert forall i | 0 <= i < |ps| :: i < |after| && after[i].user == ps[i].user;
    if Listed(ps, user) {
      var i :| 0 <= i < |ps| && ps[i].user == user;
      assert after[i].user == user;
    }
    if r.op.Adding? && Asked(row, r.user, r.op, r.at).Answered? {
      assert after[|ps|].user == r.op.target;
    } else {
      assert |after| == |ps|;
    }
  }

  // ----- The condition ----------------------------------------------------------------------------------

  /** A second half changes whether a user is present. */
  predicate Changes(present: set<UserId>, p: Section, user: UserId) {
    (LetsIn(p, user) && user !in present) || (TakesOut(p, user) && user in present)
  }

  /** The second one hangs up or declines for a user without having seen that the first one lets them in. */
  predicate Unseen(v: CallView, p: Section, q: Section) {
    (q.op.HangingUp? || q.op.Declining?) && LetsIn(p, q.user) && q.user !in Present(v)
  }

  predicate SameInvitation(p: Section, q: Section) {
    p.op.Adding? && q.op.Adding? && p.op.target == q.op.target && p.answer.Answered? && q.answer.Answered?
  }

  /**
   What the second write loses. Saving the call, it writes the rows as read over whatever the first one changed
   for a user it does not itself let in or take out; saving one row, it loses only what is about the same user.
   */
  ghost predicate Loses(v: CallView, p: Section, q: Section, saves: bool) {
    if saves then exists user :: Changes(Present(v), p, user) && !LetsIn(q, user) && !TakesOut(q, user)
    else Unseen(v, p, q) || SameInvitation(p, q)
  }

  /** Who is JOINED in the end. */
  lemma TwiceJoined(call: CallId, v: CallView, a: Request, b: Request, user: UserId)
    requires Synced(v) && Ready(v, a) && Ready(v, b)
    ensures var p, q := Waiter(call, v.row, a), Waiter(call, v.row, b);
            var after := Twice(v.row, a, b).participants;
            var first := LetsIn(p, user) || (user in Present(v) && !TakesOut(p, user));
            && (UniqueUsers(after) <==> Saves(v.row, b) || !SameInvitation(p, q))
            && (user in JoinedUsers(after) <==>
                  if Saves(v.row, b) then LetsIn(q, user) || (user in Present(v) && !TakesOut(q, user))
                  else LetsIn(q, user) || (first && !WritesOut(v, q, user)))
  {
    var mid := Written(v.row, v.row, a.user, a.op, a.at);
    UndisturbedIsAtomic(v.row, a.user, a.op, a.at);
    AskedJoined(call, v, a, user);
    if Saves(v.row, b) {
      AskedJoined(call, v, b, user);
    } else {
      forall u | Listed(v.row.participants, u) ensures Listed(mid.participants, u) {
        WrittenStaysListed(v.row, a, u);
      }
      StaleJoined(call, v, mid, b, user);
      if b.op.Adding? {
        WrittenStaysListed(v.row, a, b.op.target);
        ListedIffFound(v.row.participants, b.op.target);
      }
    }
  }

  function InTurn(v: CallView, row: Call, p: Section, q: Section): CallView {
    Ran(Ran(v.(row := row), p), q)
  }

  /** Details never outlive presence, so three conjuncts come down to two. */
  lemma SyncedInTurn(v: CallView, row: Call, p: Section, q: Section)
    requires InfoOf(v).Keys <= Present(v)
    ensures var after := InTurn(v, row, p, q);
            Synced(after) <==> UniqueUsers(row.participants) && Present(after) == JoinedUsers(row.participants)
  {
    var w := v.(row := row);
    RestKnowsOnlyPresent(w, p.user, p.op, p.answer);
    RestKnowsOnlyPresent(Ran(w, p), q.user, q.op, q.answer);
    TimerAfter(w, p);
    TimerAfter(Ran(w, p), q);
  }

  lemma PresentInTurn(v: CallView, row: Call, p: Section, q: Section, user: UserId)
    ensures user in Present(InTurn(v, row, p, q)) <==>
              LetsIn(q, user) || ((LetsIn(p, user) || (user in Present(v) && !TakesOut(p, user))) && !TakesOut(q, user))
  {
    PresentAfter(v.(row := row), p, user);
    PresentAfter(Ran(v.(row := row), p), q, user);
  }

  /** One user, the rests in the order of the writes: present and JOINED differ where the second write loses. */
  lemma DiffersInOrder(call: CallId, v: CallView, a: Request, b: Request, user: UserId)
    requires Synced(v) && Ready(v, a) && Ready(v, b)
    ensures var p, q, row := Waiter(call, v.row, a), Waiter(call, v.row, b), Twice(v.row, a, b);
            (user in Present(InTurn(v, row, p, q)) <==> user in JoinedUsers(row.participants)) <==>
            if Saves(v.row, b) then !(Changes(Present(v), p, user) && !LetsIn(q, user) && !TakesOut(q, user))
            else !(user == b.user && Unseen(v, p, q))
  {
    var p, q := Waiter(call, v.row, a), Waiter(call, v.row, b);
    TwiceJoined(call, v, a, b, user);
    PresentInTurn(v, Twice(v.row, a, b), p, q, user);
    ListedIffFound(v.row.participants, user);
    if b.op.HangingUp? || b.op.Dropping? {
      EndingSaves(v, b);
    }
  }

  /** Whoever ends a call saves it. */
  lemma EndingSaves(v: CallView, r: Request)
    requires r.op.HangingUp? || r.op.Dropping?
    ensures Asked(v.row, r.user, r.op, r.at) == Answered(EndRow(v.row, r.user, r.at), Saves(v.row, r))
  {
  }

  /** The rests in the order of the writes. */
  lemma InOrderExactly(call: CallId, v: CallView, a: Request, b: Request)
    requires Synced(v) && Ready(v, a) && Ready(v, b)
    ensures var p, q := Waiter(call, v.row, a), Waiter(call, v.row, b);
            Synced(InTurn(v, Twice(v.row, a, b), p, q)) <==> !Loses(v, p, q, Saves(v.row, b))
  {
    var p, q, row := Waiter(call, v.row, a), Waiter(call, v.row, b), Twice(v.row, a, b);
    var after := InTurn(v, row, p, q);
    SyncedInTurn(v, row, p, q);
    TwiceJoined(call, v, a, b, b.user);
    DiffersInOrder(call, v, a, b, b.user);
    forall user ensures (user in Present(after) <==> user in JoinedUsers(row.participants)) <==>
        if Saves(v.row, b) then !(Changes(Present(v), p, user) && !LetsIn(q, user) && !TakesOut(q, user))
        else !(user == b.user && Unseen(v, p, q))
    {
      DiffersInOrder(call, v, a, b, user);
    }
  }

  /** One user whom one handler lets in and the other takes out, the rests in the other order. */
  lemma ConflictReversed(call: CallId, v: CallView, a: Request, b: Request)
    requires Synced(v) && Ready(v, a) && Ready(v, b)
    requires Conflict(Waiter(call, v.row, a), Waiter(call, v.row, b))
    ensures var p, q, row := Waiter(call, v.row, a), Waiter(call, v.row, b), Twice(v.row, a, b);
            Synced(InTurn(v, row, q, p)) <==> !Saves(v.row, b) && Unseen(v, p, q)
  {
    var p, q, row := Waiter(call, v.row, a), Waiter(call, v.row, b), Twice(v.row, a, b);
    var after := InTurn(v, row, q, p);
    SyncedInTurn(v, row, q, p);
    if b.op.HangingUp? || b.op.Dropping? {
      EndingSaves(v, b);
    }
    var loser := if LetsIn(p, p.user) && TakesOut(q, p.user) then p.user else q.user;
    TwiceJoined(call, v, a, b, loser);
    PresentInTurn(v, row, q, p, loser);
    if !Saves(v.row, b) && Unseen(v, p, q) {
      forall user ensures user in Present(after) <==> user in JoinedUsers(row.participants) {
        TwiceJoined(call, v, a, b, user);
        PresentInTurn(v, row, q, p, user);
      }
    }
  }

  /** The rests in the other order: without conflict it makes no difference. */
  lemma ReversedExactly(call: CallId, v: CallView, a: Request, b: Request)
    requires Synced(v) && Ready(v, a) && Ready(v, b)
    ensures var p, q := Waiter(call, v.row, a), Waiter(call, v.row, b);
            Synced(InTurn(v, Twice(v.row, a, b), q, p)) <==>
            if Conflict(p, q) then !Saves(v.row, b) && Unseen(v, p, q) else !Loses(v, p, q, Saves(v.row, b))
  {
    var p, q, row := Waiter(call, v.row, a), Waiter(call, v.row, b), Twice(v.row, a, b);
    if Conflict(p, q) {
      ConflictReversed(call, v, a, b);
    } else {
      InOrderExactly(call, v, a, b);
      OrderMattersExactly(v.(row := row), p, q);
      SyncedInTurn(v, row, p, q);
      SyncedInTurn(v, row, q, p);
    }
  }

  // ----- As runs ----------------------------------------------------------------------------------------

  function LookOf(call: CallId, r: Request, at: int): Phase {
    Look(call, r.user, r.op, at)
  }

  /** Both read, a writes before b, and the rests run in the order of the writes or in the other one. */
  function BothReadFirst(call: CallId, a: Request, b: Request, atA: int, atB: int, inOrder: bool): seq<Phase> {
    [LookOf(call, a, atA), LookOf(call, b, atB), Store(0, a.at), Store(0, b.at),
     Conclude(if inOrder then 0 else 1), Conclude(0)]
  }

  lemma RunOfSix(s: Phases, phases: seq<Phase>)
    requires |phases| == 6
    ensures AfterPhases(s, phases) ==
            AfterPhase(AfterPhase(AfterPhase(AfterPhase(AfterPhase(AfterPhase(s, phases[0]), phases[1]), phases[2]),
                                             phases[3]), phases[4]), phases[5])
  {
    RunOfThree(s, phases);
    RunOfThree(AfterPhase(AfterPhase(AfterPhase(s, phases[0]), phases[1]), phases[2]), phases[3..]);
    assert phases[3..][3..] == [];
  }

  lemma RunOfThree(s: Phases, phases: seq<Phase>)
    requires |phases| >= 3
    ensures AfterPhases(s, phases) ==
            AfterPhases(AfterPhase(AfterPhase(AfterPhase(s, phases[0]), phases[1]), phases[2]), phases[3..])
  {
    var s1 := AfterPhase(s, phases[0]);
    var s2 := AfterPhase(s1, phases[1]);
    assert phases[1..][1..] == phases[2..] && phases[2..][1..] == phases[3..];
    assert AfterPhases(s, phases) == AfterPhases(s1, phases[1..]);
    assert AfterPhases(s1, phases[1..]) == AfterPhases(s2, phases[2..]);
  }

  lemma BothReadFirstRun(s: Phases, call: CallId, a: Request, b: Request, atA: int, atB: int, inOrder: bool)
    requires s.readings == [] && s.pending == [] && call in s.views
    requires Starts(s.views[call], a.user, a.op, atA) && Starts(s.views[call], b.user, b.op, atB)
    ensures var v, after := s.views[call], AfterPhases(s, BothReadFirst(call, a, b, atA, atB, inOrder));
            var p, q := Waiter(call, v.row, a), Waiter(call, v.row, b);
            && after.readings == [] && after.pending == [] && call in after.views
            && after.views[call] ==
              if inOrder then InTurn(v, Twice(v.row, a, b), p, q) else InTurn(v, Twice(v.row, a, b), q, p)
  {
    var v, phases := s.views[call], BothReadFirst(call, a, b, atA, atB, inOrder);
    var p, q := Waiter(call, v.row, a), Waiter(call, v.row, b);
    RunOfSix(s, phases);
    var s2 := AfterPhase(AfterPhase(s, phases[0]), phases[1]);
    assert s2.readings == [Reading(call, a.user, a.op, v.row), Reading(call, b.user, b.op, v.row)];
    var s3 := AfterPhase(s2, phases[2]);
    assert s3.readings == [Reading(call, b.user, b.op, v.row)] && s3.pending == [p];
    var s4 := AfterPhase(s3, phases[3]);
    assert s4.readings == [] && s4.pending == [p, q];
    assert s4.views[call] == v.(row := Twice(v.row, a, b));
    var s5 := AfterPhase(s4, phases[4]);
    assert s5.pending == [if inOrder then q else p];
  }

  /**
   Any two handlers of a call whose service calls both read first, in either order of their rests: presence set
   and table agree afterwards if and only if the second write loses nothing and the rests do not overtake in
   conflict; or do so where a leaver had not seen their own accept, which then is right by accident.
   */
  lemma BothReadFirstExactly(s: Phases, call: CallId, a: Request, b: Request, atA: int, atB: int, inOrder: bool)
    requires s.readings == [] && s.pending == [] && call in s.views && Synced(s.views[call])
    requires Starts(s.views[call], a.user, a.op, atA) && Starts(s.views[call], b.user, b.op, atB)
    requires Ready(s.views[call], a) && Ready(s.views[call], b)
    ensures var v, after := s.views[call], AfterPhases(s, BothReadFirst(call, a, b, atA, atB, inOrder));
            var p, q := Waiter(call, v.row, a), Waiter(call, v.row, b);
            && after.readings == [] && after.pending == [] && call in after.views
            && (Synced(after.views[call]) <==>
                  if !inOrder && Conflict(p, q) then !Saves(v.row, b) && Unseen(v, p, q)
                  else !Loses(v, p, q, Saves(v.row, b)))
  {
    BothReadFirstRun(s, call, a, b, atA, atB, inOrder);
    if inOrder {
      InOrderExactly(call, s.views[call], a, b);
    } else {
      ReversedExactly(call, s.views[call], a, b);
    }
  }

  /**
   In every ringing call two invited users who accept at once lose the first one's JOINED row, in any order of
   the rests and without conflict: they are in the presence set, and the table says INVITED again.
   */
  lemma TwoAcceptsLoseOne(s: Phases, call: CallId, a: Request, b: Request, inOrder: bool)
    requires s.readings == [] && s.pending == [] && call in s.views && Synced(s.views[call])
    requires a.op.Accepting? && b.op.Accepting? && a.user != b.user && s.views[call].row.status.Ringing?
    requires Ready(s.views[call], a) && Ready(s.views[call], b) && a.user !in Present(s.views[call])
    ensures var v, after := s.views[call], AfterPhases(s, BothReadFirst(call, a, b, a.at, b.at, inOrder));
            && call in after.views && after.readings == [] && after.pending == []
            && a.user in Present(after.views[call]) && a.user !in JoinedUsers(after.views[call].row.participants)
            && RowFor(after.views[call].row.participants, a.user) == RowFor(v.row.participants, a.user)
  {
    var v := s.views[call];
    var p, q, row := Waiter(call, v.row, a), Waiter(call, v.row, b), Twice(v.row, a, b);
    BothReadFirstRun(s, call, a, b, a.at, b.at, inOrder);
    TwiceJoined(call, v, a, b, a.user);
    PresentInTurn(v, row, p, q, a.user);
    PresentInTurn(v, row, q, p, a.user);
    AcceptOthers(v.row, b.user, b.at, a.user);
    if inOrder {
      TimerAfter(v.(row := row), p);
      TimerAfter(Ran(v.(row := row), p), q);
    } else {
      TimerAfter(v.(row := row), q);
      TimerAfter(Ran(v.(row := row), q), p);
    }
  }

  lemma AcceptOthers(row: Call, user: UserId, now: int, other: UserId)
    requires user != other
    ensures RowFor(AcceptRow(row, user, now).participants, other) == RowFor(row.participants, other)
  {
    var i := IndexOf(row.participants, user);
    if i >= 0 {
      var p := row.participants[i].(status := Joined, joinedAt := Some(now));
      PutRowOthers(row.participants, p, other);
    }
  }
}
