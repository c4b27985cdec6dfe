/**
 Handlers of one call that finish in another order than they began: who is present in the end, and exactly
 which pairs of handlers may not overtake each other.
 */
module CallRaces {
  import opened Common
  import opened CallModel
  import opened CallPresence
  import opened CallOverlap

  // ----- What a second half does to the presence set ------------------------------------------------------

  /** The users a second half takes out: everybody at the end of a call, else whoever leaves or is removed. */
  predicate TakesOut(p: Section, user: UserId) {
    p.answer.Answered? &&
    match p.op
    case HangingUp => p.answer.over || p.user == user
    case Dropping => p.answer.over || p.user == user
    case Kicking(target) => target == user
    case _ => false
  }

  predicate LetsIn(p: Section, user: UserId) {
    p.answer.Answered? && p.op.Accepting? && p.user == user
  }

  lemma PresentAfter(v: CallView, p: Section, user: UserId)
    ensures user in Present(Ran(v, p)) <==> LetsIn(p, user) || (user in Present(v) && !TakesOut(p, user))
  {
  }

  /** One lets in a user the other takes out. */
  predicate Conflict(a: Section, b: Section) {
    (LetsIn(a, a.user) && TakesOut(b, a.user)) || (LetsIn(b, b.user) && TakesOut(a, b.user))
  }

  /** The order of two second halves matters for who is present exactly when they conflict. */
  lemma OrderMattersExactly(v: CallView, a: Section, b: Section)
    ensures (Present(Ran(Ran(v, a), b)) == Present(Ran(Ran(v, b), a))) <==> !Conflict(a, b)
  {
    var va, vb := Ran(v, a), Ran(v, b);
    var ab, ba := Ran(va, b), Ran(vb, a);
    forall u: UserId
      ensures u in Present(ab) <==>
                LetsIn(b, u) || ((LetsIn(a, u) || (u in Present(v) && !TakesOut(a, u))) && !TakesOut(b, u))
      ensures u in Present(ba) <==>
                LetsIn(a, u) || ((LetsIn(b, u) || (u in Present(v) && !TakesOut(b, u))) && !TakesOut(a, u))
    {
      PresentAfter(v, a, u);
      PresentAfter(va, b, u);
      PresentAfter(v, b, u);
      PresentAfter(vb, a, u);
    }
    if Conflict(a, b) {
      var u := if LetsIn(a, a.user) && TakesOut(b, a.user) then a.user else b.user;
      assert u in Present(ab) <==> u !in Present(ba);
    }
  }

  // ----- Overtaking -------------------------------------------------------------------------------------

  /** The same row, the same users present and the same ring timer; messages and details may differ. */
  predicate Agree(v: CallView, w: CallView) {
    v.row == w.row && Present(v) == Present(w) && v.timer == w.timer
  }

  lemma DoneAgrees(v: CallView, w: CallView, p: Section, call: CallId)
    requires Agree(v, w)
    ensures Agree(Done(v, p, call), Done(w, p, call))
  {
    forall u: UserId ensures u in Present(Done(v, p, call)) <==> u in Present(Done(w, p, call)) {
      PresentAfter(v, p, u);
      PresentAfter(w, p, u);
    }
  }

  lemma {:induction false} SettledAgrees(v: CallView, w: CallView, pending: seq<Section>, call: CallId)
    requires Agree(v, w)
    ensures Agree(Settled(v, pending, call), Settled(w, pending, call))
    decreases |pending|
  {
    if pending != [] {
      DoneAgrees(v, w, pending[0], call);
      SettledAgrees(Done(v, pending[0], call), Done(w, pending[0], call), pending[1..], call);
    }
  }

  lemma DoneCommutes(v: CallView, a: Section, b: Section, call: CallId)
    requires a.call == call && b.call == call ==> !Conflict(a, b)
    ensures Agree(Done(Done(v, a, call), b, call), Done(Done(v, b, call), a, call))
  {
    if a.call == call && b.call == call {
      OrderMattersExactly(v, a, b);
      TimerAfter(v, a);
      TimerAfter(v, b);
      TimerAfter(Ran(v, a), b);
      TimerAfter(Ran(v, b), a);
    }
  }

  /** A half may run before all earlier ones it has no conflict with. */
  lemma {:induction false} SettledOvertaken(v: CallView, pending: seq<Section>, i: nat, call: CallId)
    requires i < |pending|
    requires pending[i].call == call ==> forall j | 0 <= j < i && pending[j].call == call ::
             !Conflict(pending[j], pending[i])
    ensures Agree(Settled(v, pending, call), Settled(Done(v, pending[i], call), Removed(pending, i), call))
    decreases |pending|
  {
    if i == 0 {
      assert Removed(pending, 0) == pending[1..];
    } else {
      var first, rest := pending[0], pending[1..];
      assert forall j | 0 <= j < |rest| :: rest[j] == pending[j + 1];
      SettledOvertaken(Done(v, first, call), rest, i - 1, call);
      DoneCommutes(v, first, pending[i], call);
      SettledAgrees(Done(Done(v, first, call), pending[i], call),
                    Done(Done(v, pending[i], call), first, call), Removed(rest, i - 1), call);
      assert Removed(pending, i)[1..] == Removed(rest, i - 1);
      assert Removed(pending, i)[0] == first;
    }
  }

  lemma WholeAgrees(v: CallView, w: CallView, user: UserId, op: Op, now: int)
    requires Agree(v, w)
    ensures Agree(Whole(v, user, op, now), Whole(w, user, op, now))
  {
    if Starts(v, user, op, now) {
      var a := Asked(v.row, user, op, now);
      var p := Section("", user, op, a);
      HalvesMakeWhole(v, user, op, now);
      HalvesMakeWhole(w, user, op, now);
      DoneAgrees(v.(row := RowAfter(v.row, a)), w.(row := RowAfter(w.row, a)), p, "");
    }
  }

  ghost predicate AllAgree(views: map<CallId, CallView>, others: map<CallId, CallView>) {
    views.Keys == others.Keys && forall id | id in views :: Agree(views[id], others[id])
  }

  /** A handler overtakes those of the same call it has no conflict with, and no others. */
  ghost predicate Yields(s: Overlap, m: Move) {
    && LooksRight(s, m) && HoldsCurrentSet(s, m)
    && (m.Finish? && m.i < |s.pending| ==>
          forall j | 0 <= j < m.i && s.pending[j].call == s.pending[m.i].call ::
            !Conflict(s.pending[j], s.pending[m.i]))
  }

  ghost predicate YieldingRun(s: Overlap, moves: seq<Move>)
    decreases |moves|
  {
    moves == [] || (Yields(s, moves[0]) && YieldingRun(AfterMove(s, moves[0]), moves[1..]))
  }

  lemma StepAgrees(s: Overlap, m: Move, views: map<CallId, CallView>)
    requires Yields(s, m) && TimersLag(s) && AllAgree(AllSettled(s), views)
    ensures AllAgree(AllSettled(AfterMove(s, m)), WholeStep(views, m))
  {
    var after, whole := AllSettled(AfterMove(s, m)), WholeStep(views, m);
    assert after.Keys == whole.Keys;
    forall id | id in after ensures Agree(after[id], whole[id]) {
      assert Agree(AllSettled(s)[id], views[id]);
      match m
      case Begin(call, user, op, now) =>
        BeginSettles(s, m, id);
        WholeAgrees(AllSettled(s)[id], views[id], user, op, now);
      case Write(call, user, op, now) =>
        BeginSettles(s, m, id);
        WholeAgrees(AllSettled(s)[id], views[id], user, op, now);
      case Finish(i) =>
        if i < |s.pending| {
          SettledOvertaken(s.views[id], s.pending, i, id);
        }
    }
  }

  /**
   Handlers that overtake others of the same call without conflict leave every row, presence set and ring
   timer as the same handlers in one piece do.
   */
  lemma {:induction false} YieldingRunAgrees(s: Overlap, moves: seq<Move>, views: map<CallId, CallView>)
    requires YieldingRun(s, moves) && TimersLag(s) && AllAgree(AllSettled(s), views)
    ensures AllAgree(AllSettled(AfterMoves(s, moves)), WholeRun(views, moves))
    decreases |moves|
  {
    if moves != [] {
      StepAgrees(s, moves[0], views);
      StepKeepsTimersLag(s, moves[0]);
      YieldingRunAgrees(AfterMove(s, moves[0]), moves[1..], WholeStep(views, moves[0]));
    }
  }

  // ----- Presence set and table -------------------------------------------------------------------------

  /** Details are kept of present users only. */
  ghost predicate KnowsOnlyPresent(s: Overlap) {
    forall id | id in s.views :: InfoOf(s.views[id]).Keys <= Present(s.views[id])
  }

  lemma RestKnowsOnlyPresent(v: CallView, user: UserId, op: Op, a: Answer)
    requires InfoOf(v).Keys <= Present(v)
    ensures InfoOf(Rest(v, user, op, a)).Keys <= Present(Rest(v, user, op, a))
  {
  }

  lemma {:induction false} RunKnowsOnlyPresent(s: Overlap, moves: seq<Move>)
    requires KnowsOnlyPresent(s)
    ensures KnowsOnlyPresent(AfterMoves(s, moves))
    decreases |moves|
  {
    if moves != [] {
      var next := AfterMove(s, moves[0]);
      forall id | id in next.views ensures InfoOf(next.views[id]).Keys <= Present(next.views[id]) {
        match moves[0]
        case Begin(_, _, _, _) =>
          assert InfoOf(next.views[id]) == InfoOf(s.views[id]) && Present(next.views[id]) == Present(s.views[id]);
        case Write(_, _, _, _) =>
          assert InfoOf(next.views[id]) == InfoOf(s.views[id]) && Present(next.views[id]) == Present(s.views[id]);
        case Finish(i) =>
          if i < |s.pending| {
            RestKnowsOnlyPresent(s.views[id], s.pending[i].user, s.pending[i].op, s.pending[i].answer);
          }
      }
      RunKnowsOnlyPresent(next, moves[1..]);
    }
  }

  /**
   Presence set and table agree whenever no handler is half-way, however handlers overlapped and overtook each
   other without conflict.
   */
  lemma YieldingRunIsSynced(s: Overlap, moves: seq<Move>)
    requires s.pending == [] && (forall id | id in s.views :: Synced(s.views[id]))
    requires YieldingRun(s, moves) && PoliteMoves(s.views, moves)
    ensures AfterMoves(s, moves).pending == [] ==> forall id | id in AfterMoves(s, moves).views ::
            Synced(AfterMoves(s, moves).views[id])
  {
    NothingPending(s);
    YieldingRunAgrees(s, moves, s.views);
    WholeRunIsSynced(s.views, moves);
    RunKnowsOnlyPresent(s, moves);
    var after := AfterMoves(s, moves);
    if after.pending == [] {
      NothingPending(after);
      forall id | id in after.views ensures Synced(after.views[id]) {
        assert Agree(after.views[id], WholeRun(s.views, moves)[id]);
      }
    }
  }

  // ----- Two handlers, the second done first --------------------------------------------------------------

  /** The half of a handler that waits after it has asked. */
  function Waiting(row: Call, m: Move): Section
    requires m.Begin?
  {
    Section(m.call, m.user, m.op, Asked(row, m.user, m.op, m.now))
  }

  lemma RunFour(s: Overlap, a: Move, b: Move, c: Move, d: Move)
    ensures AfterMoves(s, [a, b, c, d]) == AfterMove(AfterMove(AfterMove(AfterMove(s, a), b), c), d)
  {
    assert [a, b, c, d][1..] == [b, c, d] && [b, c, d][1..] == [c, d] && [c, d][1..] == [d] && [d][1..] == [];
    var s1 := AfterMove(s, a);
    var s2 := AfterMove(s1, b);
    var s3 := AfterMove(s2, c);
    assert AfterMoves(s3, [d]) == AfterMoves(AfterMove(s3, d), []) == AfterMove(s3, d);
    assert AfterMoves(s2, [c, d]) == AfterMoves(s3, [d]);
    assert AfterMoves(s1, [b, c, d]) == AfterMoves(s2, [c, d]);
  }

  /** The view after both have asked and the second has finished first. */
  function Overtaken(v: CallView, a: Move, b: Move): CallView
    requires a.Begin? && b.Begin?
  {
    var rowA := RowAfter(v.row, Asked(v.row, a.user, a.op, a.now));
    var p, q := Waiting(v.row, a), Waiting(rowA, b);
    var asked := v.(row := RowAfter(rowA, q.answer));
    Ran(Ran(asked, q), p)
  }

  lemma OvertakenRun(s: Overlap, a: Move, b: Move)
    requires s.pending == [] && a.Begin? && b.Begin? && a.call == b.call && a.call in s.views
    requires Starts(s.views[a.call], a.user, a.op, a.now)
    requires Starts(Started(s.views[a.call], a.user, a.op, a.now), b.user, b.op, b.now)
    ensures var after := AfterMoves(s, [a, b, Finish(1), Finish(0)]);
            after.pending == [] && a.call in after.views && after.views[a.call] == Overtaken(s.views[a.call], a, b)
  {
    var call, v := a.call, s.views[a.call];
    RunFour(s, a, b, Finish(1), Finish(0));
    var s1 := AfterMove(s, a);
    var s2 := AfterMove(s1, b);
    var p, q := Waiting(v.row, a), Waiting(s1.views[call].row, b);
    assert s1.pending == [p];
    assert s2.pending == [p, q];
    var s3 := AfterMove(s2, Finish(1));
    assert s3.pending == [p];
  }

  /** The two in order make both whole. */
  lemma InOrderView(v: CallView, a: Move, b: Move)
    requires a.Begin? && b.Begin? && Starts(v, a.user, a.op, a.now)
    requires Starts(Whole(v, a.user, a.op, a.now), b.user, b.op, b.now)
    ensures var rowA := RowAfter(v.row, Asked(v.row, a.user, a.op, a.now));
            var p, q := Waiting(v.row, a), Waiting(rowA, b);
            var asked := v.(row := RowAfter(rowA, q.answer));
            Ran(Ran(asked, p), q) ==
            Whole(Whole(v, a.user, a.op, a.now), b.user, b.op, b.now)
  {
    var rowA := RowAfter(v.row, Asked(v.row, a.user, a.op, a.now));
    var p, q := Waiting(v.row, a), Waiting(rowA, b);
    HalvesMakeWhole(v, a.user, a.op, a.now);
    HalvesMakeWhole(Whole(v, a.user, a.op, a.now), b.user, b.op, b.now);
    SettledRow(v.(row := rowA), [p], a.call, RowAfter(rowA, q.answer));
  }

  /**
   Any two handlers of a call, the second of which finishes first: presence set and table still agree if and
   only if the two do not conflict.
   */
  lemma TwoOverlapExactly(s: Overlap, a: Move, b: Move)
    requires s.pending == [] && a.Begin? && b.Begin? && a.call == b.call && a.call in s.views && Synced(s.views[a.call])
    requires var v := s.views[a.call];
             && Starts(v, a.user, a.op, a.now)
             && Starts(Started(v, a.user, a.op, a.now), b.user, b.op, b.now)
             && Starts(Whole(v, a.user, a.op, a.now), b.user, b.op, b.now)
             && PoliteMoves(map[a.call := v], [a, b])
    ensures var v, after := s.views[a.call], AfterMoves(s, [a, b, Finish(1), Finish(0)]);
            && after.pending == [] && a.call in after.views
            && (Synced(after.views[a.call]) <==>
                  !Conflict(Waiting(v.row, a), Waiting(Started(v, a.user, a.op, a.now).row, b)))
  {
    var call, v := a.call, s.views[a.call];
    var rowA := Started(v, a.user, a.op, a.now).row;
    var p, q := Waiting(v.row, a), Waiting(rowA, b);
    var asked := v.(row := RowAfter(rowA, q.answer));
    OvertakenRun(s, a, b);
    InOrderView(v, a, b);
    TwoWholeAreSynced(v, a, b);
    OrderMattersExactly(asked, p, q);
    RestKnowsOnlyPresent(asked, q.user, q.op, q.answer);
    RestKnowsOnlyPresent(Ran(asked, q), p.user, p.op, p.answer);
  }

  lemma TwoWholeAreSynced(v: CallView, a: Move, b: Move)
    requires a.Begin? && b.Begin? && a.call == b.call && Synced(v) && PoliteMoves(map[a.call := v], [a, b])
    ensures Synced(Whole(Whole(v, a.user, a.op, a.now), b.user, b.op, b.now))
  {
    var views := map[a.call := v];
    assert [a, b][1..] == [b] && [b][1..] == [];
    var next := WholeStep(views, a);
    assert PoliteMoves(next, [b]);
    WholeKeepsSync(v, a.user, a.op, a.now);
    WholeKeepsSync(next[a.call], b.user, b.op, b.now);
  }

  /**
   One such pair in every call with a single user present and another one invited: the one hangs up while the
   other accepts, and the accepter ends up JOINED in the table with nobody present in memory.
   */
  lemma RaceLosesAccepter(s: Overlap, call: CallId, last: UserId, next: UserId, info: Option<PeerInfo>, now: int)
    requires call in s.views && Synced(s.views[call]) && s.pending == []
    requires Present(s.views[call]) == {last} && Listed(s.views[call].row.participants, next) && next != last
    ensures var moves := [Begin(call, last, HangingUp, now), Begin(call, next, Accepting(info), now),
                          Finish(1), Finish(0)];
            var after := AfterMoves(s, moves);
            && after.pending == [] && call in after.views
            && Present(after.views[call]) == {} && JoinedUsers(after.views[call].row.participants) == {next}
            && !Synced(after.views[call])
  {
    OvertakenRun(s, Begin(call, last, HangingUp, now), Begin(call, next, Accepting(info), now));
    RaceRow(s.views[call], last, next, info, now);
  }

  /** The row of that race. */
  lemma RaceRow(v: CallView, last: UserId, next: UserId, info: Option<PeerInfo>, now: int)
    requires Synced(v) && Present(v) == {last} && Listed(v.row.participants, next) && next != last
    ensures EndsFully(v.row, last, now)
    ensures JoinedUsers(AcceptRow(EndRow(v.row, last, now), next, now).participants) == {next}
  {
    var w := LeaveView(v, last, now, true);
    LeaveKeepsSync(v, last, now, true);
    var ps := v.row.participants;
    var k :| 0 <= k < |ps| && ps[k].user == next;
    assert w.row.participants[k].user == next;
    assert Listed(w.row.participants, next);
    AcceptKeepsSync(w, next, info, now);
  }
}
