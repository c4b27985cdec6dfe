/**
 Handlers that overlap. A handler awaits the service, which changes the call's row, and only then runs the
 rest: the in-memory maps and the messages, without a further await. Here the two halves are separate
 steps, and halves of other handlers may run in between.
 */
module CallOverlap {
  import opened Common
  import opened Sockets
  import opened CallModel
  import opened CallPresence
  import opened CallMesh

  datatype Op =
    | Accepting(info: Option<PeerInfo>)
    | Declining
    | HangingUp
    | Dropping
    | Adding(target: UserId, known: bool)
    | Kicking(target: UserId)
    | RingingOut(callees: seq<UserId>)

  /** What the service returned: an error, or the saved call and whether the call was ended or missed by this. */
  datatype Answer = Refused | Answered(call: Call, over: bool)

  /** A handler between its halves. */
  datatype Section = Section(call: CallId, user: UserId, op: Op, answer: Answer)

  datatype Overlap = Overlap(views: map<CallId, CallView>, pending: seq<Section>)

  /** A handler looks and asks the service at once; or asks, having looked at an earlier moment; or runs its rest. */
  datatype Move =
    | Begin(call: CallId, user: UserId, op: Op, now: int)
    | Write(call: CallId, user: UserId, op: Op, now: int)
    | Finish(i: nat)

  // ----- The two halves ---------------------------------------------------------------------------------

  /** What is looked up in memory before the service is called. */
  predicate Starts(v: CallView, user: UserId, op: Op, now: int) {
    match op
    case Dropping => user in Present(v)
    case RingingOut(callees) => v.timer.Some? && now >= v.timer.value.deadline && callees == v.timer.value.callees
    case _ => true
  }

  function Saved(r: Result<Call, CallError>): Answer {
    if r.Success? then Answered(r.value, false) else Refused
  }

  /** The answer of the service. */
  function Asked(row: Call, user: UserId, op: Op, now: int): Answer {
    match op
    case Accepting(_) => Answered(AcceptRow(row, user, now), false)
    case Declining => Answered(DeclineRow(row, user, now), false)
    case HangingUp => Answered(EndRow(row, user, now), EndsFully(row, user, now))
    case Dropping => Answered(EndRow(row, user, now), EndsFully(row, user, now))
    case Adding(target, known) => Saved(AddRow(row, user, target, known))
    case Kicking(target) => Saved(KickRow(row, user, target, now))
    case RingingOut(_) => Answered(MissRow(row, now), row.status.Ringing?)
  }

  /** The row the service left. */
  function RowAfter(row: Call, a: Answer): Call {
    if a.Refused? then row else a.call
  }

  /** The rest of the handler, given the answer; it does not look at the row again. */
  function Rest(v: CallView, user: UserId, op: Op, a: Answer): CallView {
    if a.Refused? then v
    else
      match op
      case Accepting(info) =>
        v.(active := Some(Members(v.active) + {user}), info := InfoAfterAccept(v.info, user, info), timer := None,
           log := v.log + [ExistingParticipants(user, Introductions(v.active, v.info)), Accepted(user, info)])
      case Declining =>
        v.(timer := if a.call.scope.DirectCall? then None else v.timer, log := v.log + [DeclinedBy(user)])
      case HangingUp =>
        Gone(v, user, a).(timer := if a.over then None else v.timer)
      case Dropping => Gone(v, user, a)
      case Adding(target, _) => v.(log := v.log + [Incoming(target), ParticipantAdded(target)])
      case Kicking(target) =>
        v.(active := PresentWithout(v.active, target), info := Without(v.info, target),
           log := v.log + [RemovedBy(target, user), LeftCall(target)])
      case RingingOut(callees) =>
        v.(timer := None, log := if a.over then v.log + ([MissedCall] + MissedAll(callees)) else v.log)
  }

  function Gone(v: CallView, user: UserId, a: Answer): CallView
    requires a.Answered?
  {
    v.(active := ActiveAfterLeave(v.active, user, a.over), info := InfoAfterLeave(v.info, v.active, user, a.over),
       log := v.log + [LeaveNotice(user, a.over, a.call.durationSeconds)])
  }

  /** The handler in one piece. */
  function Whole(v: CallView, user: UserId, op: Op, now: int): CallView {
    if !Starts(v, user, op, now) then v
    else
      match op
      case Accepting(info) => AcceptView(v, user, info, now)
      case Declining => DeclineView(v, user, now)
      case HangingUp => LeaveView(v, user, now, true)
      case Dropping => LeaveView(v, user, now, false)
      case Adding(target, known) => AddView(v, user, target, known)
      case Kicking(target) => KickView(v, user, target, now)
      case RingingOut(_) => TimeoutView(v, now)
  }

  /** Both halves with nothing in between are the handler. */
  lemma HalvesMakeWhole(v: CallView, user: UserId, op: Op, now: int)
    requires Starts(v, user, op, now)
    ensures var a := Asked(v.row, user, op, now);
            Rest(v.(row := RowAfter(v.row, a)), user, op, a) == Whole(v, user, op, now)
  {
    if op.RingingOut? && !v.row.status.Ringing? {
      assert MissRow(v.row, now) == v.row;
    }
  }

  // ----- Steps ------------------------------------------------------------------------------------------

  function Started(v: CallView, user: UserId, op: Op, now: int): CallView {
    v.(row := RowAfter(v.row, Asked(v.row, user, op, now)))
  }

  function Removed(pending: seq<Section>, i: nat): seq<Section>
    requires i < |pending|
  {
    pending[..i] + pending[i + 1..]
  }

  function AfterAsking(s: Overlap, call: CallId, user: UserId, op: Op, now: int): Overlap
    requires call in s.views
  {
    Overlap(s.views[call := Started(s.views[call], user, op, now)],
            s.pending + [Section(call, user, op, Asked(s.views[call].row, user, op, now))])
  }

  function AfterMove(s: Overlap, m: Move): Overlap {
    match m
    case Begin(call, user, op, now) =>
      if call in s.views && Starts(s.views[call], user, op, now) then AfterAsking(s, call, user, op, now) else s
    case Write(call, user, op, now) =>
      if call in s.views then AfterAsking(s, call, user, op, now) else s
    case Finish(i) =>
      if i < |s.pending| && s.pending[i].call in s.views then
        var p := s.pending[i];
        Overlap(s.views[p.call := Rest(s.views[p.call], p.user, p.op, p.answer)], Removed(s.pending, i))
      else s
  }

  function AfterMoves(s: Overlap, moves: seq<Move>): Overlap
    decreases |moves|
  {
    if moves == [] then s else AfterMoves(AfterMove(s, moves[0]), moves[1..])
  }

  // ----- Second halves in order ---------------------------------------------------------------------------

  /**
   The disconnect loop, which looks before it asks the service, finds a user present if and only if they will
   be so once all halves have run. A handler that looked earlier found what will be there then; a ring timer
   that did not is one that was answered.
   */
  predicate LooksRight(s: Overlap, m: Move) {
    !m.Finish? && m.call in s.views ==>
      var v := Settled(s.views[m.call], s.pending, m.call);
      if m.Begin? then m.op.Dropping? ==> (m.user in Present(s.views[m.call]) <==> m.user in Present(v))
      else Starts(v, m.user, m.op, m.now) || (m.op.RingingOut? && v.timer.None? && !v.row.status.Ringing?)
  }

  /**
   The disconnect loop waits holding the presence set it found. No user is let into a set made anew, after
   that one was dropped, while it waits.
   */
  ghost predicate HoldsCurrentSet(s: Overlap, m: Move) {
    m.Finish? && m.i < |s.pending| && s.pending[m.i].call in s.views ==>
      var p := s.pending[m.i];
      p.op.Accepting? && p.answer.Answered? && s.views[p.call].active.None? ==>
        forall j | 0 <= j < |s.pending| && s.pending[j].call == p.call :: !s.pending[j].op.Dropping?
  }

  /** A handler does not finish before one of the same call that began earlier. */
  ghost predicate InOrder(s: Overlap, m: Move) {
    && LooksRight(s, m) && HoldsCurrentSet(s, m)
    && (m.Finish? && m.i < |s.pending| ==> forall j | 0 <= j < m.i :: s.pending[j].call != s.pending[m.i].call)
  }

  ghost predicate InOrderRun(s: Overlap, moves: seq<Move>)
    decreases |moves|
  {
    moves == [] || (InOrder(s, moves[0]) && InOrderRun(AfterMove(s, moves[0]), moves[1..]))
  }

  /** The view after a pending half. */
  function Ran(v: CallView, p: Section): CallView {
    Rest(v, p.user, p.op, p.answer)
  }

  /** The same if the half is of this call. */
  function Done(v: CallView, p: Section, call: CallId): CallView {
    if p.call == call then Ran(v, p) else v
  }

  /** The view of a call once its pending halves have run. */
  function Settled(v: CallView, pending: seq<Section>, call: CallId): CallView
    decreases |pending|
  {
    if pending == [] then v else Settled(Done(v, pending[0], call), pending[1..], call)
  }

  /** What a second half does to the ring timer: it clears it or leaves it. */
  predicate ClearsTimer(p: Section) {
    p.answer.Answered? &&
    match p.op
    case Accepting(_) => true
    case Declining => p.answer.call.scope.DirectCall?
    case HangingUp => p.answer.over
    case RingingOut(_) => true
    case _ => false
  }

  lemma TimerAfter(v: CallView, p: Section)
    ensures Ran(v, p).timer == if ClearsTimer(p) then None else v.timer
    ensures Ran(v, p).row == v.row
  {
  }

  /** A half that will clear the ring timer is of a call that rings no more. */
  ghost predicate TimersLag(s: Overlap) {
    forall i | 0 <= i < |s.pending| && ClearsTimer(s.pending[i]) && s.pending[i].call in s.views ::
      !s.views[s.pending[i].call].row.status.Ringing?
  }

  lemma StepKeepsTimersLag(s: Overlap, m: Move)
    requires TimersLag(s)
    ensures TimersLag(AfterMove(s, m))
  {
    var after := AfterMove(s, m);
    forall i | 0 <= i < |after.pending| && ClearsTimer(after.pending[i]) && after.pending[i].call in after.views
      ensures !after.views[after.pending[i].call].row.status.Ringing?
    {
      var p := after.pending[i];
      match m
      case Begin(call, user, op, now) =>
        assert i < |s.pending| ==> p == s.pending[i];
        NeverRingsAgain(s.views[p.call].row, user, op, now);
      case Write(call, user, op, now) =>
        assert i < |s.pending| ==> p == s.pending[i];
        NeverRingsAgain(s.views[p.call].row, user, op, now);
      case Finish(k) =>
        if k < |s.pending| && s.pending[k].call in s.views {
          assert p == s.pending[if i < k then i else i + 1];
        }
    }
  }

  lemma NeverRingsAgain(row: Call, user: UserId, op: Op, now: int)
    ensures !row.status.Ringing? ==> !RowAfter(row, Asked(row, user, op, now)).status.Ringing?
    ensures ClearsTimer(Section("", user, op, Asked(row, user, op, now))) ==>
              !RowAfter(row, Asked(row, user, op, now)).status.Ringing?
  {
  }

  lemma {:induction false} SettledTimer(v: CallView, pending: seq<Section>, call: CallId)
    ensures Settled(v, pending, call).timer == v.timer ||
            (Settled(v, pending, call).timer == None &&
             exists i :: 0 <= i < |pending| && pending[i].call == call && ClearsTimer(pending[i]))
    decreases |pending|
  {
    if pending != [] {
      var w, rest := Done(v, pending[0], call), pending[1..];
      TimerAfter(v, pending[0]);
      SettledTimer(w, rest, call);
      assert forall i | 0 <= i < |rest| :: rest[i] == pending[i + 1];
    }
  }

  /** A ring timer that comes due while an answer is half-way asks in vain. */
  lemma TimerInVain(s: Overlap, m: Move)
    requires TimersLag(s) && m.Begin? && m.op.RingingOut? && m.call in s.views &&
             Starts(s.views[m.call], m.user, m.op, m.now)
    requires !Starts(Settled(s.views[m.call], s.pending, m.call), m.user, m.op, m.now)
    ensures var v := Settled(s.views[m.call], s.pending, m.call);
            v.timer == None && Asked(v.row, m.user, m.op, m.now) == Answered(v.row, false)
  {
    SettledTimer(s.views[m.call], s.pending, m.call);
    SettledRow(s.views[m.call], s.pending, m.call, s.views[m.call].row);
  }

  function AllSettled(s: Overlap): map<CallId, CallView> {
    map id | id in s.views :: Settled(s.views[id], s.pending, id)
  }

  /** The server whose handlers run in one piece, at the moment the other's begin. */
  function WholeStep(views: map<CallId, CallView>, m: Move): map<CallId, CallView> {
    match m
    case Begin(call, user, op, now) =>
      if call in views then views[call := Whole(views[call], user, op, now)] else views
    case Write(call, user, op, now) =>
      if call in views then views[call := Whole(views[call], user, op, now)] else views
    case Finish(_) => views
  }

  function WholeRun(views: map<CallId, CallView>, moves: seq<Move>): map<CallId, CallView>
    decreases |moves|
  {
    if moves == [] then views else WholeRun(WholeStep(views, moves[0]), moves[1..])
  }

  lemma {:induction false} SettledNone(v: CallView, pending: seq<Section>, call: CallId)
    requires forall i | 0 <= i < |pending| :: pending[i].call != call
    ensures Settled(v, pending, call) == v
    decreases |pending|
  {
    if pending != [] {
      assert pending[0].call != call;
      SettledNone(v, pending[1..], call);
    }
  }

  /** Second halves neither read nor change the row. */
  lemma {:induction false} SettledRow(v: CallView, pending: seq<Section>, call: CallId, row: Call)
    ensures Settled(v, pending, call).row == v.row
    ensures Settled(v.(row := row), pending, call) == Settled(v, pending, call).(row := row)
    decreases |pending|
  {
    if pending != [] {
      var p := pending[0];
      assert Done(v.(row := row), p, call) == Done(v, p, call).(row := row);
      SettledRow(Done(v, p, call), pending[1..], call, row);
    }
  }

  lemma {:induction false} SettledAppend(v: CallView, pending: seq<Section>, p: Section, call: CallId)
    ensures Settled(v, pending + [p], call) == Done(Settled(v, pending, call), p, call)
    decreases |pending|
  {
    if pending == [] {
      assert pending + [p] == [p];
      assert [p][1..] == [];
    } else {
      assert (pending + [p])[1..] == pending[1..] + [p];
      SettledAppend(Done(v, pending[0], call), pending[1..], p, call);
    }
  }

  /** The first pending half of a call, and one of another call, may as well run at once. */
  lemma {:induction false} SettledFirst(v: CallView, pending: seq<Section>, i: nat, call: CallId)
    requires i < |pending|
    requires pending[i].call == call ==> forall j | 0 <= j < i :: pending[j].call != call
    ensures Settled(v, pending, call) == Settled(Done(v, pending[i], call), Removed(pending, i), call)
    decreases |pending|
  {
    if i == 0 {
      assert Removed(pending, 0) == pending[1..];
    } else {
      var rest := pending[1..];
      assert forall j | 0 <= j < |rest| :: rest[j] == pending[j + 1];
      SettledFirst(Done(v, pending[0], call), rest, i - 1, call);
      assert Removed(pending, i)[1..] == Removed(rest, i - 1);
      assert Removed(pending, i)[0] == pending[0];
      assert pending[i].call == call ==> pending[0].call != call;
    }
  }

  lemma BeginSettles(s: Overlap, m: Move, id: CallId)
    requires !m.Finish? && LooksRight(s, m) && TimersLag(s) && id in s.views
    ensures var after := AfterMove(s, m);
            && id in after.views
            && Settled(after.views[id], after.pending, id) ==
               var v := Settled(s.views[id], s.pending, id);
               if id == m.call then Whole(v, m.user, m.op, m.now) else v
  {
    var v := s.views[id];
    SettledTimer(v, s.pending, id);
    if m.call in s.views && (m.Write? || Starts(s.views[m.call], m.user, m.op, m.now)) {
      var p := Section(m.call, m.user, m.op, Asked(s.views[m.call].row, m.user, m.op, m.now));
      SettledAppend(AfterMove(s, m).views[id], s.pending, p, id);
      if id == m.call {
        SettledRow(v, s.pending, id, RowAfter(v.row, p.answer));
        if Starts(Settled(v, s.pending, id), m.user, m.op, m.now) {
          HalvesMakeWhole(Settled(v, s.pending, id), m.user, m.op, m.now);
        } else if m.Begin? {
          TimerInVain(s, m);
        }
      }
    }
  }

  /** For the disconnect loop that look is exactly what its whole effect needs. */
  lemma DropSettlesExactly(s: Overlap, m: Move)
    requires m.Begin? && m.op.Dropping? && TimersLag(s) && m.call in s.views
    ensures var after, v := AfterMove(s, m), Settled(s.views[m.call], s.pending, m.call);
            Settled(after.views[m.call], after.pending, m.call) == Whole(v, m.user, m.op, m.now) <==> LooksRight(s, m)
  {
    var after, v := AfterMove(s, m), Settled(s.views[m.call], s.pending, m.call);
    if LooksRight(s, m) {
      BeginSettles(s, m, m.call);
    } else if Starts(s.views[m.call], m.user, m.op, m.now) {
      var p := Section(m.call, m.user, m.op, Asked(s.views[m.call].row, m.user, m.op, m.now));
      SettledAppend(after.views[m.call], s.pending, p, m.call);
      SettledRow(s.views[m.call], s.pending, m.call, after.views[m.call].row);
      assert |Settled(after.views[m.call], after.pending, m.call).log| == |v.log| + 1;
    } else {
      assert |Whole(v, m.user, m.op, m.now).log| == |v.log| + 1;
    }
  }

  lemma FinishSettles(s: Overlap, i: nat, id: CallId)
    requires InOrder(s, Finish(i)) && id in s.views
    ensures var after := AfterMove(s, Finish(i));
            id in after.views && Settled(after.views[id], after.pending, id) == Settled(s.views[id], s.pending, id)
  {
    if i < |s.pending| {
      SettledFirst(s.views[id], s.pending, i, id);
    }
  }

  /** Beginning a handler has its whole effect once its rest has run; finishing one changes nothing not already due. */
  lemma StepSettles(s: Overlap, m: Move)
    requires InOrder(s, m) && TimersLag(s)
    ensures AllSettled(AfterMove(s, m)) == WholeStep(AllSettled(s), m)
  {
    var left, right := AllSettled(AfterMove(s, m)), WholeStep(AllSettled(s), m);
    assert left.Keys == right.Keys;
    forall id | id in left ensures left[id] == right[id] {
      match m
      case Begin(_, _, _, _) => BeginSettles(s, m, id);
      case Write(_, _, _, _) => BeginSettles(s, m, id);
      case Finish(i) => FinishSettles(s, i, id);
    }
  }

  lemma NothingPending(s: Overlap)
    requires s.pending == []
    ensures AllSettled(s) == s.views
  {
    forall id | id in s.views ensures AllSettled(s)[id] == s.views[id] {
      SettledNone(s.views[id], [], id);
    }
  }

  /**
   Handlers may overlap as they like, also on one call: if those of a call finish in the order they began,
   every run ends, once its pending halves have run, as the run of the same handlers each in one piece.
   */
  lemma {:induction false} OverlapIsWhole(s: Overlap, moves: seq<Move>)
    requires InOrderRun(s, moves) && TimersLag(s)
    ensures AllSettled(AfterMoves(s, moves)) == WholeRun(AllSettled(s), moves)
    ensures AfterMoves(s, moves).pending == [] ==> AfterMoves(s, moves).views == WholeRun(AllSettled(s), moves)
    decreases |moves|
  {
    if moves != [] {
      StepSettles(s, moves[0]);
      StepKeepsTimersLag(s, moves[0]);
      OverlapIsWhole(AfterMove(s, moves[0]), moves[1..]);
    } else if s.pending == [] {
      NothingPending(s);
    }
  }

  /** The event that asks for a handler. */
  function EventOf(m: Move, socket: SocketId): Event
    requires m.Begin? && !m.op.Dropping?
  {
    match m.op
    case Accepting(info) => Accept(socket, m.call, info)
    case Declining => Decline(socket, m.call)
    case HangingUp => HangUpCall(socket, m.call)
    case Adding(target, known) => Add(socket, m.call, target, known)
    case Kicking(target) => Kick(socket, m.call, target)
    case RingingOut(_) => RingTimeout(m.call)
  }

  /** A handler in one piece is the server's step for that event. */
  lemma WholeIsStep(s: Server, m: Move, socket: SocketId)
    requires m.Begin? && !m.op.Dropping?
    requires socket in s.registry.socketToUser && s.registry.socketToUser[socket] == m.user
    requires m.op.RingingOut? && m.call in s.views && s.views[m.call].timer.Some? ==>
               m.op.callees == s.views[m.call].timer.value.callees
    ensures WholeStep(s.views, m) == CallModel.Step(s, EventOf(m, socket), m.now).views
  {
  }

  /** Whoever accepts was invited, and nobody declines a call they are in. */
  ghost predicate PoliteMove(views: map<CallId, CallView>, m: Move) {
    !m.Finish? && m.call in views ==>
      && (m.op.Accepting? ==> Listed(views[m.call].row.participants, m.user))
      && (m.op.Declining? ==> m.user !in Present(views[m.call]))
  }

  ghost predicate PoliteMoves(views: map<CallId, CallView>, moves: seq<Move>)
    decreases |moves|
  {
    moves == [] || (PoliteMove(views, moves[0]) && PoliteMoves(WholeStep(views, moves[0]), moves[1..]))
  }

  lemma WholeKeepsSync(v: CallView, user: UserId, op: Op, now: int)
    requires Synced(v)
    requires op.Accepting? ==> Listed(v.row.participants, user)
    requires op.Declining? ==> user !in Present(v)
    ensures Synced(Whole(v, user, op, now))
  {
    match op
    case Accepting(info) => AcceptKeepsSync(v, user, info, now);
    case Declining => DeclineKeepsSync(v, user, now);
    case HangingUp => LeaveKeepsSync(v, user, now, true);
    case Dropping => LeaveKeepsSync(v, user, now, false);
    case Adding(target, known) => AddKeepsSync(v, user, target, known);
    case Kicking(target) => KickKeepsSync(v, user, target, now);
    case RingingOut(_) => TimeoutKeepsSync(v, now);
  }

  lemma {:induction false} WholeRunIsSynced(views: map<CallId, CallView>, moves: seq<Move>)
    requires (forall id | id in views :: Synced(views[id])) && PoliteMoves(views, moves)
    ensures forall id | id in WholeRun(views, moves) :: Synced(WholeRun(views, moves)[id])
    decreases |moves|
  {
    if moves != [] {
      var m, next := moves[0], WholeStep(views, moves[0]);
      forall id | id in next ensures Synced(next[id]) {
        if !m.Finish? && id == m.call {
          WholeKeepsSync(views[id], m.user, m.op, m.now);
        }
      }
      WholeRunIsSynced(next, moves[1..]);
    }
  }

  // ----- Any overlap: the mesh --------------------------------------------------------------------------

  ghost predicate AllMeshed(s: Overlap) {
    forall id | id in s.views :: Meshed(s.views[id])
  }

  /** Nobody is let in while present. */
  ghost predicate Careful(s: Overlap, m: Move) {
    && HoldsCurrentSet(s, m)
    && (m.Finish? && m.i < |s.pending| && s.pending[m.i].call in s.views ==>
          var p := s.pending[m.i];
          p.op.Accepting? && p.answer.Answered? ==> p.user !in Present(s.views[p.call]))
  }

  ghost predicate CarefulRun(s: Overlap, moves: seq<Move>)
    decreases |moves|
  {
    moves == [] || (Careful(s, moves[0]) && CarefulRun(AfterMove(s, moves[0]), moves[1..]))
  }

  lemma RestKeepsMesh(v: CallView, user: UserId, op: Op, a: Answer)
    requires Meshed(v) && (op.Accepting? && a.Answered? ==> user !in Present(v))
    ensures Meshed(Rest(v, user, op, a))
  {
    var w := Rest(v, user, op, a);
    if a.Answered? {
      match op
      case Accepting(info) =>
        AcceptKeepsMesh(v, user, info, 0);
        assert w.log == AcceptView(v, user, info, 0).log && w.active == AcceptView(v, user, info, 0).active;
      case HangingUp => GoneKeepsMesh(v, w, user, a.over, a.call.durationSeconds);
      case Dropping => GoneKeepsMesh(v, w, user, a.over, a.call.durationSeconds);
      case Kicking(target) => KickedKeepsMesh(v, w, user, target);
      case Declining => MoreKeepsMesh(v, w, [DeclinedBy(user)]);
      case Adding(target, _) => MoreKeepsMesh(v, w, [Incoming(target), ParticipantAdded(target)]);
      case RingingOut(callees) => MissedKeepsMesh(v, w, callees, a.over);
    }
  }

  lemma MoreKeepsMesh(v: CallView, w: CallView, more: seq<Notice>)
    requires Meshed(v) && w.active == v.active && w.log == v.log + more
    requires forall n | n in more :: !n.ExistingParticipants? && !n.LeftCall? && !n.EndedBy?
    ensures Meshed(w)
  {
    LinksQuiet(v.log, more);
  }

  lemma MissedKeepsMesh(v: CallView, w: CallView, callees: seq<UserId>, over: bool)
    requires Meshed(v) && w.active == v.active
    requires w.log == if over then v.log + ([MissedCall] + MissedAll(callees)) else v.log
    ensures Meshed(w)
  {
    if over {
      MoreKeepsMesh(v, w, [MissedCall] + MissedAll(callees));
    }
  }

  lemma StepKeepsMesh(s: Overlap, m: Move)
    requires AllMeshed(s) && Careful(s, m)
    ensures AllMeshed(AfterMove(s, m))
  {
    forall id | id in AfterMove(s, m).views ensures Meshed(AfterMove(s, m).views[id]) {
      if m.Finish? && m.i < |s.pending| && s.pending[m.i].call == id {
        var p := s.pending[m.i];
        RestKeepsMesh(s.views[id], p.user, p.op, p.answer);
      }
    }
  }

  /**
   The mesh needs no such order, for what a handler tells the clients and what it remembers change in one
   half: it is complete after every interleaving in which nobody is let in while present.
   */
  lemma {:induction false} AnyOverlapKeepsMesh(s: Overlap, moves: seq<Move>)
    requires AllMeshed(s) && CarefulRun(s, moves)
    ensures AllMeshed(AfterMoves(s, moves))
    ensures forall id | id in AfterMoves(s, moves).views ::
              var v := AfterMoves(s, moves).views[id];
              2 * |Links(v.log)| == |Present(v)| * (|Present(v)| - 1)
    decreases |moves|
  {
    if moves == [] {
      forall id | id in s.views
        ensures 2 * |Links(s.views[id].log)| == |Present(s.views[id])| * (|Present(s.views[id])| - 1)
      {
        TournamentSize(Links(s.views[id].log), Present(s.views[id]));
        PairsClosedForm(|Present(s.views[id])|);
      }
    } else {
      StepKeepsMesh(s, moves[0]);
      AnyOverlapKeepsMesh(AfterMove(s, moves[0]), moves[1..]);
    }
  }

  /**
   The rest of a disconnect that holds a presence set dropped since: it takes the user out of that one, and
   drops whatever set the call has now if that one is empty.
   */
  function StaleRest(v: CallView, user: UserId, a: Answer, held: set<UserId>): CallView
    requires a.Answered?
  {
    var emptied := a.over || held - {user} == {};
    v.(active := if emptied then None else v.active, info := if emptied then None else Without(v.info, user),
       log := v.log + [LeaveNotice(user, a.over, a.call.durationSeconds)])
  }

  /**
   It leaves a complete mesh if and only if the call has ended, or the call's present set survives and has
   nobody to part from the user, or it does not and had no two others.
   */
  lemma StaleDropExactly(v: CallView, user: UserId, a: Answer, held: set<UserId>)
    requires Meshed(v) && a.Answered?
    ensures Meshed(StaleRest(v, user, a, held)) <==>
              || a.over
              || (held - {user} != {} && (user !in Present(v) || Present(v) == {user}))
              || (held - {user} == {} && forall x, y | x in Present(v) && y in Present(v) && x != user && y != user ::
                  x == y)
  {
    var w, links := StaleRest(v, user, a, held), Links(v.log);
    LinksAppend(v.log, LeaveNotice(user, a.over, a.call.durationSeconds));
    if !a.over {
      assert Links(w.log) == Among(links, user);
      if held - {user} == {} {
        forall x, y | x in Present(v) && y in Present(v) && x != user && y != user && x != y
          ensures (x, y) in Among(links, user) || (y, x) in Among(links, user)
        {
          assert (x, y) in links || (y, x) in links;
        }
      } else if user in Present(v) && Present(v) != {user} {
        var other :| other in Present(v) && other != user;
        assert (user, other) !in Among(links, user) && (other, user) !in Among(links, user);
      }
    }
  }
}
