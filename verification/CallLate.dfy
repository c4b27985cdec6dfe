/**
 Who is in a call, read off the messages sent, and accepts that arrive after a call has ended: nothing
 refuses them, so an ended call can have users present.
 */
module CallLate {
  import opened Common
  import opened Sockets
  import opened CallModel
  import opened CallPresence

  // ----- Presence from the messages ---------------------------------------------------------------------

  predicate Enters(n: Notice, user: UserId) {
    (n.Accepted? && n.user == user) || (n.Initiated? && n.caller == user)
  }

  predicate Exits(n: Notice, user: UserId) {
    n.EndedBy? || (n.LeftCall? && n.user == user)
  }

  /** A user entered at i and was not told out since, by leaving, by being removed or by the end of the call. */
  ghost predicate InsideSince(log: seq<Notice>, user: UserId, i: nat) {
    i < |log| && Enters(log[i], user) && forall j | i < j < |log| :: !Exits(log[j], user)
  }

  ghost predicate Inside(log: seq<Notice>, user: UserId) {
    exists i :: InsideSince(log, user, i)
  }

  lemma InsideAppend(log: seq<Notice>, n: Notice, user: UserId)
    ensures Inside(log + [n], user) <==> Enters(n, user) || (Inside(log, user) && !Exits(n, user))
  {
    var more := log + [n];
    assert forall i | 0 <= i < |log| :: more[i] == log[i];
    assert more[|log|] == n;
    if Enters(n, user) {
      assert InsideSince(more, user, |log|);
    }
    if i :| InsideSince(log, user, i) && !Exits(n, user) {
      assert InsideSince(more, user, i);
    }
    if i :| InsideSince(more, user, i) && !Enters(n, user) {
      assert InsideSince(log, user, i);
    }
  }

  /** Notices by which nobody enters or exits change nothing. */
  lemma {:induction false} InsideQuiet(log: seq<Notice>, more: seq<Notice>, user: UserId)
    requires forall n | n in more :: !Enters(n, user) && !Exits(n, user)
    ensures Inside(log + more, user) <==> Inside(log, user)
  {
    if more == [] {
      assert log + more == log;
    } else {
      var last := |more| - 1;
      InsideQuiet(log, more[..last], user);
      InsideAppend(log + more[..last], more[last], user);
      assert log + more == (log + more[..last]) + [more[last]];
    }
  }

  /** A call is announced as started before it is announced as ended. */
  ghost predicate StartsFirst(log: seq<Notice>) {
    forall i, j | 0 <= i < j < |log| && log[j].Initiated? :: !log[i].EndedBy?
  }

  /** The presence set is who the messages say is in the call; and an ended call was announced as ended. */
  ghost predicate Told(v: CallView) {
    && (forall u: UserId :: u in Present(v) <==> Inside(v.log, u))
    && (v.row.status.Ended? ==> exists i :: 0 <= i < |v.log| && v.log[i].EndedBy?)
    && StartsFirst(v.log)
  }

  lemma EndStaysAnnounced(v: CallView, w: CallView)
    requires Told(v) && v.log <= w.log && forall i | |v.log| <= i < |w.log| :: !w.log[i].Initiated?
    requires w.row.status.Ended? ==> v.row.status.Ended? || (w.log != [] && w.log[|w.log| - 1].EndedBy?)
    ensures w.row.status.Ended? ==> exists i :: 0 <= i < |w.log| && w.log[i].EndedBy?
    ensures StartsFirst(w.log)
  {
    assert forall i | 0 <= i < |v.log| :: w.log[i] == v.log[i];
    if v.row.status.Ended? {
      var i :| 0 <= i < |v.log| && v.log[i].EndedBy?;
      assert w.log[i] == v.log[i];
    }
  }

  lemma QuietIsTold(v: CallView, w: CallView)
    requires Told(v) && Present(w) == Present(v) && v.log <= w.log && (w.row.status.Ended? ==> v.row.status.Ended?)
    requires forall n, u | n in w.log[|v.log|..] :: !Enters(n, u) && !Exits(n, u)
    ensures Told(w)
  {
    forall i | |v.log| <= i < |w.log| ensures !w.log[i].Initiated? {
      assert w.log[i] == w.log[|v.log|..][i - |v.log|];
      assert w.log[i].Initiated? ==> Enters(w.log[i], w.log[i].caller);
    }
    EndStaysAnnounced(v, w);
    forall u: UserId ensures u in Present(w) <==> Inside(w.log, u) {
      InsideQuiet(v.log, w.log[|v.log|..], u);
      assert v.log + w.log[|v.log|..] == w.log;
    }
  }

  lemma AcceptIsTold(v: CallView, user: UserId, info: Option<PeerInfo>, now: int)
    requires Told(v)
    ensures Told(AcceptView(v, user, info, now))
  {
    var w := AcceptView(v, user, info, now);
    var told := ExistingParticipants(user, Introductions(v.active, v.info));
    EndStaysAnnounced(v, w);
    assert w.log == v.log + [told] + [Accepted(user, info)];
    forall u: UserId ensures u in Present(w) <==> Inside(w.log, u) {
      InsideAppend(v.log, told, u);
      InsideAppend(v.log + [told], Accepted(user, info), u);
    }
  }

  lemma LeaveIsTold(v: CallView, user: UserId, now: int, clearTimer: bool)
    requires Told(v)
    ensures Told(LeaveView(v, user, now, clearTimer))
  {
    var w := LeaveView(v, user, now, clearTimer);
    var notice := LeaveNotice(user, EndsFully(v.row, user, now), w.row.durationSeconds);
    EndStaysAnnounced(v, w);
    forall u: UserId ensures u in Present(w) <==> Inside(w.log, u) {
      InsideAppend(v.log, notice, u);
    }
  }

  lemma KickIsTold(v: CallView, host: UserId, target: UserId, now: int)
    requires Told(v)
    ensures Told(KickView(v, host, target, now))
  {
    var w := KickView(v, host, target, now);
    if KickRow(v.row, host, target, now).Success? {
      EndStaysAnnounced(v, w);
      assert w.log == v.log + [RemovedBy(target, host)] + [LeftCall(target)];
      forall u: UserId ensures u in Present(w) <==> Inside(w.log, u) {
        InsideAppend(v.log, RemovedBy(target, host), u);
        InsideAppend(v.log + [RemovedBy(target, host)], LeftCall(target), u);
      }
    }
  }

  lemma InitiateIsTold(caller: UserId, callees: seq<UserId>, scope: CallScope, info: PeerInfo, now: int)
    ensures Told(InitiateView(caller, callees, scope, info, now))
  {
    var v := InitiateView(caller, callees, scope, info, now);
    forall u: UserId ensures u in Present(v) <==> Inside(v.log, u) {
      InsideQuiet([], RingAll(callees), u);
      assert [] + RingAll(callees) == RingAll(callees);
      InsideAppend(RingAll(callees), Initiated(caller), u);
    }
  }

  lemma HandleIsTold(v: CallView, user: UserId, e: Event, now: int)
    requires Told(v)
    ensures Told(Handle(v, user, e, now))
  {
    match e
    case Accept(_, _, info) => AcceptIsTold(v, user, info, now);
    case HangUpCall(_, _) => LeaveIsTold(v, user, now, true);
    case Kick(_, _, target) => KickIsTold(v, user, target, now);
    case _ => QuietIsTold(v, Handle(v, user, e, now));
  }

  ghost predicate AllTold(s: Server) {
    forall id | id in s.views :: Told(s.views[id])
  }

  lemma HandledIsTold(s: Server, t: Timed, socket: SocketId, call: CallId, id: CallId)
    requires AllTold(s) && id in s.views
    ensures Told(OnCall(s, socket, call, t.event, t.now)[id])
  {
    if socket in s.registry.socketToUser && id == call {
      HandleIsTold(s.views[id], s.registry.socketToUser[socket], t.event, t.now);
    }
  }

  lemma OneViewIsTold(s: Server, t: Timed, id: CallId)
    requires AllTold(s) && id in Step(s, t.event, t.now).views
    ensures Told(Step(s, t.event, t.now).views[id])
  {
    match t.event {
      case Initiate(socket, newId, members, scope, caller) =>
        if id == newId && socket in s.registry.socketToUser && members.Some? && caller.Some? {
          var user := s.registry.socketToUser[socket];
          InitiateIsTold(user, Callees(members.value, user), scope, caller.value, t.now);
        }
      case Disconnect(socket) =>
        var gone := Departing(s.registry, socket);
        if gone.Some? {
          LeaveIsTold(s.views[id], gone.value, t.now, false);
        }
      case RingTimeout(_) => QuietIsTold(s.views[id], TimeoutView(s.views[id], t.now));
      case Accept(socket, call, _) => HandledIsTold(s, t, socket, call, id);
      case Decline(socket, call) => HandledIsTold(s, t, socket, call, id);
      case HangUpCall(socket, call) => HandledIsTold(s, t, socket, call, id);
      case Add(socket, call, _, _) => HandledIsTold(s, t, socket, call, id);
      case Kick(socket, call, _) => HandledIsTold(s, t, socket, call, id);
      case Connect(_, _) =>
    }
  }

  /** In every run the users present in a call are exactly those who entered and were not told out since. */
  lemma {:induction false} RunIsTold(s: Server, events: seq<Timed>)
    requires AllTold(s)
    ensures AllTold(Run(s, events))
    decreases |events|
  {
    if events != [] {
      var next := Step(s, events[0].event, events[0].now);
      forall id | id in next.views ensures Told(next.views[id]) {
        OneViewIsTold(s, events[0], id);
      }
      RunIsTold(next, events[1..]);
    }
  }

  // ----- Late accepts -----------------------------------------------------------------------------------

  ghost predicate LastEnd(log: seq<Notice>, end: nat) {
    end < |log| && log[end].EndedBy? && forall j | end < j < |log| :: !log[j].EndedBy?
  }

  lemma {:induction false} LastEndExists(log: seq<Notice>) returns (end: nat)
    requires exists i :: 0 <= i < |log| && log[i].EndedBy?
    ensures LastEnd(log, end)
  {
    var last := |log| - 1;
    if log[last].EndedBy? {
      end := last;
    } else {
      end := LastEndExists(log[..last]);
    }
  }

  /** A user accepted after the end and neither left nor was removed since. */
  ghost predicate LateGuest(log: seq<Notice>, end: nat, user: UserId, i: nat) {
    end < i < |log| && log[i].Accepted? && log[i].user == user && forall j | i < j < |log| :: log[j] != LeftCall(user)
  }

  /**
   Exactly who is present in an ended call: those who accepted after its last end and have not left since. So
   nobody is, unless an accept came after the last end.
   */
  lemma LateGuestsExactly(v: CallView, end: nat, user: UserId)
    requires Told(v) && LastEnd(v.log, end)
    ensures user in Present(v) <==> exists i :: LateGuest(v.log, end, user, i)
  {
    if user in Present(v) {
      var i: nat :| InsideSince(v.log, user, i);
      assert i < end ==> !Exits(v.log[end], user);
      assert LateGuest(v.log, end, user, i);
    }
    if i :| LateGuest(v.log, end, user, i) {
      assert InsideSince(v.log, user, i);
    }
  }

  /** One handler keeps an ended call empty exactly unless it accepts an ended call. */
  lemma LateAcceptExactly(v: CallView, user: UserId, e: Event, now: int)
    requires Synced(v) && (v.row.status.Ended? ==> Present(v) == {})
    ensures (Handle(v, user, e, now).row.status.Ended? ==> Present(Handle(v, user, e, now)) == {}) <==>
              !(e.Accept? && v.row.status.Ended?)
  {
    match e
    case HangUpCall(_, _) => LeaveKeepsSync(v, user, now, true);
    case _ =>
  }

  /** So it is in every run of the server. */
  lemma EndedCallsHoldLateGuests(events: seq<Timed>, id: CallId) returns (end: nat)
    requires id in Run(EMPTY_SERVER, events).views && Run(EMPTY_SERVER, events).views[id].row.status.Ended?
    ensures var v := Run(EMPTY_SERVER, events).views[id];
            && LastEnd(v.log, end)
            && (forall u: UserId :: u in Present(v) <==> exists i :: LateGuest(v.log, end, u, i))
            && ((forall i | end < i < |v.log| :: !v.log[i].Accepted?) ==> Present(v) == {})
  {
    RunIsTold(EMPTY_SERVER, events);
    var v := Run(EMPTY_SERVER, events).views[id];
    assert Told(v);
    end := LastEndExists(v.log);
    forall u: UserId ensures u in Present(v) <==> exists i :: LateGuest(v.log, end, u, i) {
      LateGuestsExactly(v, end, u);
    }
  }

  /** What happens to the one call of that run. */
  lemma LateViews(caller: UserId, other: UserId, info: PeerInfo)
    returns (v: CallView, ended: CallView, late: CallView, gone: CallView)
    requires caller != other
    ensures v == InitiateView(caller, [other], GroupCall, info, 2)
    ensures ended == LeaveView(v, caller, 3, true) && late == AcceptView(ended, other, None, 4)
    ensures gone == KickView(late, caller, other, 5)
    ensures late.row.status.Ended? && Present(late) == {other} && gone.row.status.Ended? && Present(gone) == {}
  {
    v := InitiateView(caller, [other], GroupCall, info, 2);
    ended := LeaveView(v, caller, 3, true);
    late := AcceptView(ended, other, None, 4);
    gone := KickView(late, caller, other, 5);
    assert v.row.participants == [Participant(caller, Joined, Some(2), None), InviteRow(other)];
    assert MarkLeft(v.row.participants, caller, 3) == [Participant(caller, Left, Some(2), Some(3)), InviteRow(other)];
    assert !AnyJoined(MarkLeft(v.row.participants, caller, 3));
    assert ended.row.participants == [Participant(caller, Left, Some(2), Some(3)), InviteRow(other)];
    assert ended.row.participants[1..] == [InviteRow(other)];
    assert IndexOf(ended.row.participants, other) == 1;
    assert late.row.participants[1] in late.row.participants;
    assert JoinedIndexOf(late.row.participants, other) >= 0;
  }

  /** A handler on a server with one call. */
  lemma OneCallStep(r: Registry, v: CallView, id: CallId, socket: SocketId, e: Event, clock: int, now: int)
    requires socket in r.socketToUser
    requires e.HangUpCall? || e.Accept? || e.Kick?
    requires e.socket == socket && e.call == id
    ensures Next(Server(r, map[id := v], clock), At(e, now)) ==
            Server(r, map[id := Handle(v, r.socketToUser[socket], e, now)], now)
  {
  }

  /** The start of that run. */
  lemma LateStart(a: SocketId, b: SocketId, caller: UserId, other: UserId, id: CallId, info: PeerInfo)
    returns (r: Registry)
    requires a != b && caller != other && caller != 0 && other != 0
    ensures r.socketToUser == map[a := caller, b := other]
    ensures var start := LateRun(a, b, caller, other, id, info);
            Next(Next(Next(EMPTY_SERVER, start[0]), start[1]), start[2]) ==
            Server(r, map[id := InitiateView(caller, [other], GroupCall, info, 2)], 2)
  {
    var start := LateRun(a, b, caller, other, id, info);
    var s2 := Next(Next(EMPTY_SERVER, start[0]), start[1]);
    r := s2.registry;
    assert r.socketToUser == map[a := caller, b := other];
    assert Callees([caller, other], caller) == [other] by {
      assert [caller, other][1..] == [other] && [other][1..] == [];
      assert Callees([other], caller) == [other] + Callees([], caller);
    }
  }

  /**
   Such a run: two users, the caller of a group call hangs up before anybody answers, the other one accepts
   the ended call; and then is removed by the caller, so that the late accept leaves nobody present.
   */
  lemma LateAcceptHappens(a: SocketId, b: SocketId, caller: UserId, other: UserId, id: CallId, info: PeerInfo)
    requires a != b && caller != other && caller != 0 && other != 0
    ensures var late := Run(EMPTY_SERVER, LateRun(a, b, caller, other, id, info));
            var gone := Run(EMPTY_SERVER, LateRun(a, b, caller, other, id, info) + [At(Kick(a, id, other), 5)]);
            && id in late.views && late.views[id].row.status.Ended? && Present(late.views[id]) == {other}
            && id in gone.views && gone.views[id].row.status.Ended? && Present(gone.views[id]) == {}
  {
    var events, kick := LateRun(a, b, caller, other, id, info), At(Kick(a, id, other), 5);
    var r := LateStart(a, b, caller, other, id, info);
    var v, ended, late, gone := LateViews(caller, other, info);
    OneCallStep(r, v, id, a, HangUpCall(a, id), 2, 3);
    OneCallStep(r, ended, id, b, Accept(b, id, None), 3, 4);
    OneCallStep(r, late, id, a, Kick(a, id, other), 4, 5);
    RunOfFive(EMPTY_SERVER, events);
    RunAppend(EMPTY_SERVER, events, kick);
  }

  lemma RunOfFive(s: Server, events: seq<Timed>)
    requires |events| == 5
    ensures Run(s, events) == Next(Next(Next(Next(Next(s, events[0]), events[1]), events[2]), events[3]), events[4])
  {
    assert events == [events[0], events[1], events[2], events[3], events[4]];
    RunAppend(s, [], events[0]);
    RunAppend(s, events[..1], events[1]);
    RunAppend(s, events[..2], events[2]);
    RunAppend(s, events[..3], events[3]);
    RunAppend(s, events[..4], events[4]);
    assert events[..1] == [] + [events[0]] && events[..2] == events[..1] + [events[1]] &&
           events[..3] == events[..2] + [events[2]];
    assert events[..4] == events[..3] + [events[3]] && events == events[..4] + [events[4]];
  }

  function LateRun(a: SocketId, b: SocketId, caller: UserId, other: UserId, id: CallId, info: PeerInfo): seq<Timed> {
    [At(Connect(a, Some(caller)), 0), At(Connect(b, Some(other)), 1),
     At(Initiate(a, id, Some([caller, other]), GroupCall, Some(info)), 2),
     At(HangUpCall(a, id), 3), At(Accept(b, id, None), 4)]
  }

  function Next(s: Server, t: Timed): Server {
    Step(s, t.event, t.now)
  }

  lemma {:induction false} RunAppend(s: Server, events: seq<Timed>, t: Timed)
    ensures Run(s, events + [t]) == Next(Run(s, events), t)
    decreases |events|
  {
    if events == [] {
      assert events + [t] == [t];
      assert [t][1..] == [];
    } else {
      assert (events + [t])[1..] == events[1..] + [t];
      RunAppend(Next(s, events[0]), events[1..], t);
    }
  }
}
