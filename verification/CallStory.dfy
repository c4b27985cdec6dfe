/**
 What the messages of a call tell, against what its rows say: the status of the call and of every user can be
 read off the messages sent, and whoever has a row was rung once, but for the caller.
 */
module CallStory {
  import opened Common
  import opened Sockets
  import opened CallModel
  import opened CallPresence

  // ----- The story --------------------------------------------------------------------------------------

  /** What a message means for the status of a user. */
  function Told(status: Option<ParticipantStatus>, n: Notice, user: UserId): Option<ParticipantStatus> {
    match n
    case Incoming(callee) => if callee == user && status.None? then Some(Invited) else status
    case Initiated(caller) => if caller == user then Some(Joined) else status
    case Accepted(who, _) => if who == user && status.Some? then Some(Joined) else status
    case LeftCall(who) => if who == user && status == Some(Joined) then Some(Left) else status
    case EndedBy(_, _) => if status == Some(Joined) then Some(Left) else status
    case DeclinedBy(who) => if who == user && status.Some? then Some(DeclinedInvite) else status
    case MissedCall => if status == Some(Invited) then Some(MissedInvite) else status
    case _ => status
  }

  function Story(log: seq<Notice>, user: UserId): Option<ParticipantStatus> {
    if log == [] then None else Told(Story(log[..|log| - 1], user), log[|log| - 1], user)
  }

  /** What a message means for the status of a call. */
  function ToldOfCall(status: CallStatus, n: Notice, scope: CallScope): CallStatus {
    match n
    case Accepted(_, _) => if status == Ringing then Active else status
    case DeclinedBy(_) => if scope == DirectCall then Declined else status
    case EndedBy(_, _) => Ended
    case MissedCall => Missed
    case _ => status
  }

  function StoryOfCall(log: seq<Notice>, scope: CallScope): CallStatus {
    if log == [] then Ringing else ToldOfCall(StoryOfCall(log[..|log| - 1], scope), log[|log| - 1], scope)
  }

  function StatusOf(ps: seq<Participant>, user: UserId): Option<ParticipantStatus> {
    var row := RowFor(ps, user);
    if row.None? then None else Some(row.value.status)
  }

  function Rings(log: seq<Notice>, user: UserId): nat {
    Count(log, (n: Notice) => n == Incoming(user))
  }

  /** The messages tell the statuses, and everybody with a row but the caller was rung once. */
  ghost predicate TrueTo(v: CallView) {
    && UniqueUsers(v.row.participants)
    && v.row.status == StoryOfCall(v.log, v.row.scope)
    && (forall u: UserId :: StatusOf(v.row.participants, u) == Story(v.log, u))
    && (forall u: UserId :: Rings(v.log, u) == if u != v.row.initiator && Listed(v.row.participants, u) then 1 else 0)
    && Listed(v.row.participants, v.row.initiator)
  }

  // ----- Messages ---------------------------------------------------------------------------------------

  lemma StoryAppend(log: seq<Notice>, n: Notice, user: UserId)
    ensures Story(log + [n], user) == Told(Story(log, user), n, user)
    ensures Rings(log + [n], user) == Rings(log, user) + if n == Incoming(user) then 1 else 0
  {
    assert (log + [n])[..|log|] == log;
  }

  lemma CallAppend(log: seq<Notice>, n: Notice, scope: CallScope)
    ensures StoryOfCall(log + [n], scope) == ToldOfCall(StoryOfCall(log, scope), n, scope)
  {
    assert (log + [n])[..|log|] == log;
  }

  /** Messages that tell nothing new of a user, nor of the call. */
  lemma {:induction false} StoryQuiet(log: seq<Notice>, more: seq<Notice>, user: UserId, scope: CallScope)
    requires forall n | n in more :: n.MissedNotice? || n.ExistingParticipants? || n.RemovedBy? || n.ParticipantAdded?
    ensures Story(log + more, user) == Story(log, user) && Rings(log + more, user) == Rings(log, user)
    ensures StoryOfCall(log + more, scope) == StoryOfCall(log, scope)
  {
    if more == [] {
      assert log + more == log;
    } else {
      var last := |more| - 1;
      assert more[last] in more && forall n | n in more[..last] :: n in more;
      StoryQuiet(log, more[..last], user, scope);
      StoryAppend(log + more[..last], more[last], user);
      CallAppend(log + more[..last], more[last], scope);
      assert log + more == (log + more[..last]) + [more[last]];
    }
  }

  // ----- Rows -------------------------------------------------------------------------------------------

  lemma UpdatedRow(ps: seq<Participant>, i: nat, p: Participant, user: UserId)
    requires UniqueUsers(ps) && i < |ps| && p.user == ps[i].user
    ensures UniqueUsers(ps[i := p])
    ensures RowFor(ps[i := p], user) == if user == p.user then Some(p) else RowFor(ps, user)
    ensures Listed(ps[i := p], user) <==> Listed(ps, user)
  {
    var qs := ps[i := p];
    ListedIffFound(ps, user);
    ListedIffFound(qs, user);
    if user == p.user {
      IndexIs(qs, user, i);
      assert ps[i] in ps;
    } else if IndexOf(ps, user) >= 0 {
      IndexIs(qs, user, IndexOf(ps, user));
    } else {
      assert forall q | q in qs :: q == p || q in ps;
    }
  }

  /** Rows changed one by one keep their places. */
  lemma MappedRow(ps: seq<Participant>, qs: seq<Participant>, user: UserId)
    requires |qs| == |ps| && forall i | 0 <= i < |ps| :: qs[i].user == ps[i].user
    ensures IndexOf(qs, user) == IndexOf(ps, user)
    ensures Listed(qs, user) <==> Listed(ps, user)
    ensures UniqueUsers(ps) ==> UniqueUsers(qs)
  {
    ListedIffFound(ps, user);
    ListedIffFound(qs, user);
    if IndexOf(ps, user) >= 0 {
      IndexIs(qs, user, IndexOf(ps, user));
    } else {
      forall q | q in qs ensures q.user != user {
        var k :| 0 <= k < |qs| && qs[k] == q;
        assert ps[k] in ps;
      }
    }
  }

  // ----- Handlers ---------------------------------------------------------------------------------------

  /** One message and at most one row of the user it is about. */
  lemma OneRowTold(v: CallView, w: CallView, i: nat, p: Participant, n: Notice)
    requires TrueTo(v) && i < |v.row.participants| && p.user == v.row.participants[i].user
    requires w.row.participants == v.row.participants[i := p] && w.log == v.log + [n]
    requires w.row.scope == v.row.scope && w.row.initiator == v.row.initiator && !n.Incoming?
    requires w.row.status == ToldOfCall(v.row.status, n, v.row.scope)
    requires forall u: UserId ::
               Told(StatusOf(v.row.participants, u), n, u) ==
                 if u == p.user then Some(p.status) else StatusOf(v.row.participants, u)
    ensures TrueTo(w)
  {
    CallAppend(v.log, n, v.row.scope);
    forall u: UserId
      ensures StatusOf(w.row.participants, u) == Story(w.log, u) && Rings(w.log, u) == Rings(v.log, u)
      ensures Listed(w.row.participants, u) <==> Listed(v.row.participants, u)
    {
      StoryAppend(v.log, n, u);
      UpdatedRow(v.row.participants, i, p, u);
    }
  }

  /** One message that changes every row by itself, or none. */
  lemma AllRowsTold(v: CallView, w: CallView, n: Notice)
    requires TrueTo(v) && |w.row.participants| == |v.row.participants| && w.log == v.log + [n]
    requires w.row.scope == v.row.scope && w.row.initiator == v.row.initiator && !n.Incoming?
    requires w.row.status == ToldOfCall(v.row.status, n, v.row.scope)
    requires forall i | 0 <= i < |v.row.participants| ::
               && w.row.participants[i].user == v.row.participants[i].user
               && Some(w.row.participants[i].status) ==
                  Told(Some(v.row.participants[i].status), n, v.row.participants[i].user)
    requires forall u: UserId :: Told(None, n, u) == None
    ensures TrueTo(w)
  {
    CallAppend(v.log, n, v.row.scope);
    forall u: UserId
      ensures StatusOf(w.row.participants, u) == Story(w.log, u) && Rings(w.log, u) == Rings(v.log, u)
      ensures Listed(w.row.participants, u) <==> Listed(v.row.participants, u)
    {
      StoryAppend(v.log, n, u);
      MappedRow(v.row.participants, w.row.participants, u);
    }
    MappedRow(v.row.participants, w.row.participants, v.row.initiator);
  }

  /** Messages that tell no status. */
  lemma QuietIsTrue(v: CallView, w: CallView, more: seq<Notice>)
    requires TrueTo(v) && w.row == v.row && w.log == v.log + more
    requires forall n | n in more :: n.MissedNotice? || n.ExistingParticipants? || n.RemovedBy? || n.ParticipantAdded?
    ensures TrueTo(w)
  {
    StoryQuiet(v.log, more, v.row.initiator, v.row.scope);
    forall u: UserId ensures Story(w.log, u) == Story(v.log, u) && Rings(w.log, u) == Rings(v.log, u) {
      StoryQuiet(v.log, more, u, v.row.scope);
    }
  }

  lemma AcceptIsTrue(v: CallView, user: UserId, info: Option<PeerInfo>, now: int)
    requires TrueTo(v)
    ensures TrueTo(AcceptView(v, user, info, now))
  {
    var w := AcceptView(v, user, info, now);
    var told := [ExistingParticipants(user, Introductions(v.active, v.info))];
    var x := v.(log := v.log + told);
    QuietIsTrue(v, x, told);
    assert w.log == x.log + [Accepted(user, info)];
    var ps, i := v.row.participants, IndexOf(v.row.participants, user);
    if i >= 0 {
      OneRowTold(x, w, i, ps[i].(status := Joined, joinedAt := Some(now)), Accepted(user, info));
    } else {
      assert forall p | p in ps :: p.user != user;
      assert forall k | 0 <= k < |ps| :: ps[k] in ps;
      AllRowsTold(x, w, Accepted(user, info));
    }
  }

  lemma DeclineIsTrue(v: CallView, user: UserId, now: int)
    requires TrueTo(v)
    ensures TrueTo(DeclineView(v, user, now))
  {
    var w, ps, i := DeclineView(v, user, now), v.row.participants, IndexOf(v.row.participants, user);
    if i >= 0 {
      OneRowTold(v, w, i, ps[i].(status := DeclinedInvite), DeclinedBy(user));
    } else {
      assert forall k | 0 <= k < |ps| :: ps[k] in ps;
      AllRowsTold(v, w, DeclinedBy(user));
    }
  }

  lemma LeaveIsTrue(v: CallView, user: UserId, now: int, clearTimer: bool)
    requires TrueTo(v)
    ensures TrueTo(LeaveView(v, user, now, clearTimer))
  {
    var w, ps, i := LeaveView(v, user, now, clearTimer), v.row.participants, IndexOf(v.row.participants, user);
    assert forall k | 0 <= k < |ps| :: ps[k] in ps;
    if EndsFully(v.row, user, now) {
      AllRowsTold(v, w, EndedBy(user, w.row.durationSeconds));
    } else if i >= 0 && ps[i].status.Joined? {
      OneRowTold(v, w, i, ps[i].(status := Left, leftAt := Some(now)), LeftCall(user));
    } else {
      assert i >= 0 ==> forall k | 0 <= k < |ps| && ps[k].user == user :: k == i;
      AllRowsTold(v, w, LeftCall(user));
    }
  }

  lemma KickIsTrue(v: CallView, host: UserId, target: UserId, now: int)
    requires TrueTo(v)
    ensures TrueTo(KickView(v, host, target, now))
  {
    var w, ps, i := KickView(v, host, target, now), v.row.participants, JoinedIndexOf(v.row.participants, target);
    if KickRow(v.row, host, target, now).Success? {
      var x := v.(log := v.log + [RemovedBy(target, host)]);
      QuietIsTrue(v, x, [RemovedBy(target, host)]);
      assert w.log == x.log + [LeftCall(target)];
      IndexOfJoined(ps, i);
      OneRowTold(x, w, i, ps[i].(status := Left, leftAt := Some(now)), LeftCall(target));
    }
  }

  lemma IndexOfJoined(ps: seq<Participant>, i: nat)
    requires UniqueUsers(ps) && i < |ps|
    ensures IndexOf(ps, ps[i].user) == i
  {
    assert ps[i] in ps;
  }

  lemma AddIsTrue(v: CallView, host: UserId, target: UserId, known: bool)
    requires TrueTo(v)
    ensures TrueTo(AddView(v, host, target, known))
  {
    var w, ps := AddView(v, host, target, known), v.row.participants;
    if AddRow(v.row, host, target, known).Success? {
      var rung := v.(row := w.row, log := v.log + [Incoming(target)]);
      CallAppend(v.log, Incoming(target), v.row.scope);
      ListedIffFound(ps, target);
      assert UniqueUsers(w.row.participants) by {
        assert forall k | 0 <= k < |ps| :: ps[k] in ps;
      }
      forall u: UserId
        ensures StatusOf(w.row.participants, u) == Story(rung.log, u)
        ensures Rings(rung.log, u) == Rings(v.log, u) + if u == target then 1 else 0
        ensures Listed(w.row.participants, u) <==> Listed(ps, u) || u == target
      {
        StoryAppend(v.log, Incoming(target), u);
        AddedRow(ps, target, u);
      }
      assert w.log == rung.log + [ParticipantAdded(target)];
      QuietIsTrue(rung, w, [ParticipantAdded(target)]);
    }
  }

  lemma AddedRow(ps: seq<Participant>, target: UserId, user: UserId)
    requires IndexOf(ps, target) < 0
    ensures StatusOf(ps + [InviteRow(target)], user) == if user == target then Some(Invited) else StatusOf(ps, user)
    ensures Listed(ps + [InviteRow(target)], user) <==> Listed(ps, user) || user == target
  {
    var qs := ps + [InviteRow(target)];
    assert qs[|ps|] == InviteRow(target);
    assert forall k | 0 <= k < |ps| :: qs[k] == ps[k] && ps[k] in ps;
    ListedIffFound(ps, user);
    ListedIffFound(qs, user);
    if IndexOf(ps, user) >= 0 {
      IndexIs(qs, user, IndexOf(ps, user));
    } else if user == target {
      IndexIs(qs, user, |ps|);
    } else {
      assert forall q | q in qs :: q in ps || q == InviteRow(target);
    }
  }

  lemma TimeoutIsTrue(v: CallView, now: int)
    requires TrueTo(v)
    ensures TrueTo(TimeoutView(v, now))
  {
    var w := TimeoutView(v, now);
    if v.timer.Some? && now >= v.timer.value.deadline && v.row.status.Ringing? {
      var x := w.(log := v.log + [MissedCall]);
      AllRowsTold(v, x, MissedCall);
      assert w.log == x.log + MissedAll(v.timer.value.callees);
      QuietIsTrue(x, w, MissedAll(v.timer.value.callees));
    } else {
      assert w.row == v.row && w.log == v.log;
    }
  }

  // ----- The first messages -----------------------------------------------------------------------------

  lemma {:induction false} RingsOf(callees: seq<UserId>, user: UserId, scope: CallScope)
    requires Distinct(callees)
    ensures Rings(RingAll(callees), user) == if user in callees then 1 else 0
    ensures Story(RingAll(callees), user) == if user in callees then Some(Invited) else None
    ensures StoryOfCall(RingAll(callees), scope) == Ringing
  {
    if callees != [] {
      var last := |callees| - 1;
      var front := callees[..last];
      assert forall k | 0 <= k < last :: front[k] == callees[k];
      RingsOf(front, user, scope);
      assert RingAll(callees) == RingAll(front) + [Incoming(callees[last])];
      StoryAppend(RingAll(front), Incoming(callees[last]), user);
      CallAppend(RingAll(front), Incoming(callees[last]), scope);
      assert user in callees <==> user in front || user == callees[last];
    }
  }

  lemma InitiateIsTrue(caller: UserId, members: seq<UserId>, scope: CallScope, info: PeerInfo, now: int)
    requires Distinct(members)
    ensures TrueTo(InitiateView(caller, Callees(members, caller), scope, info, now))
  {
    var callees := Callees(members, caller);
    var v := InitiateView(caller, callees, scope, info, now);
    CalleesDistinct(members, caller);
    InitiateIsSynced(caller, members, scope, info, now);
    var ps := v.row.participants;
    forall u: UserId
      ensures StatusOf(ps, u) == Story(v.log, u)
      ensures Rings(v.log, u) == if u in callees then 1 else 0
      ensures Listed(ps, u) <==> u == caller || u in callees
    {
      RingsOf(callees, u, scope);
      StoryAppend(RingAll(callees), Initiated(caller), u);
      FirstRows(caller, callees, now, u);
    }
    RingsOf(callees, caller, scope);
    CallAppend(RingAll(callees), Initiated(caller), scope);
  }

  lemma FirstRows(caller: UserId, callees: seq<UserId>, now: int, user: UserId)
    requires Distinct(callees) && caller !in callees
    ensures var ps := [Participant(caller, Joined, Some(now), None)] + InviteAll(callees);
            && (StatusOf(ps, user) ==
                if user == caller then Some(Joined) else if user in callees then Some(Invited) else None)
            && (Listed(ps, user) <==> user == caller || user in callees)
  {
    var first, rest := Participant(caller, Joined, Some(now), None), InviteAll(callees);
    assert ([first] + rest)[1..] == rest;
    ListedIffFound([first] + rest, user);
    InvitedRow(callees, user);
  }

  lemma InvitedRow(callees: seq<UserId>, user: UserId)
    ensures RowFor(InviteAll(callees), user) == if user in callees then Some(InviteRow(user)) else None
  {
    var ps := InviteAll(callees);
    if user in callees {
      var k :| 0 <= k < |callees| && callees[k] == user;
      assert ps[k] in ps && ps[k].user == user;
      assert IndexOf(ps, user) >= 0;
    } else {
      assert forall q | q in ps :: q.user in callees;
    }
  }

  // ----- Runs -------------------------------------------------------------------------------------------

  /** New calls get new ids, of conversations that list their members once. */
  ghost predicate Fresh(s: Server, e: Event) {
    e.Initiate? ==> e.newId !in s.views && (e.members.Some? ==> Distinct(e.members.value))
  }

  ghost predicate FreshRun(s: Server, events: seq<Timed>)
    decreases |events|
  {
    events == [] || (Fresh(s, events[0].event) && FreshRun(Step(s, events[0].event, events[0].now), events[1..]))
  }

  ghost predicate AllTrue(s: Server) {
    forall id | id in s.views :: TrueTo(s.views[id])
  }

  lemma HandledIsTrue(s: Server, t: Timed, socket: SocketId, call: CallId, id: CallId)
    requires AllTrue(s) && id in s.views
    ensures TrueTo(OnCall(s, socket, call, t.event, t.now)[id])
  {
    if socket in s.registry.socketToUser && id == call {
      HandleIsTrue(s.views[id], s.registry.socketToUser[socket], t.event, t.now);
    }
  }

  lemma HandleIsTrue(v: CallView, user: UserId, e: Event, now: int)
    requires TrueTo(v)
    ensures TrueTo(Handle(v, user, e, now))
  {
    match e
    case Accept(_, _, info) => AcceptIsTrue(v, user, info, now);
    case Decline(_, _) => DeclineIsTrue(v, user, now);
    case HangUpCall(_, _) => LeaveIsTrue(v, user, now, true);
    case Add(_, _, target, known) => AddIsTrue(v, user, target, known);
    case Kick(_, _, target) => KickIsTrue(v, user, target, now);
    case _ =>
  }

  lemma OneViewIsTrue(s: Server, t: Timed, id: CallId)
    requires AllTrue(s) && Fresh(s, t.event) && id in Step(s, t.event, t.now).views
    ensures TrueTo(Step(s, t.event, t.now).views[id])
  {
    match t.event {
      case Initiate(socket, _, members, scope, caller) =>
        if id !in s.views {
          InitiateIsTrue(s.registry.socketToUser[socket], members.value, scope, caller.value, t.now);
        }
      case Disconnect(socket) =>
        var gone := Departing(s.registry, socket);
        if gone.Some? {
          LeaveIsTrue(s.views[id], gone.value, t.now, false);
        }
      case RingTimeout(_) => TimeoutIsTrue(s.views[id], t.now);
      case Accept(socket, call, _) => HandledIsTrue(s, t, socket, call, id);
      case Decline(socket, call) => HandledIsTrue(s, t, socket, call, id);
      case HangUpCall(socket, call) => HandledIsTrue(s, t, socket, call, id);
      case Add(socket, call, _, _) => HandledIsTrue(s, t, socket, call, id);
      case Kick(socket, call, _) => HandledIsTrue(s, t, socket, call, id);
      case Connect(_, _) =>
    }
  }

  /**
   In every run the statuses of calls and participants are what the messages sent tell, and every user with a
   row but the caller was rung, once.
   */
  lemma {:induction false} RunIsTrue(s: Server, events: seq<Timed>)
    requires AllTrue(s) && FreshRun(s, events)
    ensures AllTrue(Run(s, events))
    decreases |events|
  {
    if events != [] {
      var next := Step(s, events[0].event, events[0].now);
      forall id | id in next.views ensures TrueTo(next.views[id]) {
        OneViewIsTrue(s, events[0], id);
      }
      RunIsTrue(next, events[1..]);
    }
  }

  /** A new call: of distinct members everybody but the caller is rung exactly once, and nobody else. */
  lemma EverybodyElseIsRung(caller: UserId, members: seq<UserId>, scope: CallScope,
                            info: PeerInfo, now: int, user: UserId)
    requires Distinct(members)
    ensures var v := InitiateView(caller, Callees(members, caller), scope, info, now);
            Count(v.log, (n: Notice) => n == Incoming(user)) == if user in members && user != caller then 1 else 0
  {
    CalleesDistinct(members, caller);
    RingsOf(Callees(members, caller), user, scope);
    StoryAppend(RingAll(Callees(members, caller)), Initiated(caller), user);
  }
}
