/** The gateway's in-memory presence sets agree with the JOINED participant rows. */
module CallPresence {
  import opened Common
  import opened Sockets
  import opened CallModel
  import opened CallLifecycle

  /** One row per user; the cache holds exactly the JOINED users; details are kept only for present users. */
  ghost predicate Synced(v: CallView) {
    && UniqueUsers(v.row.participants)
    && Present(v) == JoinedUsers(v.row.participants)
    && InfoOf(v).Keys <= Present(v)
  }

  // ----- Rows -------------------------------------------------------------------------------------------

  lemma ListedIffFound(ps: seq<Participant>, user: UserId)
    ensures Listed(ps, user) <==> IndexOf(ps, user) >= 0
  {
    if Listed(ps, user) {
      var i :| 0 <= i < |ps| && ps[i].user == user;
      assert ps[i] in ps;
    }
  }

  /** Replacing a user's row changes the JOINED set at that user only. */
  lemma JoinedAfterUpdate(ps: seq<Participant>, i: nat, p: Participant)
    requires UniqueUsers(ps) && i < |ps| && p.user == ps[i].user
    ensures UniqueUsers(ps[i := p])
    ensures JoinedUsers(ps[i := p]) ==
            if p.status.Joined? then JoinedUsers(ps) + {p.user} else JoinedUsers(ps) - {p.user}
  {
    var qs := ps[i := p];
    forall u | u != p.user ensures u in JoinedUsers(qs) <==> u in JoinedUsers(ps) {
      JoinedMember(ps, u);
      JoinedMember(qs, u);
      if k :| 0 <= k < |ps| && ps[k].user == u && ps[k].status.Joined? {
        assert qs[k] == ps[k];
      }
      if k :| 0 <= k < |qs| && qs[k].user == u && qs[k].status.Joined? {
        assert qs[k] == ps[k];
      }
    }
    JoinedMember(qs, p.user);
    assert qs[i] == p;
    assert forall k | 0 <= k < |qs| && qs[k].user == p.user :: k == i;
  }

  lemma JoinedMember(ps: seq<Participant>, user: UserId)
    ensures user in JoinedUsers(ps) <==> exists k :: 0 <= k < |ps| && ps[k].user == user && ps[k].status.Joined?
  {
  }

  lemma MarkLeftRemoves(ps: seq<Participant>, user: UserId, now: int)
    requires UniqueUsers(ps)
    ensures UniqueUsers(MarkLeft(ps, user, now)) && JoinedUsers(MarkLeft(ps, user, now)) == JoinedUsers(ps) - {user}
  {
    var i := IndexOf(ps, user);
    if i >= 0 {
      if ps[i].status.Joined? {
        JoinedAfterUpdate(ps, i, ps[i].(status := Left, leftAt := Some(now)));
      } else {
        JoinedMember(ps, user);
      }
    }
  }

  lemma AnyJoinedIff(ps: seq<Participant>)
    ensures AnyJoined(ps) <==> JoinedUsers(ps) != {}
  {
    if p :| p in ps && p.status.Joined? {
      assert p.user in JoinedUsers(ps);
    }
  }

  // ----- Handlers ---------------------------------------------------------------------------------------

  /** Accepting keeps cache and table in step exactly when the accepting user was invited. */
  lemma AcceptKeepsSync(v: CallView, user: UserId, info: Option<PeerInfo>, now: int)
    requires Synced(v)
    ensures Synced(AcceptView(v, user, info, now)) <==> Listed(v.row.participants, user)
  {
    var ps := v.row.participants;
    var i := IndexOf(ps, user);
    ListedIffFound(ps, user);
    if i >= 0 {
      JoinedAfterUpdate(ps, i, ps[i].(status := Joined, joinedAt := Some(now)));
    } else {
      JoinedMember(ps, user);
    }
  }

  /** Declining keeps them in step exactly when the declining user is not in the call. */
  lemma DeclineKeepsSync(v: CallView, user: UserId, now: int)
    requires Synced(v)
    ensures Synced(DeclineView(v, user, now)) <==> user !in Present(v)
  {
    var ps := v.row.participants;
    var i := IndexOf(ps, user);
    if i >= 0 {
      JoinedAfterUpdate(ps, i, ps[i].(status := DeclinedInvite));
    } else {
      JoinedMember(ps, user);
    }
  }

  /**
   Leaving keeps them in step; a call that goes on still has somebody in it, so the clean-up of an empty
   set is never reached; a call ends for everybody exactly when it is direct or nobody else is present.
   */
  lemma LeaveKeepsSync(v: CallView, user: UserId, now: int, clearTimer: bool)
    requires Synced(v)
    ensures Synced(LeaveView(v, user, now, clearTimer))
    ensures EndsFully(v.row, user, now) <==> v.row.scope.DirectCall? || Present(v) <= {user}
    ensures var w := LeaveView(v, user, now, clearTimer);
            if EndsFully(v.row, user, now) then Present(w) == {}
            else w.active == Some(Present(v) - {user}) && Present(w) != {}
  {
    var ps := MarkLeft(v.row.participants, user, now);
    MarkLeftRemoves(v.row.participants, user, now);
    AnyJoinedIff(ps);
    assert JoinedUsers(HangUpAll(ps, now)) == {};
  }

  lemma KickKeepsSync(v: CallView, host: UserId, target: UserId, now: int)
    requires Synced(v)
    ensures Synced(KickView(v, host, target, now))
    ensures KickRow(v.row, host, target, now).Success? <==>
              host == v.row.initiator && v.row.scope.GroupCall? && target in Present(v)
  {
    var ps := v.row.participants;
    var i := JoinedIndexOf(ps, target);
    if i >= 0 {
      JoinedAfterUpdate(ps, i, ps[i].(status := Left, leftAt := Some(now)));
      assert ps[i] in ps;
    }
  }

  lemma AddKeepsSync(v: CallView, host: UserId, target: UserId, known: bool)
    requires Synced(v)
    ensures Synced(AddView(v, host, target, known)) && Present(AddView(v, host, target, known)) == Present(v)
    ensures AddRow(v.row, host, target, known).Success? <==>
              host == v.row.initiator && v.row.scope.GroupCall? && !Listed(v.row.participants, target) && known
    ensures AddRow(v.row, host, target, known).Success? ==>
              Listed(AddView(v, host, target, known).row.participants, target)
  {
    var ps := v.row.participants;
    ListedIffFound(ps, target);
    if AddRow(v.row, host, target, known).Success? {
      var qs := ps + [InviteRow(target)];
      assert qs[|ps|].user == target;
      assert forall k | 0 <= k < |ps| :: ps[k] in ps;
      assert forall p :: p in qs <==> p in ps || p == InviteRow(target);
      assert JoinedUsers(qs) == JoinedUsers(ps);
    }
  }

  lemma TimeoutKeepsSync(v: CallView, now: int)
    requires Synced(v)
    ensures Synced(TimeoutView(v, now))
  {
    var ps := v.row.participants;
    var qs := MissAll(ps);
    forall u: UserId ensures u in JoinedUsers(qs) <==> u in JoinedUsers(ps) {
      if k :| 0 <= k < |ps| && ps[k].user == u && ps[k].status.Joined? {
        assert qs[k] == ps[k];
      }
      if k :| 0 <= k < |qs| && qs[k].user == u && qs[k].status.Joined? {
        assert qs[k] == ps[k];
      }
      JoinedMember(ps, u);
      JoinedMember(qs, u);
    }
    assert JoinedUsers(qs) == JoinedUsers(ps);
  }

  /** A conversation lists each member once, so a new call has one row per user. */
  lemma {:induction false} CalleesDistinct(members: seq<UserId>, caller: UserId)
    requires Distinct(members)
    ensures Distinct(Callees(members, caller))
  {
    if members != [] {
      CalleesDistinct(members[1..], caller);
      assert forall k | 0 <= k < |members[1..]| :: members[1..][k] == members[k + 1];
      assert members[0] !in members[1..];
    }
  }

  lemma InitiateIsSynced(caller: UserId, members: seq<UserId>, scope: CallScope, info: PeerInfo, now: int)
    requires Distinct(members)
    ensures Synced(InitiateView(caller, Callees(members, caller), scope, info, now))
  {
    var callees := Callees(members, caller);
    CalleesDistinct(members, caller);
    var ps := NewCall(caller, callees, scope, now).participants;
    assert ps[0].user == caller;
    assert forall k | 0 < k < |ps| :: ps[k] == InviteRow(callees[k - 1]) && callees[k - 1] in callees;
    forall u: UserId ensures u in JoinedUsers(ps) <==> u == caller {
      JoinedMember(ps, u);
      assert ps[0].status.Joined?;
    }
    assert JoinedUsers(ps) == {caller};
  }

  // ----- Runs -------------------------------------------------------------------------------------------

  /** Whoever accepts was invited, nobody declines a call they are in, and conversations list members once. */
  ghost predicate Polite(s: Server, e: Event) {
    match e
    case Accept(socket, call, _) =>
      socket in s.registry.socketToUser && call in s.views ==>
        Listed(s.views[call].row.participants, s.registry.socketToUser[socket])
    case Decline(socket, call) =>
      socket in s.registry.socketToUser && call in s.views ==>
        s.registry.socketToUser[socket] !in Present(s.views[call])
    case Initiate(_, newId, members, _, _) => newId !in s.views && (members.Some? ==> Distinct(members.value))
    case _ => true
  }

  ghost predicate PoliteRun(s: Server, events: seq<Timed>)
    decreases |events|
  {
    events == [] || (Polite(s, events[0].event) && PoliteRun(Step(s, events[0].event, events[0].now), events[1..]))
  }

  ghost predicate AllSynced(s: Server) {
    forall id | id in s.views :: Synced(s.views[id])
  }

  lemma OneViewIsSynced(s: Server, t: Timed, id: CallId)
    requires AllSynced(s) && Polite(s, t.event) && id in Step(s, t.event, t.now).views
    ensures Synced(Step(s, t.event, t.now).views[id])
  {
    match t.event {
      case Initiate(socket, newId, members, scope, caller) =>
        if id !in s.views {
          InitiateIsSynced(s.registry.socketToUser[socket], members.value, scope, caller.value, t.now);
        }
      case Disconnect(socket) =>
        var gone := Departing(s.registry, socket);
        if gone.Some? {
          LeaveKeepsSync(s.views[id], gone.value, t.now, false);
        }
      case RingTimeout(_) => TimeoutKeepsSync(s.views[id], t.now);
      case Accept(socket, call, info) =>
        if socket in s.registry.socketToUser {
          AcceptKeepsSync(s.views[id], s.registry.socketToUser[socket], info, t.now);
        }
      case Decline(socket, call) =>
        if socket in s.registry.socketToUser {
          DeclineKeepsSync(s.views[id], s.registry.socketToUser[socket], t.now);
        }
      case HangUpCall(socket, _) =>
        if socket in s.registry.socketToUser {
          LeaveKeepsSync(s.views[id], s.registry.socketToUser[socket], t.now, true);
        }
      case Add(socket, _, target, known) =>
        if socket in s.registry.socketToUser {
          AddKeepsSync(s.views[id], s.registry.socketToUser[socket], target, known);
        }
      case Kick(socket, _, target) =>
        if socket in s.registry.socketToUser {
          KickKeepsSync(s.views[id], s.registry.socketToUser[socket], target, t.now);
        }
      case Connect(_, _) =>
    }
  }

  /** After every polite run the cache of every call is exactly the set of its JOINED participants. */
  lemma {:induction false} RunIsSynced(s: Server, events: seq<Timed>)
    requires AllSynced(s) && PoliteRun(s, events)
    ensures AllSynced(Run(s, events))
    decreases |events|
  {
    if events != [] {
      var next := Step(s, events[0].event, events[0].now);
      forall id | id in next.views ensures Synced(next.views[id]) {
        OneViewIsSynced(s, events[0], id);
      }
      RunIsSynced(next, events[1..]);
    }
  }

  // ----- Calls that go on with nobody in them -------------------------------------------------------------

  /** A call that is not over has somebody present. */
  ghost predicate Attended(v: CallView) {
    Terminal(v.row.status) || Present(v) != {}
  }

  /** The one thing that leaves a call going on with nobody present: removing the only one. */
  predicate RemovesLast(v: CallView, user: UserId, e: Event, now: int) {
    e.Kick? && !Terminal(v.row.status) && Present(v) == {e.target} && KickRow(v.row, user, e.target, now).Success?
  }

  /** A handler keeps a call attended if and only if it does not remove the only user present. */
  lemma AttendedExactly(v: CallView, user: UserId, e: Event, now: int)
    requires Synced(v) && Attended(v)
    ensures Attended(Handle(v, user, e, now)) <==> !RemovesLast(v, user, e, now)
  {
    match e
    case HangUpCall(_, _) => LeaveKeepsSync(v, user, now, true);
    case Kick(_, _, target) => KickKeepsSync(v, user, target, now);
    case _ =>
  }

  /** No handler of the run removes the only user present. */
  ghost predicate Sparing(s: Server, t: Timed) {
    t.event.Kick? && t.event.socket in s.registry.socketToUser && t.event.call in s.views ==>
      !RemovesLast(s.views[t.event.call], s.registry.socketToUser[t.event.socket], t.event, t.now)
  }

  ghost predicate SparingRun(s: Server, events: seq<Timed>)
    decreases |events|
  {
    events == [] || (Sparing(s, events[0]) && SparingRun(Step(s, events[0].event, events[0].now), events[1..]))
  }

  lemma HandledIsAttended(s: Server, t: Timed, socket: SocketId, call: CallId, id: CallId)
    requires id in s.views && Synced(s.views[id]) && Attended(s.views[id])
    requires socket in s.registry.socketToUser && id == call ==>
               !RemovesLast(s.views[id], s.registry.socketToUser[socket], t.event, t.now)
    ensures Attended(OnCall(s, socket, call, t.event, t.now)[id])
  {
    if socket in s.registry.socketToUser && id == call {
      AttendedExactly(s.views[id], s.registry.socketToUser[socket], t.event, t.now);
    }
  }

  lemma OneViewIsAttended(s: Server, t: Timed, id: CallId)
    requires AllSynced(s) && Sparing(s, t) && id in Step(s, t.event, t.now).views
    requires forall other | other in s.views :: Attended(s.views[other])
    ensures Attended(Step(s, t.event, t.now).views[id])
  {
    match t.event {
      case Disconnect(socket) =>
        var gone := Departing(s.registry, socket);
        if gone.Some? {
          LeaveKeepsSync(s.views[id], gone.value, t.now, false);
        }
      case Accept(socket, call, _) => HandledIsAttended(s, t, socket, call, id);
      case Decline(socket, call) => HandledIsAttended(s, t, socket, call, id);
      case HangUpCall(socket, call) => HandledIsAttended(s, t, socket, call, id);
      case Add(socket, call, _, _) => HandledIsAttended(s, t, socket, call, id);
      case Kick(socket, call, _) => HandledIsAttended(s, t, socket, call, id);
      case _ =>
    }
  }

  /** After every polite run without such a removal each call that is not over has somebody present. */
  lemma {:induction false} RunIsAttended(s: Server, events: seq<Timed>)
    requires AllSynced(s) && PoliteRun(s, events) && SparingRun(s, events)
    requires forall id | id in s.views :: Attended(s.views[id])
    ensures forall id | id in Run(s, events).views :: Attended(Run(s, events).views[id])
    decreases |events|
  {
    if events != [] {
      var t, next := events[0], Step(s, events[0].event, events[0].now);
      assert AllSynced(next) by {
        forall id | id in next.views ensures Synced(next.views[id]) {
          OneViewIsSynced(s, t, id);
        }
      }
      forall id | id in next.views ensures Attended(next.views[id]) {
        OneViewIsAttended(s, t, id);
      }
      RunIsAttended(next, events[1..]);
    }
  }
}
