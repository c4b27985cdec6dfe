/**
 The moments a call records, the details it tells, and the errors of its operations, said of their observable
 results.
 */
module CallStamps {
  import opened Common
  import opened Sockets
  import opened CallModel
  import opened CallPresence

  // ----- Moments ----------------------------------------------------------------------------------------

  /** A participant row changes its times only with its status, and to the moment of the change. */
  predicate RowStamped(before: Participant, after: Participant, now: int) {
    && after.user == before.user
    && (after.joinedAt != before.joinedAt ==> after.status.Joined? && after.joinedAt == Some(now))
    && (after.status.Joined? && !before.status.Joined? ==> after.joinedAt == Some(now))
    && (after.leftAt != before.leftAt ==> after.status.Left? && after.leftAt == Some(now))
    && (after.status.Left? && !before.status.Left? ==> after.leftAt == Some(now))
  }

  /** So does a call; a call that was started and ends lasts the nearest number of seconds, halves rounded up. */
  ghost predicate CallStamped(before: Call, after: Call, now: int) {
    && after.createdAt == before.createdAt && after.initiator == before.initiator && after.scope == before.scope
    && |after.participants| >= |before.participants|
    && (forall i | 0 <= i < |before.participants| :: RowStamped(before.participants[i], after.participants[i], now))
    && (after.startedAt != before.startedAt ==> before.status == Ringing && after.status == Active)
    && (before.status == Ringing && after.status == Active ==> after.startedAt == Some(now))
    && (after.endedAt != before.endedAt ==> after.status in {Ended, Missed, Declined} && after.endedAt == Some(now))
    && (after.status != before.status && after.status in {Ended, Missed, Declined} ==> after.endedAt == Some(now))
    && (after.status == Ended && (before.status != Ended || after.endedAt != before.endedAt) &&
        before.startedAt.Some? ==>
          && after.durationSeconds.Some?
          && 2 * (now - before.startedAt.value) < 2000 * after.durationSeconds.value + 1000
          && 2000 * after.durationSeconds.value - 1000 <= 2 * (now - before.startedAt.value))
    && (after.durationSeconds != before.durationSeconds ==> after.status == Ended)
  }

  lemma LeaveIsStamped(row: Call, user: UserId, now: int)
    ensures CallStamped(row, EndRow(row, user, now), now)
  {
    var after := EndRow(row, user, now);
    forall i | 0 <= i < |row.participants| ensures RowStamped(row.participants[i], after.participants[i], now) {
    }
  }

  /** Every handler stamps what it changes with its own moment. */
  lemma HandleIsStamped(v: CallView, user: UserId, e: Event, now: int)
    ensures CallStamped(v.row, Handle(v, user, e, now).row, now)
  {
    match e
    case HangUpCall(_, _) => LeaveIsStamped(v.row, user, now);
    case _ =>
  }

  lemma DepartureIsStamped(v: CallView, user: UserId, now: int)
    ensures CallStamped(v.row, LeaveView(v, user, now, false).row, now)
  {
    LeaveIsStamped(v.row, user, now);
  }

  /** A timer fires 30 seconds after the call was made, and then only for a call that still rings. */
  lemma TimeoutIsStamped(caller: UserId, callees: seq<UserId>, scope: CallScope,
                         info: PeerInfo, made: int, v: CallView, now: int)
    ensures InitiateView(caller, callees, scope, info, made).timer == Some(RingTimer(made + 30_000, callees))
    ensures CallStamped(v.row, TimeoutView(v, now).row, now)
    ensures TimeoutView(v, now).row != v.row ==>
              v.timer.Some? && now >= v.timer.value.deadline && v.row.status == Ringing &&
                TimeoutView(v, now).row.status == Missed
    ensures v.timer.Some? && now >= v.timer.value.deadline ==> TimeoutView(v, now).timer.None?
  {
  }

  /** A new call as it is stored. */
  lemma InitiateIsStamped(caller: UserId, members: seq<UserId>, scope: CallScope, info: PeerInfo, now: int)
    ensures var row := InitiateView(caller, Callees(members, caller), scope, info, now).row;
            && row.initiator == caller && row.scope == scope && row.createdAt == now && row.status == Ringing
            && row.startedAt.None? && row.endedAt.None? && row.durationSeconds.None?
            && |row.participants| >= 1 && row.participants[0] == Participant(caller, Joined, Some(now), None)
            && forall p | p in row.participants[1..] ::
                 p.user in members && p.user != caller && p.status == Invited && p.joinedAt.None? && p.leftAt.None?
  {
    var callees := Callees(members, caller);
    var ps := InitiateView(caller, callees, scope, info, now).row.participants;
    assert ps[1..] == InviteAll(callees);
    forall p | p in InviteAll(callees) ensures p.user in callees && p == Participant(p.user, Invited, None, None) {
      var i :| 0 <= i < |callees| && InviteAll(callees)[i] == p;
    }
  }

  // ----- Who is told ------------------------------------------------------------------------------------

  /** When a ring timeout is missed everybody who was to be rung is told, and nobody else. */
  lemma MissedIsTold(v: CallView, now: int, user: UserId)
    requires v.timer.Some? && now >= v.timer.value.deadline
    ensures var more := TimeoutView(v, now).log[|v.log|..];
            && v.log <= TimeoutView(v, now).log
            && (MissedCall in more <==> v.row.status == Ringing)
            && (MissedNotice(user) in more <==> v.row.status == Ringing && user in v.timer.value.callees)
  {
    var more := TimeoutView(v, now).log[|v.log|..];
    if v.row.status == Ringing {
      var notices := MissedAll(v.timer.value.callees);
      assert more == [MissedCall] + notices;
      if user in v.timer.value.callees {
        var i :| 0 <= i < |v.timer.value.callees| && v.timer.value.callees[i] == user;
        assert notices[i] == MissedNotice(user);
      }
      forall n | n in notices ensures n.MissedNotice? && n.callee in v.timer.value.callees {
      }
    } else {
      assert more == [];
    }
  }

  /**
   A removal the initiator asks of a group call takes a JOINED user out, tells them by whom, and then the others;
   any other one leaves everything as it is.
   */
  lemma RemovalActs(v: CallView, host: UserId, target: UserId, now: int)
    requires Synced(v)
    ensures var w := KickView(v, host, target, now);
            if host == v.row.initiator && v.row.scope == GroupCall && target in Present(v)
            then
              && w.log == v.log + [RemovedBy(target, host), LeftCall(target)]
              && Present(w) == Present(v) - {target} &&
                JoinedUsers(w.row.participants) == JoinedUsers(v.row.participants) - {target}
              && w.row.status == v.row.status && w.timer == v.timer
              && (w.info.Some? <==> v.info.Some?) && (w.info.Some? ==> w.info.value == v.info.value - {target})
            else w == v
  {
    KickKeepsSync(v, host, target, now);
  }

  /**
   An invitation the initiator sends to a known user without a row adds that row, rings the user and tells the
   others; any other one leaves everything as it is.
   */
  lemma InvitationActs(v: CallView, host: UserId, target: UserId, known: bool)
    ensures var w := AddView(v, host, target, known);
            if host == v.row.initiator && v.row.scope == GroupCall && !Listed(v.row.participants, target) && known
            then
              && w == v.(row := w.row, log := v.log + [Incoming(target), ParticipantAdded(target)])
              && w.row.participants == v.row.participants + [Participant(target, Invited, None, None)]
            else w == v
  {
    ListedIffFound(v.row.participants, target);
  }

  /** A decline tells everybody in the call; only that of a direct call ends it and stops the ringing. */
  lemma DeclineActs(v: CallView, user: UserId, now: int)
    ensures var w := DeclineView(v, user, now);
            && w.log == v.log + [DeclinedBy(user)]
            && w.active == v.active && w.info == v.info
            && w.timer == (if v.row.scope == DirectCall then None else v.timer)
            && w.row.status == (if v.row.scope == DirectCall then Declined else v.row.status)
            && (Listed(v.row.participants, user) ==>
                  exists i :: 0 <= i < |w.row.participants| && w.row.participants[i].user == user &&
                    w.row.participants[i].status == DeclinedInvite)
  {
    ListedIffFound(v.row.participants, user);
    if Listed(v.row.participants, user) {
      var i := IndexOf(v.row.participants, user);
      assert DeclineView(v, user, now).row.participants[i].user == user;
    }
  }

  /** Who leaves a call is told of, or that it ended, by whom and after how long. */
  lemma LeaveIsTold(v: CallView, user: UserId, now: int, clearTimer: bool)
    ensures var w := LeaveView(v, user, now, clearTimer);
            && |w.log| == |v.log| + 1
            && (w.row.status == Ended && EndsFully(v.row, user, now) ==>
                w.log[|v.log|] == EndedBy(user, w.row.durationSeconds))
            && (!EndsFully(v.row, user, now) ==> w.log[|v.log|] == LeftCall(user))
            && (w.timer == if EndsFully(v.row, user, now) && clearTimer then None else v.timer)
  {
  }

  // ----- Details ----------------------------------------------------------------------------------------

  /**
   A joiner is told of everybody present before them, by the first and last name and the picture known of each,
   an empty picture being none, and by empty names where nothing is known; and then the others of the joiner.
   */
  lemma JoinerIsTold(v: CallView, user: UserId, info: Option<PeerInfo>, now: int, peer: UserId)
    ensures var w := AcceptView(v, user, info, now);
            && |w.log| == |v.log| + 2
            && w.log[|v.log|].ExistingParticipants? && w.log[|v.log|].joiner == user
            && w.log[|v.log| + 1] == Accepted(user, info)
            && Present(w) == Present(v) + {user} && w.timer.None?
            && (v.row.status == Ringing ==> w.row.status == Active)
            && (peer in w.log[|v.log|].peers <==> peer in Present(v))
            && (peer in Present(v) ==>
                  var told := w.log[|v.log|].peers[peer];
                  if v.info.Some? && peer in v.info.value
                  then
                    var known := v.info.value[peer];
                    && told.firstName == known.firstName && told.lastName == known.lastName
                    && (known.avatar == Some("") ==> told.avatar.None?)
                    && (known.avatar != Some("") ==> told.avatar == known.avatar)
                  else told == PeerInfo("", "", None))
  {
  }

  /** What a joiner gives is what is known of them from then on; nobody else's details change. */
  lemma DetailsAreKept(v: CallView, user: UserId, info: Option<PeerInfo>, now: int, peer: UserId)
    ensures var w := AcceptView(v, user, info, now);
            && (info.Some? ==> w.info.Some? && user in w.info.value && w.info.value[user] == info.value)
            && (info.None? ==> w.info == v.info)
            && (peer != user && v.info.Some? ==> w.info.Some? && (peer in w.info.value <==> peer in v.info.value))
            && (peer != user && v.info.Some? && peer in v.info.value ==> w.info.value[peer] == v.info.value[peer])
  {
  }

  /** Of a leaver no details are kept, of those who stay in a call with somebody left in it all. */
  lemma DetailsOfLeavers(v: CallView, user: UserId, now: int, clearTimer: bool, peer: UserId)
    requires Synced(v)
    ensures var w := LeaveView(v, user, now, clearTimer);
            && (w.info.Some? ==> user !in w.info.value)
            && (Present(w) != {} && v.info.Some? && peer in v.info.value && peer != user ==>
                  w.info.Some? && peer in w.info.value && w.info.value[peer] == v.info.value[peer])
  {
    LeaveKeepsSync(v, user, now, clearTimer);
  }

  /** The room after a leave, in any state: none for an ended call or where nobody is left, else all but the leaver. */
  lemma RoomAfterLeave(v: CallView, user: UserId, now: int, clearTimer: bool)
    ensures var w := LeaveView(v, user, now, clearTimer);
            && (EndsFully(v.row, user, now) || Present(v) <= {user} ==> w.active == None)
            && (!EndsFully(v.row, user, now) && !(Present(v) <= {user}) ==> w.active == Some(Present(v) - {user}))
            && (EndsFully(v.row, user, now) || (v.active.Some? && Present(v) <= {user}) ==> w.info == None)
            && (!EndsFully(v.row, user, now) && v.info.Some? && !(Present(v) <= {user}) ==>
                  w.info == Some(v.info.value - {user}))
  {
    assert Present(v) <= {user} <==> Present(v) - {user} == {};
  }

  // ----- Errors -----------------------------------------------------------------------------------------

  /** The refusals of an invitation, in their order. */
  lemma InvitationErrors(row: Call, host: UserId, target: UserId, known: bool)
    ensures host != row.initiator ==> AddRow(row, host, target, known) == Failure(Forbidden)
    ensures host == row.initiator && row.scope == DirectCall ==> AddRow(row, host, target, known) == Failure(BadRequest)
    ensures host == row.initiator && row.scope == GroupCall && Listed(row.participants, target) ==>
              AddRow(row, host, target, known) == Failure(BadRequest)
    ensures host == row.initiator && row.scope == GroupCall && !Listed(row.participants, target) && !known ==>
              AddRow(row, host, target, known) == Failure(NotFound)
    ensures host == row.initiator && row.scope == GroupCall && !Listed(row.participants, target) && known ==>
              var after := AddRow(row, host, target, known);
              && after.Success? && |after.value.participants| == |row.participants| + 1
              && after.value == row.(participants := after.value.participants)
              && after.value.participants[..|row.participants|] == row.participants
              && after.value.participants[|row.participants|] == Participant(target, Invited, None, None)
  {
    ListedIffFound(row.participants, target);
  }

  /** The refusals of a removal, in their order; no other row changes. */
  lemma RemovalErrors(row: Call, host: UserId, target: UserId, now: int)
    ensures host != row.initiator ==> KickRow(row, host, target, now) == Failure(Forbidden)
    ensures host == row.initiator && row.scope == DirectCall ==> KickRow(row, host, target, now) == Failure(BadRequest)
    ensures host == row.initiator && row.scope == GroupCall && target !in JoinedUsers(row.participants) ==>
              KickRow(row, host, target, now) == Failure(NotFound)
    ensures host == row.initiator && row.scope == GroupCall && target in JoinedUsers(row.participants) &&
            UniqueUsers(row.participants) ==>
              var after := KickRow(row, host, target, now);
              && after.Success? && |after.value.participants| == |row.participants|
              && after.value == row.(participants := after.value.participants)
              && forall i | 0 <= i < |row.participants| ::
                   var p := row.participants[i];
                   after.value.participants[i] ==
                     if p.user == target then Participant(target, Left, p.joinedAt, Some(now)) else p
  {
    var i := JoinedIndexOf(row.participants, target);
    if i < 0 {
      assert target !in JoinedUsers(row.participants);
    } else {
      assert row.participants[i] in row.participants;
    }
  }

  // ----- The server -------------------------------------------------------------------------------------

  /** A handler acts on the call it names, for the user of the socket it came from, and on nothing else. */
  lemma HandlerActs(s: Server, socket: SocketId, call: CallId, now: int)
    requires socket in s.registry.socketToUser && call in s.views
    ensures var user, v := s.registry.socketToUser[socket], s.views[call];
            && (forall info ::
                  Step(s, Accept(socket, call, info), now).views == s.views[call := AcceptView(v, user, info, now)])
            && Step(s, Decline(socket, call), now).views == s.views[call := DeclineView(v, user, now)]
            && Step(s, HangUpCall(socket, call), now).views == s.views[call := LeaveView(v, user, now, true)]
            && (forall target: UserId, known ::
                  Step(s, Add(socket, call, target, known), now).views ==
                    s.views[call := AddView(v, user, target, known)])
            && (forall target: UserId ::
                  Step(s, Kick(socket, call, target), now).views == s.views[call := KickView(v, user, target, now)])
            && Step(s, RingTimeout(call), now).views == s.views[call := TimeoutView(v, now)]
            && forall e: Event :: Step(s, e, now).clock == now
  {
  }

  /** Requests from unknown sockets and for unknown calls change nothing but the clock. */
  lemma UnknownIsIgnored(s: Server, socket: SocketId, call: CallId, e: Event, now: int)
    requires e == Decline(socket, call) || e == HangUpCall(socket, call)
             || (e.Accept? && e.call == call && e.socket == socket)
             || (e.Add? && e.call == call && e.socket == socket) || (e.Kick? && e.call == call && e.socket == socket)
    requires socket !in s.registry.socketToUser || call !in s.views
    ensures Step(s, e, now) == s.(clock := now)
  {
  }

  /** A verified claim makes the socket the user's; a call started from it is stored and everything else stays. */
  lemma ConnectAndInitiateAct(s: Server, socket: SocketId, user: UserId, newId: CallId,
                              members: seq<UserId>, scope: CallScope,
                              info: PeerInfo, now: int)
    requires user != 0
    ensures var after := Step(s, Connect(socket, Some(user)), now);
            && after.views == s.views
            && socket in after.registry.socketToUser && after.registry.socketToUser[socket] == user
            && SocketsOf(after.registry, user) == SocketsOf(s.registry, user) + {socket}
            && (forall u: UserId | u != user :: SocketsOf(after.registry, u) == SocketsOf(s.registry, u))
    ensures socket in s.registry.socketToUser ==>
              var caller, after := s.registry.socketToUser[socket],
                Step(s, Initiate(socket, newId, Some(members), scope, Some(info)), now);
              && after.registry == s.registry
              && after.views == s.views[newId := after.views[newId]]
              && after.views[newId] == InitiateView(caller, Callees(members, caller), scope, info, now)
              && Present(after.views[newId]) == {caller} && after.views[newId].info == Some(map[caller := info])
  {
  }
}
