/** The websocket side of calls: the in-memory maps and one method per handler of `CallsGateway`. */
module CallGateway {
  import opened Common
  import opened Sockets
  import opened CallModel
  import opened CallService
  import opened CallStore

  class CallsGateway {
    const service: CallsService
    var userSockets: map<UserId, set<SocketId>>
    var socketToUser: map<SocketId, UserId>
    var activeCalls: map<CallId, set<UserId>>
    var callParticipantInfo: map<CallId, map<UserId, PeerInfo>>
    var ringTimeouts: map<CallId, RingTimer>
    // What was sent about each call, in order.
    var sent: map<CallId, seq<Notice>>

    ghost function Maps(): Store
      reads this, service
    {
      Store(service.calls, activeCalls, callParticipantInfo, ringTimeouts, sent)
    }

    ghost predicate Valid()
      reads this, service
    {
      WellFormed(Maps())
    }

    ghost function Sockets(): Registry
      reads this
    {
      Registry(userSockets, socketToUser)
    }

    /** The abstract state: the socket registry and the view of every call. */
    ghost function State(clock: int): Server
      reads this, service
      requires Valid()
    {
      ServerOf(Sockets(), Maps(), clock)
    }

    constructor (service: CallsService)
      requires service.calls == map[]
      ensures Valid() && this.service == service && State(0) == EMPTY_SERVER
    {
      this.service := service;
      userSockets, socketToUser := map[], map[];
      activeCalls, callParticipantInfo, ringTimeouts, sent := map[], map[], map[], map[];
    }

    /** Sends notices about a call, in order. */
    method Emit(callId: CallId, notices: seq<Notice>)
      requires callId in sent
      modifies this`sent
      ensures sent == old(sent)[callId := old(sent)[callId] + notices]
    {
      sent := sent[callId := sent[callId] + notices];
    }

    /** Drops a user's details from a call that has any. */
    method ForgetInfo(callId: CallId, userId: UserId)
      modifies this`callParticipantInfo
      ensures callParticipantInfo ==
              Put(old(callParticipantInfo), callId, Without(Lookup(old(callParticipantInfo), callId), userId))
    {
      if callId in callParticipantInfo {
        callParticipantInfo := callParticipantInfo[callId := callParticipantInfo[callId] - {userId}];
      }
    }

    /** `claim` is the user id in the verified token; None when verification fails. */
    method HandleConnection(client: SocketId, claim: Option<UserId>, now: int)
      requires Valid()
      modifies this
      ensures Valid() && State(now) == Step(old(State(now)), Connect(client, claim), now)
    {
      if claim.None? || claim.value == 0 {
        return;
      }
      var userId := claim.value;
      var sockets := if userId in userSockets then userSockets[userId] else {};
      sockets := sockets + {client};
      userSockets := userSockets[userId := sockets];
      socketToUser := socketToUser[client := userId];
    }

    method HandleDisconnect(client: SocketId, now: int)
      requires Valid()
      modifies this, service
      ensures Valid() && State(now) == Step(old(State(now)), Disconnect(client), now)
    {
      if client !in socketToUser {
        return;
      }
      var userId := socketToUser[client];
      if userId in userSockets {
        var sockets := userSockets[userId] - {client};
        userSockets := userSockets[userId := sockets];
        if sockets == {} {
          userSockets := userSockets - {userId};
          LeaveEveryCall(userId, now);
        }
      }
      socketToUser := socketToUser - {client};
    }

    /** The loop over the active calls when the last socket of a user closes. */
    method LeaveEveryCall(userId: UserId, now: int)
      requires Valid()
      modifies this`activeCalls, this`callParticipantInfo, this`sent, service
      ensures Valid() && ViewsOf(Maps()) == Departed(old(ViewsOf(Maps())), userId, now)
    {
      ghost var before := ViewsOf(Maps());
      var pending := activeCalls.Keys;
      DepartLimits(before, userId, now, pending);
      while pending != {}
        invariant Valid() && ViewsOf(Maps()) == PartlyDeparted(before, userId, now, pending)
        invariant pending <= before.Keys
        decreases pending
      {
        var callId :| callId in pending;
        assert ViewAt(Maps(), callId) == ViewsOf(Maps())[callId] == before[callId];
        DepartOne(before, userId, now, pending, callId);
        if callId in activeCalls && userId in activeCalls[callId] {
          LeaveOne(callId, userId, now);
        }
        pending := pending - {callId};
      }
      DepartLimits(before, userId, now, before.Keys);
    }

    /** One turn of that loop. */
    method LeaveOne(callId: CallId, userId: UserId, now: int)
      requires Valid() && callId in activeCalls && userId in activeCalls[callId]
      modifies this`activeCalls, this`callParticipantInfo, this`sent, service
      ensures Valid()
      ensures ViewsOf(Maps()) ==
              old(ViewsOf(Maps()))[callId := LeaveView(old(ViewAt(Maps(), callId)), userId, now, false)]
    {
      ghost var st := Maps();
      var ended := service.EndCall(callId, userId, now);
      var (call, fullyEnded) := ended.value;
      LeaveRoom(callId, userId, fullyEnded, call.durationSeconds);
      PutSame(st.timers, callId);
      SameMaps(st, callId, LeaveView(ViewAt(st, callId), userId, now, false));
      PutViewChangesOne(st, callId, LeaveView(ViewAt(st, callId), userId, now, false));
    }

    /** Updates the in-memory maps and tells the room after the service let a user leave. */
    method LeaveRoom(callId: CallId, userId: UserId, fullyEnded: bool, duration: Option<int>)
      requires callId in sent
      modifies this`activeCalls, this`callParticipantInfo, this`sent
      ensures sent == old(sent)[callId := old(sent)[callId] + [LeaveNotice(userId, fullyEnded, duration)]]
      ensures activeCalls ==
              Put(old(activeCalls), callId, ActiveAfterLeave(Lookup(old(activeCalls), callId), userId, fullyEnded))
      ensures callParticipantInfo ==
              Put(old(callParticipantInfo), callId,
                  InfoAfterLeave(Lookup(old(callParticipantInfo), callId),
                                 Lookup(old(activeCalls), callId), userId, fullyEnded))
    {
      ghost var info := callParticipantInfo;
      ForgetInfo(callId, userId);
      PutTwice(info, callId, Without(Lookup(info, callId), userId), None);
      if fullyEnded {
        Emit(callId, [EndedBy(userId, duration)]);
        activeCalls := activeCalls - {callId};
        callParticipantInfo := callParticipantInfo - {callId};
      } else {
        Emit(callId, [LeftCall(userId)]);
        if callId in activeCalls {
          var participants := activeCalls[callId] - {userId};
          activeCalls := activeCalls[callId := participants];
          if participants == {} {
            activeCalls := activeCalls - {callId};
            callParticipantInfo := callParticipantInfo - {callId};
          }
        }
      }
    }

    /** Takes a removed user out of the presence set of a call that has one. */
    method ForgetPresence(callId: CallId, userId: UserId)
      modifies this`activeCalls
      ensures activeCalls == Put(old(activeCalls), callId, PresentWithout(Lookup(old(activeCalls), callId), userId))
    {
      if callId in activeCalls {
        activeCalls := activeCalls[callId := activeCalls[callId] - {userId}];
      }
    }

    lemma UntouchedMaps(st: Store, callId: CallId)
      ensures Put(st.active, callId, Lookup(st.active, callId)) == st.active
      ensures Put(st.info, callId, Lookup(st.info, callId)) == st.info
      ensures Put(st.timers, callId, Lookup(st.timers, callId)) == st.timers
    {
      PutSame(st.active, callId);
      PutSame(st.info, callId);
      PutSame(st.timers, callId);
    }

    /** The five maps changed at one call only, to the given view. */
    lemma SameMaps(st: Store, callId: CallId, w: CallView)
      requires WellFormed(st)
      requires service.calls == st.calls[callId := w.row]
      requires activeCalls == Put(st.active, callId, w.active)
      requires callParticipantInfo == Put(st.info, callId, w.info)
      requires ringTimeouts == Put(st.timers, callId, w.timer)
      requires sent == st.sent[callId := w.log]
      ensures Maps() == PutView(st, callId, w) && Valid()
    {
      PutViewWellFormed(st, callId, w);
    }

    /** A handler that leaves the maps changed so has left the handled store. */
    lemma HandledMaps(st: Store, client: SocketId, callId: CallId, e: Event, now: int, w: CallView)
      requires WellFormed(st) && client in socketToUser && callId in st.calls && callId in st.sent
      requires w == Handle(ViewAt(st, callId), socketToUser[client], e, now)
      requires service.calls == st.calls[callId := w.row]
      requires activeCalls == Put(st.active, callId, w.active)
      requires callParticipantInfo == Put(st.info, callId, w.info)
      requires ringTimeouts == Put(st.timers, callId, w.timer)
      requires sent == st.sent[callId := w.log]
      ensures Maps() == HandledStore(Sockets(), st, client, callId, e, now) && Valid()
    {
      SameMaps(st, callId, w);
    }

    static method RingMembers(callees: seq<UserId>) returns (notices: seq<Notice>)
      ensures notices == RingAll(callees)
    {
      notices := [];
      for i := 0 to |callees|
        invariant notices == RingAll(callees[..i])
      {
        notices := notices + [Incoming(callees[i])];
      }
      assert callees[..|callees|] == callees;
    }

    static method TellMissed(callees: seq<UserId>) returns (notices: seq<Notice>)
      ensures notices == MissedAll(callees)
    {
      notices := [];
      for i := 0 to |callees|
        invariant notices == MissedAll(callees[..i])
      {
        notices := notices + [MissedNotice(callees[i])];
      }
      assert callees[..|callees|] == callees;
    }

    /** Sets up the in-memory maps of a new call and rings everybody else. */
    method OpenRoom(newId: CallId, callerId: UserId, info: PeerInfo, otherMembers: seq<UserId>, now: int)
      modifies this`activeCalls, this`callParticipantInfo, this`ringTimeouts, this`sent
      ensures activeCalls == old(activeCalls)[newId := {callerId}]
      ensures callParticipantInfo == old(callParticipantInfo)[newId := map[callerId := info]]
      ensures ringTimeouts == old(ringTimeouts)[newId := RingTimer(now + RING_MILLIS, otherMembers)]
      ensures sent == old(sent)[newId := RingAll(otherMembers) + [Initiated(callerId)]]
    {
      activeCalls := activeCalls[newId := {callerId}];
      callParticipantInfo := callParticipantInfo[newId := map[callerId := info]];
      var ringing := RingMembers(otherMembers);
      sent := sent[newId := ringing + [Initiated(callerId)]];
      ringTimeouts := ringTimeouts[newId := RingTimer(now + RING_MILLIS, otherMembers)];
    }

    method HandleInitiateCall(client: SocketId, newId: CallId, members: Option<seq<UserId>>, scope: CallScope,
                              initiator: Option<PeerInfo>, now: int)
      requires Valid() && newId !in service.calls
      modifies this`activeCalls, this`callParticipantInfo, this`ringTimeouts, this`sent, service
      ensures Valid()
      ensures Maps() == InitiatedStore(Sockets(), old(Maps()), Initiate(client, newId, members, scope, initiator), now)
    {
      ghost var st := Maps();
      if client in socketToUser {
        var callerId := socketToUser[client];
        var created := service.CreateCall(newId, callerId, initiator, members, scope, now);
        if created.Success? {
          var otherMembers := Callees(members.value, callerId);
          OpenRoom(newId, callerId, initiator.value, otherMembers, now);
          SameMaps(st, newId, InitiateView(callerId, otherMembers, scope, initiator.value, now));
        }
      }
    }

    method HandleAcceptCall(client: SocketId, callId: CallId, userInfo: Option<PeerInfo>, now: int)
      requires Valid()
      modifies this`activeCalls, this`callParticipantInfo, this`ringTimeouts, this`sent, service
      ensures Valid()
      ensures Maps() == HandledStore(Sockets(), old(Maps()), client, callId, Accept(client, callId, userInfo), now)
    {
      ghost var st := Maps();
      if client in socketToUser {
        var userId := socketToUser[client];
        var accepted := service.AcceptCall(callId, userId, now);
        if accepted.Success? {
          ringTimeouts := ringTimeouts - {callId};
          var existing := Admit(callId, userId, userInfo);
          Emit(callId, [ExistingParticipants(userId, existing), Accepted(userId, userInfo)]);
          HandledMaps(st, client, callId, Accept(client, callId, userInfo), now,
                      AcceptView(ViewAt(st, callId), userId, userInfo, now));
        }
      }
    }

    /** Adds a joiner to the in-memory maps and says who was already there. */
    method Admit(callId: CallId, userId: UserId, userInfo: Option<PeerInfo>) returns (existing: map<UserId, PeerInfo>)
      modifies this`activeCalls, this`callParticipantInfo
      ensures existing == Introductions(Lookup(old(activeCalls), callId), Lookup(old(callParticipantInfo), callId))
      ensures activeCalls == Put(old(activeCalls), callId, Some(Members(Lookup(old(activeCalls), callId)) + {userId}))
      ensures callParticipantInfo ==
              Put(old(callParticipantInfo), callId,
                  InfoAfterAccept(Lookup(old(callParticipantInfo), callId), userId, userInfo))
    {
      PutSame(callParticipantInfo, callId);
      var participants := if callId in activeCalls then activeCalls[callId] else {};
      var infoMap := if callId in callParticipantInfo then callParticipantInfo[callId] else map[];
      existing := ExistingPeers(participants, infoMap);
      participants := participants + {userId};
      activeCalls := activeCalls[callId := participants];
      if userInfo.Some? {
        infoMap := infoMap[userId := userInfo.value];
        callParticipantInfo := callParticipantInfo[callId := infoMap];
      }
    }

    /** The users already present, with the details known of each. */
    static method ExistingPeers(participants: set<UserId>, infoMap: map<UserId, PeerInfo>)
      returns (existing: map<UserId, PeerInfo>)
      ensures existing == map u | u in participants :: Shown(infoMap, u)
    {
      existing := map[];
      var rest := participants;
      while rest != {}
        invariant rest <= participants
        invariant existing == map u | u in participants - rest :: Shown(infoMap, u)
        decreases rest
      {
        var u :| u in rest;
        existing := existing[u := Shown(infoMap, u)];
        rest := rest - {u};
      }
    }

    method HandleAddParticipant(client: SocketId, callId: CallId, targetUserId: UserId, known: bool, now: int)
      requires Valid()
      modifies this`activeCalls, this`callParticipantInfo, this`ringTimeouts, this`sent, service
      ensures Valid()
      ensures Maps() ==
              HandledStore(Sockets(), old(Maps()), client, callId, Add(client, callId, targetUserId, known), now)
    {
      ghost var st := Maps();
      if client in socketToUser {
        var initiatorId := socketToUser[client];
        var added := service.AddParticipantToCall(callId, initiatorId, targetUserId, known);
        if added.Success? {
          Emit(callId, [Incoming(targetUserId), ParticipantAdded(targetUserId)]);
          UntouchedMaps(st, callId);
          HandledMaps(st, client, callId, Add(client, callId, targetUserId, known), now,
                      AddView(ViewAt(st, callId), initiatorId, targetUserId, known));
        } else if callId in st.calls {
          PutOwnView(st, callId);
        }
      }
    }

    method HandleRemoveParticipant(client: SocketId, callId: CallId, targetUserId: UserId, now: int)
      requires Valid()
      modifies this`activeCalls, this`callParticipantInfo, this`ringTimeouts, this`sent, service
      ensures Valid()
      ensures Maps() == HandledStore(Sockets(), old(Maps()), client, callId, Kick(client, callId, targetUserId), now)
    {
      ghost var st := Maps();
      if client in socketToUser {
        var initiatorId := socketToUser[client];
        var removed := service.RemoveParticipantFromCall(callId, initiatorId, targetUserId, now);
        if removed.Success? {
          Emit(callId, [RemovedBy(targetUserId, initiatorId), LeftCall(targetUserId)]);
          ForgetPresence(callId, targetUserId);
          ForgetInfo(callId, targetUserId);
          UntouchedMaps(st, callId);
          HandledMaps(st, client, callId, Kick(client, callId, targetUserId), now,
                      KickView(ViewAt(st, callId), initiatorId, targetUserId, now));
        } else if callId in st.calls {
          PutOwnView(st, callId);
        }
      }
    }

    method HandleDeclineCall(client: SocketId, callId: CallId, now: int)
      requires Valid()
      modifies this`activeCalls, this`callParticipantInfo, this`ringTimeouts, this`sent, service
      ensures Valid()
      ensures Maps() == HandledStore(Sockets(), old(Maps()), client, callId, Decline(client, callId), now)
    {
      ghost var st := Maps();
      if client in socketToUser {
        var userId := socketToUser[client];
        var declined := service.DeclineCall(callId, userId, now);
        if declined.Success? {
          Emit(callId, [DeclinedBy(userId)]);
          if declined.value.scope.DirectCall? {
            ringTimeouts := ringTimeouts - {callId};
          }
          UntouchedMaps(st, callId);
          HandledMaps(st, client, callId, Decline(client, callId), now, DeclineView(ViewAt(st, callId), userId, now));
        }
      }
    }

    method HandleEndCall(client: SocketId, callId: CallId, now: int)
      requires Valid()
      modifies this`activeCalls, this`callParticipantInfo, this`ringTimeouts, this`sent, service
      ensures Valid()
      ensures Maps() == HandledStore(Sockets(), old(Maps()), client, callId, HangUpCall(client, callId), now)
    {
      ghost var st := Maps();
      if client in socketToUser {
        var userId := socketToUser[client];
        var ended := service.EndCall(callId, userId, now);
        if ended.Success? {
          var (call, fullyEnded) := ended.value;
          if callId in ringTimeouts && fullyEnded {
            ringTimeouts := ringTimeouts - {callId};
          }
          LeaveRoom(callId, userId, fullyEnded, call.durationSeconds);
          UntouchedMaps(st, callId);
          HandledMaps(st, client, callId, HangUpCall(client, callId), now,
                      LeaveView(ViewAt(st, callId), userId, now, true));
        }
      }
    }

    /** The callback of the ring timer; it does nothing before the timer is due or once it was cleared. */
    method OnRingTimeout(callId: CallId, now: int)
      requires Valid()
      modifies this`activeCalls, this`callParticipantInfo, this`ringTimeouts, this`sent, service
      ensures Valid()
      ensures Maps() == TimedOutStore(old(Maps()), callId, now)
    {
      ghost var st := Maps();
      if callId in ringTimeouts && now >= ringTimeouts[callId].deadline {
        if service.calls[callId].status.Ringing? {
          var missed := service.MarkMissed(callId, now);
          var told := TellMissed(ringTimeouts[callId].callees);
          Emit(callId, [MissedCall] + told);
        }
        ringTimeouts := ringTimeouts - {callId};
        UntouchedMaps(st, callId);
        SameMaps(st, callId, TimeoutView(ViewAt(st, callId), now));
      } else if callId in st.calls {
        PutOwnView(st, callId);
      }
    }
  }
}
