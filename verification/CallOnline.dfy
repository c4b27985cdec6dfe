/** Nobody is held present in a call without a socket: what connecting, calling and disconnecting keep together. */
module CallOnline {
  import opened Common
  import opened Sockets
  import opened CallModel

  /** The socket maps are inverse, and whoever is present in a call has a socket. */
  ghost predicate PresentHaveSockets(s: Server) {
    && Inverse(s.registry)
    && forall id, u | id in s.views && u in Present(s.views[id]) :: SocketsOf(s.registry, u) != {}
  }

  /** A socket that connects is unknown, or already belongs to the same user. */
  predicate Known(s: Server, e: Event) {
    e.Connect? && e.claim.Some? && e.claim.value != 0 ==> Attachable(s.registry, e.socket, e.claim.value)
  }

  ghost predicate KnownRun(s: Server, events: seq<Timed>)
    decreases |events|
  {
    events == [] || (Known(s, events[0].event) && KnownRun(Step(s, events[0].event, events[0].now), events[1..]))
  }

  /** A leaver is not present afterwards; nobody else leaves with them unless the call ends, when all do. */
  lemma LeaverIsGone(v: CallView, user: UserId, now: int, clearTimer: bool)
    ensures var w := LeaveView(v, user, now, clearTimer);
            && user !in Present(w)
            && Present(w) == if EndsFully(v.row, user, now) then {} else Present(v) - {user}
  {
  }

  /**
   When the last socket of a user closes they are taken out of every call, calls they were not in stay as they
   are, and nobody else loses a socket.
   */
  lemma LastSocketLeavesAll(s: Server, socket: SocketId, now: int, id: CallId)
    requires Inverse(s.registry) && id in s.views
    ensures var after := Step(s, Disconnect(socket), now);
            && id in after.views && Inverse(after.registry)
            && (socket !in s.registry.socketToUser ==> after.views == s.views && after.registry == s.registry)
            && (socket in s.registry.socketToUser ==>
                  var user := s.registry.socketToUser[socket];
                  && SocketsOf(after.registry, user) == SocketsOf(s.registry, user) - {socket}
                  && (forall u: UserId | u != user :: SocketsOf(after.registry, u) == SocketsOf(s.registry, u))
                  && (SocketsOf(s.registry, user) != {socket} ==> after.views == s.views)
                  && (SocketsOf(s.registry, user) == {socket} ==> user !in Present(after.views[id]))
                  && (user !in Present(s.views[id]) ==> after.views[id] == s.views[id])
                  && after.views[id].timer == s.views[id].timer)
  {
    DetachKeepsInverse(s.registry, socket);
    if socket in s.registry.socketToUser {
      var user := s.registry.socketToUser[socket];
      assert socket in SocketsOf(s.registry, user);
      LeaverIsGone(s.views[id], user, now, false);
    }
  }

  /** A handler lets in nobody but the user who asks. */
  lemma HandlerLetsIn(v: CallView, user: UserId, e: Event, now: int)
    ensures Present(Handle(v, user, e, now)) <= Present(v) + {user}
    ensures !e.Accept? ==> Present(Handle(v, user, e, now)) <= Present(v)
  {
  }

  lemma HandledHaveSockets(s: Server, t: Timed, socket: SocketId, call: CallId, id: CallId, u: UserId)
    requires PresentHaveSockets(s) && id in s.views && u in Present(OnCall(s, socket, call, t.event, t.now)[id])
    ensures SocketsOf(s.registry, u) != {}
  {
    if socket in s.registry.socketToUser && id == call {
      HandlerLetsIn(s.views[id], s.registry.socketToUser[socket], t.event, t.now);
    }
  }

  lemma OneStepHasSockets(s: Server, t: Timed, id: CallId, u: UserId)
    requires PresentHaveSockets(s) && Known(s, t.event)
    requires id in Step(s, t.event, t.now).views && u in Present(Step(s, t.event, t.now).views[id])
    ensures SocketsOf(Step(s, t.event, t.now).registry, u) != {}
  {
    match t.event {
      case Connect(_, _) =>
        var socket :| socket in SocketsOf(s.registry, u);
        assert socket in SocketsOf(Step(s, t.event, t.now).registry, u);
      case Disconnect(socket) =>
        LastSocketLeavesAll(s, socket, t.now, id);
        var gone := Departing(s.registry, socket);
        if gone.Some? && gone.value in Present(s.views[id]) {
          LeaverIsGone(s.views[id], gone.value, t.now, false);
        }
      case Initiate(_, _, _, _, _) =>
      case RingTimeout(_) =>
      case Accept(socket, call, _) => HandledHaveSockets(s, t, socket, call, id, u);
      case Decline(socket, call) => HandledHaveSockets(s, t, socket, call, id, u);
      case HangUpCall(socket, call) => HandledHaveSockets(s, t, socket, call, id, u);
      case Add(socket, call, _, _) => HandledHaveSockets(s, t, socket, call, id, u);
      case Kick(socket, call, _) => HandledHaveSockets(s, t, socket, call, id, u);
    }
  }

  lemma StepKeepsInverse(s: Server, t: Timed)
    requires Inverse(s.registry) && Known(s, t.event)
    ensures Inverse(Step(s, t.event, t.now).registry)
  {
    match t.event {
      case Connect(socket, claim) =>
        if claim.Some? && claim.value != 0 {
          AttachKeepsInverse(s.registry, socket, claim.value);
        }
      case Disconnect(socket) => DetachKeepsInverse(s.registry, socket);
      case _ =>
    }
  }

  /** In every run whoever is present in a call has a socket: the gateway never waits for a client that is gone. */
  lemma {:induction false} RunHasSockets(s: Server, events: seq<Timed>)
    requires PresentHaveSockets(s) && KnownRun(s, events)
    ensures PresentHaveSockets(Run(s, events))
    decreases |events|
  {
    if events != [] {
      var t, next := events[0], Step(s, events[0].event, events[0].now);
      StepKeepsInverse(s, t);
      forall id, u | id in next.views && u in Present(next.views[id]) ensures SocketsOf(next.registry, u) != {} {
        OneStepHasSockets(s, t, id, u);
      }
      RunHasSockets(next, events[1..]);
    }
  }
}
