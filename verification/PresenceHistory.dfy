/** Who is online by the connections made and closed so far. */
module PresenceHistory {
  import opened Common
  import opened Sockets
  import opened Presence

  /** A handled connection adds the socket to that user's and says so when it is their first. */
  lemma ConnectActs(s: PresenceState, socket: SocketId, user: UserId)
    requires Truthful(s) && user != 0
    ensures var after := Step(s, Connect(socket, Some(user)));
            && (forall u: UserId :: SocketsOf(after.registry, u) ==
                  if u == user then SocketsOf(s.registry, u) + {socket} else SocketsOf(s.registry, u))
            && after.stored.Keys == s.stored.Keys
            && (forall u | u in s.stored :: after.stored[u] == (if u == user then true else s.stored[u]))
            && after.sent == if SocketsOf(s.registry, user) == {} then s.sent + [WentOnline(user)] else s.sent
  {
    FirstConnection(s.registry, user);
  }

  /** Closing a socket takes it from its user and says so when it was their last; without a user nothing happens. */
  lemma DisconnectActs(s: PresenceState, socket: SocketId, user: UserId)
    requires Truthful(s)
    ensures Step(s, Connect(socket, None)) == s && Step(s, Connect(socket, Some(0))) == s
    ensures var after := Step(s, Disconnect(socket));
            && (forall u: UserId :: SocketsOf(after.registry, u) == SocketsOf(s.registry, u) - {socket})
            && after.stored.Keys == s.stored.Keys
            && (forall u | u in s.stored ::
                  after.stored[u] == if SocketsOf(s.registry, u) == {socket} then false else s.stored[u])
            && (SocketsOf(s.registry, user) == {socket} ==> after.sent == s.sent + [WentOffline(user)])
            && ((forall u: UserId :: SocketsOf(s.registry, u) != {socket}) ==> after.sent == s.sent)
  {
    var gone := Departing(s.registry, socket);
    forall u: UserId ensures gone == Some(u) <==> SocketsOf(s.registry, u) == {socket} {
      LastSocket(s.registry, socket, u);
    }
    forall u: UserId ensures SocketsOf(Detach(s.registry, socket), u) == SocketsOf(s.registry, u) - {socket} {
      DetachTakes(s.registry, socket, u);
    }
  }

  lemma LastSocket(r: Registry, socket: SocketId, u: UserId)
    requires Inverse(r)
    ensures Departing(r, socket) == Some(u) <==> SocketsOf(r, u) == {socket}
  {
    if SocketsOf(r, u) == {socket} {
      assert socket in r.userSockets[u];
      assert r.userSockets[u] - {socket} == {};
    }
    if Departing(r, socket) == Some(u) {
      assert socket in SocketsOf(r, r.socketToUser[socket]);
      assert r.userSockets[u] - {socket} == {};
      forall x | x in r.userSockets[u] ensures x == socket {
        assert x !in r.userSockets[u] - {socket};
      }
    }
  }

  lemma DetachTakes(r: Registry, socket: SocketId, u: UserId)
    requires Inverse(r)
    ensures SocketsOf(Detach(r, socket), u) == SocketsOf(r, u) - {socket}
  {
    if socket in SocketsOf(r, u) {
      assert r.socketToUser[socket] == u;
    }
  }

  // ----- Runs ---------------------------------------------------------------------------------------------

  /** The socket connected as the user and has not been closed since. */
  ghost predicate StillOpen(events: seq<Event>, socket: SocketId, user: UserId) {
    exists i :: 0 <= i < |events| && events[i] == Connect(socket, Some(user)) && user != 0 &&
      forall j | i < j < |events| :: events[j] != Disconnect(socket)
  }

  lemma {:induction false} SocketsAreOpen(s: PresenceState, events: seq<Event>, socket: SocketId, user: UserId)
    requires Truthful(s) && FreshSockets(s, events)
    ensures socket in SocketsOf(Run(s, events).registry, user) <==>
              (socket in SocketsOf(s.registry, user) && Disconnect(socket) !in events) ||
              StillOpen(events, socket, user)
    decreases |events|
  {
    if events != [] {
      var e, rest := events[0], events[1..];
      StepIsTruthful(s, e);
      SocketsAreOpen(Step(s, e), rest, socket, user);
      OneStepOpens(s, e, socket, user);
      OpenSplits(events, socket, user);
      assert events == [e] + rest;
    }
  }

  lemma OneStepOpens(s: PresenceState, e: Event, socket: SocketId, user: UserId)
    requires Truthful(s)
    requires e.Connect? && e.claim.Some? && e.claim.value != 0 ==> Attachable(s.registry, e.socket, e.claim.value)
    ensures socket in SocketsOf(Step(s, e).registry, user) <==>
              (socket in SocketsOf(s.registry, user) && e != Disconnect(socket)) ||
              (e == Connect(socket, Some(user)) && user != 0)
  {
    match e
    case Connect(x, claim) =>
      if claim.Some? && claim.value != 0 {
        ConnectActs(s, x, claim.value);
      }
    case Disconnect(x) => DisconnectActs(s, x, user);
  }

  lemma OpenSplits(events: seq<Event>, socket: SocketId, user: UserId)
    requires events != []
    ensures StillOpen(events, socket, user) <==>
              StillOpen(events[1..], socket, user) ||
              (events[0] == Connect(socket, Some(user)) && user != 0 &&
               Disconnect(socket) !in events[1..])
  {
    var rest := events[1..];
    assert forall k | 0 <= k < |rest| :: rest[k] == events[k + 1];
    if StillOpen(events, socket, user) {
      var i :| 0 <= i < |events| && events[i] == Connect(socket, Some(user)) && user != 0 &&
        forall j | i < j < |events| :: events[j] != Disconnect(socket);
      if i > 0 {
        assert rest[i - 1] == Connect(socket, Some(user));
      }
    }
    if StillOpen(rest, socket, user) {
      var i :| 0 <= i < |rest| && rest[i] == Connect(socket, Some(user)) && user != 0 &&
        forall j | i < j < |rest| :: rest[j] != Disconnect(socket);
      assert events[i + 1] == Connect(socket, Some(user));
      forall j | i + 1 < j < |events| ensures events[j] != Disconnect(socket) {
        assert rest[j - 1] != Disconnect(socket);
      }
    }
    if events[0] == Connect(socket, Some(user)) && user != 0 && Disconnect(socket) !in rest {
      forall j | 0 < j < |events| ensures events[j] != Disconnect(socket) {
        assert rest[j - 1] in rest;
      }
    }
  }

  /**
   After every run from the start a user is online, by the stored flag and by the broadcasts, exactly when a
   connection made as that user has not been closed.
   */
  lemma OnlineExactly(stored: map<UserId, bool>, events: seq<Event>, user: UserId)
    requires forall u | u in stored :: !stored[u]
    requires FreshSockets(PresenceState(EMPTY_REGISTRY, stored, []), events)
    ensures var after := Run(PresenceState(EMPTY_REGISTRY, stored, []), events);
            var online := exists socket :: StillOpen(events, socket, user);
            && (Online(after.registry, user) <==> online)
            && after.stored.Keys == stored.Keys
            && (user in stored ==> after.stored[user] == online)
            && (|About(after.sent, user)| % 2 == 1 <==> online)
  {
    var start := PresenceState(EMPTY_REGISTRY, stored, []);
    var after := Run(start, events);
    StartIsTruthful(stored);
    RunIsTruthful(start, events);
    RunKeepsStaff(start, events);
    forall socket ensures socket in SocketsOf(after.registry, user) <==> StillOpen(events, socket, user) {
      SocketsAreOpen(start, events, socket, user);
    }
    FirstConnection(after.registry, user);
    assert Announced(after.sent, user, Online(after.registry, user));
    if Online(after.registry, user) {
      var socket :| socket in SocketsOf(after.registry, user);
      assert StillOpen(events, socket, user);
    }
  }

  lemma {:induction false} RunKeepsStaff(s: PresenceState, events: seq<Event>)
    ensures Run(s, events).stored.Keys == s.stored.Keys
    decreases |events|
  {
    if events != [] {
      RunKeepsStaff(Step(s, events[0]), events[1..]);
    }
  }
}
