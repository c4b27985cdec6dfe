/** Who is online: the chat gateway's connect and disconnect handlers, the stored flag and the broadcasts. */
module Presence {
  import opened Common
  import opened Sockets

  datatype Broadcast = WentOnline(user: UserId) | WentOffline(user: UserId)

  /** The socket maps, the `isOnline` column of the staff that exist, and every status broadcast so far. */
  datatype PresenceState = PresenceState(registry: Registry, stored: map<UserId, bool>, sent: seq<Broadcast>)

  datatype Event = Connect(socket: SocketId, claim: Option<UserId>) | Disconnect(socket: SocketId)

  /** Updating the column of an unknown id touches no row. */
  function Store(stored: map<UserId, bool>, user: UserId, online: bool): map<UserId, bool> {
    if user in stored then stored[user := online] else stored
  }

  function Step(s: PresenceState, e: Event): PresenceState {
    match e
    case Connect(socket, claim) =>
      if claim.None? || claim.value == 0 then s
      else
        var user := claim.value;
        var attached := Attach(s.registry, socket, user);
        if SocketsOf(s.registry, user) != {} then s.(registry := attached)
        else PresenceState(attached, Store(s.stored, user, true), s.sent + [WentOnline(user)])
    case Disconnect(socket) =>
      var gone := Departing(s.registry, socket);
      var detached := Detach(s.registry, socket);
      if gone.None? then s.(registry := detached)
      else PresenceState(detached, Store(s.stored, gone.value, false), s.sent + [WentOffline(gone.value)])
  }

  function Run(s: PresenceState, events: seq<Event>): PresenceState
    decreases |events|
  {
    if events == [] then s else Run(Step(s, events[0]), events[1..])
  }

  /** Sockets connect once; a socket that connects again does so as the same user. */
  ghost predicate FreshSockets(s: PresenceState, events: seq<Event>)
    decreases |events|
  {
    events == [] ||
    ((events[0].Connect? && events[0].claim.Some? && events[0].claim.value != 0 ==>
        Attachable(s.registry, events[0].socket, events[0].claim.value)) &&
     FreshSockets(Step(s, events[0]), events[1..]))
  }

  /** The statuses broadcast about one user, in order. */
  function About(sent: seq<Broadcast>, user: UserId): seq<bool> {
    if sent == [] then []
    else
      var before := About(sent[..|sent| - 1], user);
      var last := sent[|sent| - 1];
      if last.user == user then before + [last.WentOnline?] else before
  }

  lemma AboutAppend(sent: seq<Broadcast>, b: Broadcast, user: UserId)
    ensures About(sent + [b], user) == if b.user == user then About(sent, user) + [b.WentOnline?] else About(sent, user)
  {
    assert (sent + [b])[..|sent|] == sent;
  }

  /** Online first, then offline, online, and so on. */
  ghost predicate Alternates(statuses: seq<bool>) {
    forall i | 0 <= i < |statuses| :: statuses[i] == (i % 2 == 0)
  }

  /** The broadcasts about a user alternate, and the last one says whether the user is online now. */
  ghost predicate Announced(sent: seq<Broadcast>, user: UserId, online: bool) {
    Alternates(About(sent, user)) && (|About(sent, user)| % 2 == 1 <==> online)
  }

  lemma AnnounceOne(sent: seq<Broadcast>, b: Broadcast, user: UserId, online: bool)
    requires Announced(sent, user, online)
    requires b.user == user ==> b.WentOnline? == !online
    ensures Announced(sent + [b], user, if b.user == user then !online else online)
  {
    AboutAppend(sent, b, user);
  }

  /** What holds after every handler: inverse maps, truthful flags, alternating broadcasts. */
  ghost predicate Truthful(s: PresenceState) {
    && Inverse(s.registry)
    && (forall u | u in s.stored :: s.stored[u] == Online(s.registry, u))
    && (forall u: UserId :: Announced(s.sent, u, Online(s.registry, u)))
  }

  lemma ConnectIsTruthful(s: PresenceState, socket: SocketId, user: UserId)
    requires Truthful(s) && user != 0 && Attachable(s.registry, socket, user)
    ensures Truthful(Step(s, Connect(socket, Some(user))))
  {
    var after := Step(s, Connect(socket, Some(user)));
    assert Inverse(after.registry) by {
      AttachKeepsInverse(s.registry, socket, user);
    }
    AttachOnline(s.registry, socket, user);
    FirstConnection(s.registry, user);
    forall u: UserId ensures Announced(after.sent, u, Online(after.registry, u)) {
      ConnectAnnounces(s, user, u);
    }
  }

  lemma ConnectAnnounces(s: PresenceState, user: UserId, u: UserId)
    requires Announced(s.sent, u, Online(s.registry, u))
    ensures Announced(if Online(s.registry, user) then s.sent else s.sent + [WentOnline(user)], u,
                      Online(s.registry, u) || u == user)
  {
    if !Online(s.registry, user) {
      AnnounceOne(s.sent, WentOnline(user), u, Online(s.registry, u));
    }
  }

  lemma DisconnectIsTruthful(s: PresenceState, socket: SocketId)
    requires Truthful(s)
    ensures Truthful(Step(s, Disconnect(socket)))
  {
    var after := Step(s, Disconnect(socket));
    var gone := Departing(s.registry, socket);
    DetachKeepsInverse(s.registry, socket);
    forall u: UserId ensures Announced(after.sent, u, Online(after.registry, u)) {
      assert Announced(s.sent, u, Online(s.registry, u));
      if gone.Some? {
        AnnounceOne(s.sent, WentOffline(gone.value), u, Online(s.registry, u));
      }
    }
  }

  lemma StepIsTruthful(s: PresenceState, e: Event)
    requires Truthful(s)
    requires e.Connect? && e.claim.Some? && e.claim.value != 0 ==> Attachable(s.registry, e.socket, e.claim.value)
    ensures Truthful(Step(s, e))
  {
    match e
    case Connect(socket, claim) =>
      if claim.Some? && claim.value != 0 {
        ConnectIsTruthful(s, socket, claim.value);
      }
    case Disconnect(socket) => DisconnectIsTruthful(s, socket);
  }

  /**
   In every run of connects and disconnects the socket maps stay inverse, the stored flag of every staff
   member equals having a socket, and each user's broadcasts alternate, starting with online.
   */
  lemma {:induction false} RunIsTruthful(s: PresenceState, events: seq<Event>)
    requires Truthful(s) && FreshSockets(s, events)
    ensures Truthful(Run(s, events))
    decreases |events|
  {
    if events != [] {
      StepIsTruthful(s, events[0]);
      RunIsTruthful(Step(s, events[0]), events[1..]);
    }
  }

  lemma StartIsTruthful(stored: map<UserId, bool>)
    ensures Truthful(PresenceState(EMPTY_REGISTRY, stored, [])) <==> forall u | u in stored :: !stored[u]
  {
  }

  class ChatGateway {
    var userSockets: map<UserId, set<SocketId>>
    var socketToUser: map<SocketId, UserId>
    var isOnline: map<UserId, bool>
    var sent: seq<Broadcast>

    ghost function State(): PresenceState
      reads this
    {
      PresenceState(Registry(userSockets, socketToUser), isOnline, sent)
    }

    constructor (staff: map<UserId, bool>)
      ensures State() == PresenceState(EMPTY_REGISTRY, staff, [])
    {
      userSockets, socketToUser, isOnline, sent := map[], map[], staff, [];
    }

    method UpdateOnlineStatus(userId: UserId, online: bool)
      modifies this`isOnline
      ensures isOnline == Store(old(isOnline), userId, online)
    {
      if userId in isOnline {
        isOnline := isOnline[userId := online];
      }
    }

    /** `claim` is the user id in the verified token; None when verification fails. */
    method HandleConnection(client: SocketId, claim: Option<UserId>)
      modifies this
      ensures State() == Step(old(State()), Connect(client, claim))
    {
      if claim.None? || claim.value == 0 {
        return;
      }
      var userId := claim.value;
      var sockets := if userId in userSockets then userSockets[userId] else {};
      var isFirstConnection := sockets == {};
      sockets := sockets + {client};
      userSockets := userSockets[userId := sockets];
      socketToUser := socketToUser[client := userId];
      if isFirstConnection {
        UpdateOnlineStatus(userId, true);
        sent := sent + [WentOnline(userId)];
      }
    }

    method HandleDisconnect(client: SocketId)
      modifies this
      ensures State() == Step(old(State()), Disconnect(client))
    {
      if client !in socketToUser {
        return;
      }
      var userId := socketToUser[client];
      if userId in userSockets {
        var sockets := userSockets[userId] - {client};
        userSockets := userSockets[userId := sockets];
        if sockets == {} {
          userSockets := userSockets - {userId};
          UpdateOnlineStatus(userId, false);
          sent := sent + [WentOffline(userId)];
        }
      }
      socketToUser := socketToUser - {client};
    }
  }
}
