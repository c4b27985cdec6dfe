/**
 The state of voice and video calls and what each handler does to it.

 A call lives in two places: its row with one participant row per invited user (the database), and the
 gateway's in-memory maps. `CallView` puts everything the server holds about one call side by side; every
 handler is a function on views, and a whole server run is a sequence of events on the map of views.
 */
module CallModel {
  import opened Common
  import opened Sockets

  type CallId = string

  const RING_MILLIS := 30_000

  datatype CallScope = DirectCall | GroupCall

  datatype CallStatus = Ringing | Active | Ended | Missed | Declined

  datatype ParticipantStatus = Invited | Joined | Left | DeclinedInvite | MissedInvite

  datatype Participant = Participant(
    user: UserId, status: ParticipantStatus, joinedAt: Option<int>, leftAt: Option<int>)

  datatype Call = Call(
    scope: CallScope, initiator: UserId, createdAt: int, status: CallStatus, participants: seq<Participant>,
    startedAt: Option<int>, endedAt: Option<int>, durationSeconds: Option<int>)

  datatype CallError = NotFound | Forbidden | BadRequest

  datatype PeerInfo = PeerInfo(firstName: string, lastName: string, avatar: Option<string>)

  /** A pending ring timeout: when it is due and whom it will tell. */
  datatype RingTimer = RingTimer(deadline: int, callees: seq<UserId>)

  /** The messages the server sends about one call, in the order sent. */
  datatype Notice =
    | Incoming(callee: UserId)
    | Initiated(caller: UserId)
    | ExistingParticipants(joiner: UserId, peers: map<UserId, PeerInfo>)
    | Accepted(user: UserId, info: Option<PeerInfo>)
    | ParticipantAdded(user: UserId)
    | RemovedBy(user: UserId, host: UserId)
    | LeftCall(user: UserId)
    | DeclinedBy(user: UserId)
    | EndedBy(user: UserId, duration: Option<int>)
    | MissedCall
    | MissedNotice(callee: UserId)

  /** Everything the server holds about one call; an absent map key is None. */
  datatype CallView = CallView(
    row: Call, active: Option<set<UserId>>, info: Option<map<UserId, PeerInfo>>, timer: Option<RingTimer>,
    log: seq<Notice>)

  // ----- Participant rows -------------------------------------------------------------------------------

  /** The position of the first row of a user, or -1. */
  function IndexOf(ps: seq<Participant>, user: UserId): (i: int)
    ensures -1 <= i < |ps|
    ensures i >= 0 ==> ps[i].user == user && forall j | 0 <= j < i :: ps[j].user != user
    ensures i < 0 ==> forall p | p in ps :: p.user != user
  {
    if ps == [] then -1
    else if ps[0].user == user then 0
    else
      var rest := IndexOf(ps[1..], user);
      if rest < 0 then -1 else rest + 1
  }

  /** The first row of a user. */
  function RowFor(ps: seq<Participant>, user: UserId): Option<Participant> {
    var i := IndexOf(ps, user);
    if i < 0 then None else Some(ps[i])
  }

  lemma IndexIs(ps: seq<Participant>, user: UserId, i: nat)
    requires i < |ps| && ps[i].user == user && forall j | 0 <= j < i :: ps[j].user != user
    ensures IndexOf(ps, user) == i
  {
    assert ps[i] in ps;
  }

  ghost predicate Listed(ps: seq<Participant>, user: UserId) {
    exists i :: 0 <= i < |ps| && ps[i].user == user
  }

  ghost predicate UniqueUsers(ps: seq<Participant>) {
    forall i, j | 0 <= i < j < |ps| :: ps[i].user != ps[j].user
  }

  /** The users whose row says JOINED. */
  function JoinedUsers(ps: seq<Participant>): set<UserId> {
    set p | p in ps && p.status.Joined? :: p.user
  }

  predicate AnyJoined(ps: seq<Participant>) {
    exists p :: p in ps && p.status.Joined?
  }

  /** The rows after a JOINED user left. */
  function MarkLeft(ps: seq<Participant>, user: UserId, now: int): seq<Participant> {
    var i := IndexOf(ps, user);
    if i >= 0 && ps[i].status.Joined? then ps[i := ps[i].(status := Left, leftAt := Some(now))] else ps
  }

  function HangUp(p: Participant, now: int): Participant {
    if p.status.Joined? then p.(status := Left, leftAt := Some(now)) else p
  }

  function Miss(p: Participant): Participant {
    if p.status.Invited? then p.(status := MissedInvite) else p
  }

  /** The rows after everybody still JOINED left. */
  function HangUpAll(ps: seq<Participant>, now: int): seq<Participant> {
    seq(|ps|, i requires 0 <= i < |ps| => HangUp(ps[i], now))
  }

  /** The rows after everybody still INVITED missed the call. */
  function MissAll(ps: seq<Participant>): seq<Participant> {
    seq(|ps|, i requires 0 <= i < |ps| => Miss(ps[i]))
  }

  function InviteAll(users: seq<UserId>): seq<Participant> {
    seq(|users|, i requires 0 <= i < |users| => InviteRow(users[i]))
  }

  function InviteRow(user: UserId): Participant {
    Participant(user, Invited, None, None)
  }

  // ----- Call rows --------------------------------------------------------------------------------------

  /** The duration the service stores: milliseconds to seconds, rounded. */
  function Seconds(millis: int): int {
    RoundDiv(millis, 1000)
  }

  function NewCall(caller: UserId, callees: seq<UserId>, scope: CallScope, now: int): Call {
    Call(scope, caller, now, Ringing,
         [Participant(caller, Joined, Some(now), None)] + InviteAll(callees),
         None, None, None)
  }

  function AcceptRow(call: Call, user: UserId, now: int): Call {
    var answered := if call.status.Ringing? then call.(status := Active, startedAt := Some(now)) else call;
    var i := IndexOf(call.participants, user);
    if i < 0 then answered
    else
      var joined := call.participants[i].(status := Joined, joinedAt := Some(now));
      answered.(participants := call.participants[i := joined])
  }

  function DeclineRow(call: Call, user: UserId, now: int): Call {
    var i := IndexOf(call.participants, user);
    var refused := if i < 0 then call
                   else call.(participants := call.participants[i := call.participants[i].(status := DeclinedInvite)]);
    if call.scope.DirectCall? then refused.(status := Declined, endedAt := Some(now)) else refused
  }

  /** Whether `endCall` by this user ends the call for everybody. */
  predicate EndsFully(call: Call, user: UserId, now: int) {
    call.scope.DirectCall? || !AnyJoined(MarkLeft(call.participants, user, now))
  }

  function EndRow(call: Call, user: UserId, now: int): Call {
    var ps := MarkLeft(call.participants, user, now);
    if EndsFully(call, user, now) then
      call.(status := Ended, endedAt := Some(now),
            durationSeconds := if call.startedAt.Some? then Some(Seconds(now - call.startedAt.value))
              else call.durationSeconds,
            participants := HangUpAll(ps, now))
    else call.(participants := ps)
  }

  function AddRow(call: Call, host: UserId, target: UserId, known: bool): Result<Call, CallError> {
    if call.initiator != host then Failure(Forbidden)
    else if !call.scope.GroupCall? then Failure(BadRequest)
    else if IndexOf(call.participants, target) >= 0 then Failure(BadRequest)
    else if !known then Failure(NotFound)
    else Success(call.(participants := call.participants + [InviteRow(target)]))
  }

  /** The position of the first JOINED row of a user, or -1. */
  function JoinedIndexOf(ps: seq<Participant>, user: UserId): (i: int)
    ensures -1 <= i < |ps|
    ensures i >= 0 ==> ps[i].user == user && ps[i].status.Joined?
    ensures i < 0 ==> forall p | p in ps :: !(p.user == user && p.status.Joined?)
  {
    if ps == [] then -1
    else if ps[0].user == user && ps[0].status.Joined? then 0
    else
      var rest := JoinedIndexOf(ps[1..], user);
      if rest < 0 then -1 else rest + 1
  }

  function KickRow(call: Call, host: UserId, target: UserId, now: int): Result<Call, CallError> {
    if call.initiator != host then Failure(Forbidden)
    else if !call.scope.GroupCall? then Failure(BadRequest)
    else
      var i := JoinedIndexOf(call.participants, target);
      if i < 0 then Failure(NotFound)
      else
        var gone := call.participants[i].(status := Left, leftAt := Some(now));
        Success(call.(participants := call.participants[i := gone]))
  }

  function MissRow(call: Call, now: int): Call {
    if !call.status.Ringing? then call
    else call.(status := Missed, endedAt := Some(now),
               participants := MissAll(call.participants))
  }

  // ----- Views ------------------------------------------------------------------------------------------

  function Members(active: Option<set<UserId>>): set<UserId> {
    if active.Some? then active.value else {}
  }

  function Details(info: Option<map<UserId, PeerInfo>>): map<UserId, PeerInfo> {
    if info.Some? then info.value else map[]
  }

  /** The users the gateway holds as present; a missing key is the empty set. */
  function Present(v: CallView): set<UserId> {
    Members(v.active)
  }

  function InfoOf(v: CallView): map<UserId, PeerInfo> {
    Details(v.info)
  }

  /** The rendering of a peer's details, with the defaults for missing ones. */
  function Shown(info: map<UserId, PeerInfo>, user: UserId): PeerInfo {
    if user !in info then PeerInfo("", "", None)
    else info[user].(avatar := if info[user].avatar == Some("") then None else info[user].avatar)
  }

  function Introductions(active: Option<set<UserId>>, info: Option<map<UserId, PeerInfo>>): map<UserId, PeerInfo> {
    map u | u in Members(active) :: Shown(Details(info), u)
  }

  function InfoAfterAccept(info: Option<map<UserId, PeerInfo>>, user: UserId, given: Option<PeerInfo>)
    : Option<map<UserId, PeerInfo>>
  {
    if given.Some? then Some(Details(info)[user := given.value]) else info
  }

  function Without<K, V>(m: Option<map<K, V>>, key: K): Option<map<K, V>> {
    if m.Some? then Some(m.value - {key}) else None
  }

  function RingAll(callees: seq<UserId>): seq<Notice> {
    seq(|callees|, i requires 0 <= i < |callees| => Incoming(callees[i]))
  }

  function MissedAll(callees: seq<UserId>): seq<Notice> {
    seq(|callees|, i requires 0 <= i < |callees| => MissedNotice(callees[i]))
  }

  function InitiateView(caller: UserId, callees: seq<UserId>, scope: CallScope, info: PeerInfo, now: int): CallView {
    CallView(NewCall(caller, callees, scope, now), Some({caller}), Some(map[caller := info]),
             Some(RingTimer(now + RING_MILLIS, callees)),
             RingAll(callees) + [Initiated(caller)])
  }

  function AcceptView(v: CallView, user: UserId, info: Option<PeerInfo>, now: int): CallView {
    CallView(AcceptRow(v.row, user, now), Some(Members(v.active) + {user}),
             InfoAfterAccept(v.info, user, info),
             None,
             v.log + [ExistingParticipants(user, Introductions(v.active, v.info)), Accepted(user, info)])
  }

  function DeclineView(v: CallView, user: UserId, now: int): CallView {
    v.(row := DeclineRow(v.row, user, now),
       timer := if v.row.scope.DirectCall? then None else v.timer,
       log := v.log + [DeclinedBy(user)])
  }

  /** The presence set after a user left; a set that becomes empty is dropped, as is that of an ended call. */
  function ActiveAfterLeave(active: Option<set<UserId>>, user: UserId, ended: bool): Option<set<UserId>> {
    if ended || active.None? || active.value - {user} == {} then None else Some(active.value - {user})
  }

  function InfoAfterLeave(info: Option<map<UserId, PeerInfo>>, active: Option<set<UserId>>, user: UserId, ended: bool)
    : Option<map<UserId, PeerInfo>>
  {
    if ended || (active.Some? && active.value - {user} == {}) then None else Without(info, user)
  }

  function LeaveNotice(user: UserId, ended: bool, duration: Option<int>): Notice {
    if ended then EndedBy(user, duration) else LeftCall(user)
  }

  /** Hanging up, and losing the last socket: only hanging up clears a pending ring timeout. */
  function LeaveView(v: CallView, user: UserId, now: int, clearTimer: bool): CallView {
    var row := EndRow(v.row, user, now);
    var ended := EndsFully(v.row, user, now);
    CallView(row, ActiveAfterLeave(v.active, user, ended), InfoAfterLeave(v.info, v.active, user, ended),
             if ended && clearTimer then None else v.timer, v.log + [LeaveNotice(user, ended, row.durationSeconds)])
  }

  function PresentWithout(active: Option<set<UserId>>, user: UserId): Option<set<UserId>> {
    if active.Some? then Some(active.value - {user}) else None
  }

  function AddView(v: CallView, host: UserId, target: UserId, known: bool): CallView {
    var added := AddRow(v.row, host, target, known);
    if added.Failure? then v
    else v.(row := added.value, log := v.log + [Incoming(target), ParticipantAdded(target)])
  }

  function KickView(v: CallView, host: UserId, target: UserId, now: int): CallView {
    var kicked := KickRow(v.row, host, target, now);
    if kicked.Failure? then v
    else CallView(kicked.value,
                  PresentWithout(v.active, target),
                  Without(v.info, target), v.timer,
                  v.log + [RemovedBy(target, host), LeftCall(target)])
  }

  function TimeoutView(v: CallView, now: int): CallView {
    if v.timer.None? || now < v.timer.value.deadline then v
    else if !v.row.status.Ringing? then v.(timer := None)
    else
      var callees := v.timer.value.callees;
      v.(row := MissRow(v.row, now), timer := None,
         log := v.log + ([MissedCall] + MissedAll(callees)))
  }

  // ----- The whole server -------------------------------------------------------------------------------

  datatype Server = Server(registry: Registry, views: map<CallId, CallView>, clock: int)

  const EMPTY_SERVER := Server(EMPTY_REGISTRY, map[], 0)

  datatype Event =
    | Connect(socket: SocketId, claim: Option<UserId>)
    | Disconnect(socket: SocketId)
    | Initiate(socket: SocketId, newId: CallId, members: Option<seq<UserId>>,
               scope: CallScope, caller: Option<PeerInfo>)
    | Accept(socket: SocketId, call: CallId, info: Option<PeerInfo>)
    | Decline(socket: SocketId, call: CallId)
    | HangUpCall(socket: SocketId, call: CallId)
    | Add(socket: SocketId, call: CallId, target: UserId, known: bool)
    | Kick(socket: SocketId, call: CallId, target: UserId)
    | RingTimeout(call: CallId)

  /** The members that are rung: everybody in the conversation but the caller. */
  function Callees(members: seq<UserId>, caller: UserId): (r: seq<UserId>)
    ensures forall u :: u in r <==> u in members && u != caller
  {
    if members == [] then []
    else (if members[0] != caller then [members[0]] else []) + Callees(members[1..], caller)
  }

  /** What losing the last socket does to every call the user is present in. */
  function Departed(views: map<CallId, CallView>, user: UserId, now: int): map<CallId, CallView> {
    map id | id in views :: if user in Present(views[id]) then LeaveView(views[id], user, now, false) else views[id]
  }

  /** What a handler that names a call does to the view of that call. */
  function Handle(v: CallView, user: UserId, e: Event, now: int): CallView {
    match e
    case Accept(_, _, info) => AcceptView(v, user, info, now)
    case Decline(_, _) => DeclineView(v, user, now)
    case HangUpCall(_, _) => LeaveView(v, user, now, true)
    case Add(_, _, target, known) => AddView(v, user, target, known)
    case Kick(_, _, target) => KickView(v, user, target, now)
    case _ => v
  }

  /** Requests of unknown sockets are ignored; unknown calls are answered with an error and nothing changes. */
  function OnCall(s: Server, socket: SocketId, id: CallId, e: Event, now: int): map<CallId, CallView> {
    if socket in s.registry.socketToUser && id in s.views
    then s.views[id := Handle(s.views[id], s.registry.socketToUser[socket], e, now)] else s.views
  }

  /** One handler run to its end at time `now`. */
  function Step(s: Server, e: Event, now: int): Server {
    match e
    case Connect(socket, claim) =>
      s.(clock := now,
         registry := if claim.None? || claim.value == 0 then s.registry else Attach(s.registry, socket, claim.value))
    case Disconnect(socket) =>
      var gone := Departing(s.registry, socket);
      Server(Detach(s.registry, socket), if gone.Some? then Departed(s.views, gone.value, now) else s.views, now)
    case Initiate(socket, newId, members, scope, caller) =>
      s.(clock := now,
         views := if socket in s.registry.socketToUser && members.Some? && caller.Some?
                  then
                    var user := s.registry.socketToUser[socket];
                    s.views[newId := InitiateView(user, Callees(members.value, user), scope, caller.value, now)]
                  else s.views)
    case Accept(socket, call, _) => s.(clock := now, views := OnCall(s, socket, call, e, now))
    case Decline(socket, call) => s.(clock := now, views := OnCall(s, socket, call, e, now))
    case HangUpCall(socket, call) => s.(clock := now, views := OnCall(s, socket, call, e, now))
    case Add(socket, call, _, _) => s.(clock := now, views := OnCall(s, socket, call, e, now))
    case Kick(socket, call, _) => s.(clock := now, views := OnCall(s, socket, call, e, now))
    case RingTimeout(call) =>
      s.(clock := now, views := if call in s.views then s.views[call := TimeoutView(s.views[call], now)] else s.views)
  }

  datatype Timed = At(event: Event, now: int)

  function Run(s: Server, events: seq<Timed>): Server
    decreases |events|
  {
    if events == [] then s else Run(Step(s, events[0].event, events[0].now), events[1..])
  }
}
