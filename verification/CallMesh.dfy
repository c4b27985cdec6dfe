/**
 The peer introductions of a call: read off the messages the server sent, the connections the clients
 have open form a tournament on the users present.
 */
module CallMesh {
  import opened Common
  import opened Sockets
  import opened CallModel

  type Link = (UserId, UserId)

  function Among(links: set<Link>, u: UserId): set<Link> {
    set l | l in links && l.0 != u && l.1 != u
  }

  /** A joiner calls every peer it is told about, a leaver's connections close, the end closes all of them. */
  function Relink(links: set<Link>, n: Notice): set<Link> {
    match n
    case ExistingParticipants(joiner, peers) => links + set p | p in peers :: (joiner, p)
    case LeftCall(user) => Among(links, user)
    case EndedBy(_, _) => {}
    case _ => links
  }

  /** The connections the clients have open after the messages so far. */
  function Links(log: seq<Notice>): set<Link> {
    if log == [] then {} else Relink(Links(log[..|log| - 1]), log[|log| - 1])
  }

  lemma LinksAppend(log: seq<Notice>, n: Notice)
    ensures Links(log + [n]) == Relink(Links(log), n)
  {
    assert (log + [n])[..|log|] == log;
  }

  /** Notices that open or close no connection leave the links as they are. */
  lemma {:induction false} LinksQuiet(log: seq<Notice>, more: seq<Notice>)
    requires forall n | n in more :: !n.ExistingParticipants? && !n.LeftCall? && !n.EndedBy?
    ensures Links(log + more) == Links(log)
  {
    if more == [] {
      assert log + more == log;
    } else {
      var last := |more| - 1;
      LinksQuiet(log, more[..last]);
      LinksAppend(log + more[..last], more[last]);
      assert log + more == (log + more[..last]) + [more[last]];
    }
  }

  /** Exactly one of any two distinct members is linked to the other, and there are no other links. */
  ghost predicate Tournament(links: set<Link>, members: set<UserId>) {
    && (forall l | l in links :: l.0 in members && l.1 in members && l.0 != l.1)
    && (forall a, b | a in members && b in members && a != b :: (a, b) in links <==> (b, a) !in links)
  }

  ghost predicate Meshed(v: CallView) {
    Tournament(Links(v.log), Present(v))
  }

  function Away(links: set<Link>, others: set<UserId>, u: UserId): set<UserId> {
    set w | w in others && (u, w) in links
  }

  function Towards(links: set<Link>, others: set<UserId>, u: UserId): set<UserId> {
    set w | w in others && (w, u) in links
  }

  function Star(u: UserId, ws: set<UserId>, outward: bool): set<Link> {
    set w | w in ws :: if outward then (u, w) else (w, u)
  }

  /** The links of a tournament are those avoiding u, those leaving u and those reaching u. */
  lemma SplitAt(links: set<Link>, members: set<UserId>, u: UserId)
    requires Tournament(links, members) && u in members
    ensures var others := members - {u};
            && Tournament(Among(links, u), others)
            && Away(links, others, u) !! Towards(links, others, u)
            && others == Away(links, others, u) + Towards(links, others, u)
            && links ==
              Among(links, u) + Star(u, Away(links, others, u), true) + Star(u, Towards(links, others, u), false)
  {
    var others := members - {u};
    var parts := Among(links, u) + Star(u, Away(links, others, u), true) + Star(u, Towards(links, others, u), false);
    forall l | l in links ensures l in parts {
      assert l == (l.0, l.1);
    }
  }

  lemma {:induction false} StarSize(u: UserId, ws: set<UserId>, outward: bool)
    ensures |Star(u, ws, outward)| == |ws|
  {
    if ws == {} {
      assert Star(u, ws, outward) == {};
    } else {
      var x :| x in ws;
      StarSize(u, ws - {x}, outward);
      assert Star(u, ws, outward) == Star(u, ws - {x}, outward) + {if outward then (u, x) else (x, u)};
    }
  }

  /** Every other member has exactly one link with u. */
  lemma SizeAt(links: set<Link>, members: set<UserId>, u: UserId)
    requires Tournament(links, members) && u in members
    ensures |links| == |Among(links, u)| + |members - {u}|
  {
    var others := members - {u};
    var away, towards := Away(links, others, u), Towards(links, others, u);
    SplitAt(links, members, u);
    StarSize(u, away, true);
    StarSize(u, towards, false);
    DisjointSize(Among(links, u), Star(u, away, true));
    DisjointSize(Among(links, u) + Star(u, away, true), Star(u, towards, false));
    DisjointSize(away, towards);
  }

  lemma DisjointSize<T>(a: set<T>, b: set<T>)
    requires a !! b
    ensures |a + b| == |a| + |b|
  {
  }

  /** The number of pairs among n users. */
  function Pairs(n: nat): nat {
    if n == 0 then 0 else Pairs(n - 1) + (n - 1)
  }

  lemma {:induction false} PairsClosedForm(n: nat)
    ensures 2 * Pairs(n) == n * (n - 1)
  {
    if n != 0 {
      PairsClosedForm(n - 1);
      assert n * (n - 1) == (n - 1) * (n - 2) + 2 * (n - 1);
    }
  }

  lemma NoLinks(links: set<Link>, members: set<UserId>)
    requires Tournament(links, members) && members == {}
    ensures links == {}
  {
    assert forall l | l in links :: l.0 in members;
  }

  /** A tournament on n users has n(n-1)/2 links. */
  lemma {:induction false} TournamentSize(links: set<Link>, members: set<UserId>)
    requires Tournament(links, members)
    ensures |links| == Pairs(|members|)
    decreases |members|
  {
    if members == {} {
      NoLinks(links, members);
    } else {
      var u :| u in members;
      assert Tournament(Among(links, u), members - {u}) by {
        SplitAt(links, members, u);
      }
      SizeAt(links, members, u);
      TournamentSize(Among(links, u), members - {u});
    }
  }

  // ----- Handlers ---------------------------------------------------------------------------------------

  /** A joiner extends the mesh to itself exactly when it was not already in the call. */
  lemma AcceptKeepsMesh(v: CallView, user: UserId, info: Option<PeerInfo>, now: int)
    requires Meshed(v)
    ensures Meshed(AcceptView(v, user, info, now)) <==> user !in Present(v)
    ensures (user, user) in Links(AcceptView(v, user, info, now).log) <==> user in Present(v)
  {
    var told := ExistingParticipants(user, Introductions(v.active, v.info));
    LinksAppend(v.log, told);
    LinksAppend(v.log + [told], Accepted(user, info));
    assert v.log + [told, Accepted(user, info)] == v.log + [told] + [Accepted(user, info)];
    assert Introductions(v.active, v.info).Keys == Present(v);
    var w := AcceptView(v, user, info, now);
    var links := Links(w.log);
    assert links == Links(v.log) + set p | p in Introductions(v.active, v.info) :: (user, p);
    assert forall a: UserId, b: UserId :: (a, b) in links <==> (a, b) in Links(v.log) || (a == user && b in Present(v));
    if user in Present(v) {
      assert (user, user) in links;
    }
  }

  lemma Pruned(links: set<Link>, members: set<UserId>, user: UserId)
    requires Tournament(links, members)
    ensures Tournament(Among(links, user), members - {user})
  {
  }

  lemma LeaveKeepsMesh(v: CallView, user: UserId, now: int, clearTimer: bool)
    requires Meshed(v)
    ensures Meshed(LeaveView(v, user, now, clearTimer))
  {
    var w := LeaveView(v, user, now, clearTimer);
    GoneKeepsMesh(v, w, user, EndsFully(v.row, user, now), w.row.durationSeconds);
  }

  /** Whatever the table said about the call: presence set and notice of a leave go together. */
  lemma GoneKeepsMesh(v: CallView, w: CallView, user: UserId, ended: bool, duration: Option<int>)
    requires Meshed(v) && w.active == ActiveAfterLeave(v.active, user, ended)
    requires w.log == v.log + [LeaveNotice(user, ended, duration)]
    ensures Meshed(w)
  {
    LinksAppend(v.log, LeaveNotice(user, ended, duration));
    Pruned(Links(v.log), Present(v), user);
  }

  lemma KickKeepsMesh(v: CallView, host: UserId, target: UserId, now: int)
    requires Meshed(v)
    ensures Meshed(KickView(v, host, target, now))
  {
    if KickRow(v.row, host, target, now).Success? {
      KickedKeepsMesh(v, KickView(v, host, target, now), host, target);
    }
  }

  lemma KickedKeepsMesh(v: CallView, w: CallView, host: UserId, target: UserId)
    requires Meshed(v) && w.active == PresentWithout(v.active, target)
    requires w.log == v.log + [RemovedBy(target, host), LeftCall(target)]
    ensures Meshed(w)
  {
    LinksAppend(v.log, RemovedBy(target, host));
    LinksAppend(v.log + [RemovedBy(target, host)], LeftCall(target));
    assert w.log == v.log + [RemovedBy(target, host)] + [LeftCall(target)];
    Pruned(Links(v.log), Present(v), target);
  }

  lemma QuietKeepsMesh(v: CallView, w: CallView)
    requires Meshed(v) && Present(w) == Present(v) && v.log <= w.log
    requires forall n | n in w.log[|v.log|..] :: !n.ExistingParticipants? && !n.LeftCall? && !n.EndedBy?
    ensures Meshed(w)
  {
    LinksQuiet(v.log, w.log[|v.log|..]);
    assert v.log + w.log[|v.log|..] == w.log;
  }

  lemma InitiateIsMeshed(caller: UserId, callees: seq<UserId>, scope: CallScope, info: PeerInfo, now: int)
    ensures Meshed(InitiateView(caller, callees, scope, info, now))
  {
    var v := InitiateView(caller, callees, scope, info, now);
    LinksQuiet([], v.log);
    assert [] + v.log == v.log;
  }

  // ----- Runs -------------------------------------------------------------------------------------------

  /** Nobody accepts a call they are already in, and new calls get new ids. */
  ghost predicate OneAccept(s: Server, e: Event) {
    match e
    case Accept(socket, call, _) =>
      socket in s.registry.socketToUser && call in s.views ==>
        s.registry.socketToUser[socket] !in Present(s.views[call])
    case Initiate(_, newId, _, _, _) => newId !in s.views
    case _ => true
  }

  ghost predicate OneAcceptRun(s: Server, events: seq<Timed>)
    decreases |events|
  {
    events == [] ||
      (OneAccept(s, events[0].event) && OneAcceptRun(Step(s, events[0].event, events[0].now), events[1..]))
  }

  ghost predicate AllMeshed(s: Server) {
    forall id | id in s.views :: Meshed(s.views[id])
  }

  lemma HandleKeepsMesh(v: CallView, user: UserId, e: Event, now: int)
    requires Meshed(v) && (e.Accept? ==> user !in Present(v))
    ensures Meshed(Handle(v, user, e, now))
  {
    match e
    case Accept(_, _, info) => AcceptKeepsMesh(v, user, info, now);
    case HangUpCall(_, _) => LeaveKeepsMesh(v, user, now, true);
    case Kick(_, _, target) => KickKeepsMesh(v, user, target, now);
    case _ => QuietKeepsMesh(v, Handle(v, user, e, now));
  }

  lemma OneViewIsMeshed(s: Server, t: Timed, id: CallId)
    requires AllMeshed(s) && OneAccept(s, t.event) && id in Step(s, t.event, t.now).views
    ensures Meshed(Step(s, t.event, t.now).views[id])
  {
    match t.event {
      case Initiate(socket, newId, members, scope, caller) =>
        if id !in s.views {
          var user := s.registry.socketToUser[socket];
          InitiateIsMeshed(user, Callees(members.value, user), scope, caller.value, t.now);
        }
      case Disconnect(socket) =>
        var gone := Departing(s.registry, socket);
        if gone.Some? {
          LeaveKeepsMesh(s.views[id], gone.value, t.now, false);
        }
      case RingTimeout(_) => QuietKeepsMesh(s.views[id], TimeoutView(s.views[id], t.now));
      case Accept(socket, call, _) => HandledIsMeshed(s, t, socket, call, id);
      case Decline(socket, call) => HandledIsMeshed(s, t, socket, call, id);
      case HangUpCall(socket, call) => HandledIsMeshed(s, t, socket, call, id);
      case Add(socket, call, _, _) => HandledIsMeshed(s, t, socket, call, id);
      case Kick(socket, call, _) => HandledIsMeshed(s, t, socket, call, id);
      case Connect(_, _) =>
    }
  }

  lemma HandledIsMeshed(s: Server, t: Timed, socket: SocketId, call: CallId, id: CallId)
    requires AllMeshed(s) && id in s.views
    requires t.event.Accept? && socket in s.registry.socketToUser && call in s.views ==>
               s.registry.socketToUser[socket] !in Present(s.views[call])
    ensures Meshed(OnCall(s, socket, call, t.event, t.now)[id])
  {
    if socket in s.registry.socketToUser && id == call {
      HandleKeepsMesh(s.views[id], s.registry.socketToUser[socket], t.event, t.now);
    }
  }

  /**
   After every run in which nobody accepts twice, the introductions among the n users present in a call
   are a complete mesh: exactly one of any two was told about the other, n(n-1)/2 links in all.
   */
  lemma {:induction false} RunIsMeshed(s: Server, events: seq<Timed>)
    requires AllMeshed(s) && OneAcceptRun(s, events)
    ensures AllMeshed(Run(s, events))
    ensures forall id | id in Run(s, events).views ::
              var v := Run(s, events).views[id];
              2 * |Links(v.log)| == |Present(v)| * (|Present(v)| - 1)
    decreases |events|
  {
    if events == [] {
      forall id | id in s.views
        ensures 2 * |Links(s.views[id].log)| == |Present(s.views[id])| * (|Present(s.views[id])| - 1)
      {
        TournamentSize(Links(s.views[id].log), Present(s.views[id]));
        PairsClosedForm(|Present(s.views[id])|);
      }
    } else {
      var next := Step(s, events[0].event, events[0].now);
      forall id | id in next.views ensures Meshed(next.views[id]) {
        OneViewIsMeshed(s, events[0], id);
      }
      RunIsMeshed(next, events[1..]);
    }
  }
}
