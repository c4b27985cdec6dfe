/** The maps of the calls gateway and the call table as one value, and how a change at one call shows in the views. */
module CallStore {
  import opened Common
  import opened Sockets
  import opened CallModel

  datatype Store = Store(
    calls: map<CallId, Call>, active: map<CallId, set<UserId>>, info: map<CallId, map<UserId, PeerInfo>>,
    timers: map<CallId, RingTimer>, sent: map<CallId, seq<Notice>>)

  function Lookup<K, V>(m: map<K, V>, key: K): Option<V> {
    if key in m then Some(m[key]) else None
  }

  function Put<K, V>(m: map<K, V>, key: K, value: Option<V>): map<K, V> {
    if value.Some? then m[key := value.value] else m - {key}
  }

  /** The in-memory maps only speak of calls that have a row. */
  ghost predicate WellFormed(st: Store) {
    && st.active.Keys <= st.calls.Keys
    && st.info.Keys <= st.calls.Keys
    && st.timers.Keys <= st.calls.Keys
    && st.sent.Keys == st.calls.Keys
  }

  function ViewAt(st: Store, id: CallId): CallView
    requires id in st.calls && id in st.sent
  {
    CallView(st.calls[id], Lookup(st.active, id), Lookup(st.info, id), Lookup(st.timers, id), st.sent[id])
  }

  ghost function ViewsOf(st: Store): map<CallId, CallView>
    requires WellFormed(st)
  {
    map id | id in st.calls :: ViewAt(st, id)
  }

  /** The store after a handler gave one call the view w. */
  function PutView(st: Store, id: CallId, w: CallView): Store {
    Store(st.calls[id := w.row], Put(st.active, id, w.active), Put(st.info, id, w.info), Put(st.timers, id, w.timer),
          st.sent[id := w.log])
  }

  lemma LookupPut<K, V>(m: map<K, V>, key: K, value: Option<V>, k: K)
    ensures Lookup(Put(m, key, value), k) == if k == key then value else Lookup(m, k)
  {
  }

  lemma PutKeys<K, V>(m: map<K, V>, key: K, value: Option<V>, all: set<K>)
    requires m.Keys <= all
    ensures Put(m, key, value).Keys <= all + {key}
  {
  }

  lemma PutViewAt(st: Store, id: CallId, w: CallView, k: CallId)
    requires WellFormed(st) && (k in st.calls || k == id)
    ensures var after := PutView(st, id, w);
            k in after.calls && k in after.sent && ViewAt(after, k) == if k == id then w else ViewAt(st, k)
  {
    LookupPut(st.active, id, w.active, k);
    LookupPut(st.info, id, w.info, k);
    LookupPut(st.timers, id, w.timer, k);
  }

  lemma {:induction false} PutViewWellFormed(st: Store, id: CallId, w: CallView)
    requires WellFormed(st)
    ensures WellFormed(PutView(st, id, w)) && PutView(st, id, w).calls.Keys == st.calls.Keys + {id}
  {
    PutKeys(st.active, id, w.active, st.calls.Keys);
    PutKeys(st.info, id, w.info, st.calls.Keys);
    PutKeys(st.timers, id, w.timer, st.calls.Keys);
    assert st.calls[id := w.row].Keys == st.calls.Keys + {id};
    assert st.sent[id := w.log].Keys == st.sent.Keys + {id};
  }

  lemma PutViewChangesOne(st: Store, id: CallId, w: CallView)
    requires WellFormed(st)
    ensures WellFormed(PutView(st, id, w))
    ensures ViewsOf(PutView(st, id, w)) == ViewsOf(st)[id := w]
  {
    PutViewWellFormed(st, id, w);
    var views, expected := ViewsOf(PutView(st, id, w)), ViewsOf(st)[id := w];
    assert views.Keys == expected.Keys;
    forall k | k in views ensures views[k] == expected[k] {
      PutViewAt(st, id, w, k);
    }
  }

  ghost function ServerOf(registry: Registry, st: Store, clock: int): Server
    requires WellFormed(st)
  {
    Server(registry, ViewsOf(st), clock)
  }

  predicate Names(e: Event, socket: SocketId, id: CallId) {
    match e
    case Accept(s, c, _) => s == socket && c == id
    case Decline(s, c) => s == socket && c == id
    case HangUpCall(s, c) => s == socket && c == id
    case Add(s, c, _, _) => s == socket && c == id
    case Kick(s, c, _) => s == socket && c == id
    case _ => false
  }

  /** What a handler that names a call leaves in the store. */
  function HandledStore(registry: Registry, st: Store, socket: SocketId, id: CallId, e: Event, now: int): Store
    requires id in st.calls ==> id in st.sent
  {
    if socket in registry.socketToUser && id in st.calls
    then PutView(st, id, Handle(ViewAt(st, id), registry.socketToUser[socket], e, now)) else st
  }

  /** A handler that leaves the handled store has taken the step. */
  lemma HandledStep(registry: Registry, st: Store, socket: SocketId, id: CallId, e: Event, now: int)
    requires WellFormed(st) && Names(e, socket, id)
    ensures WellFormed(HandledStore(registry, st, socket, id, e, now))
    ensures ServerOf(registry, HandledStore(registry, st, socket, id, e, now), now) ==
            Step(ServerOf(registry, st, now), e, now)
  {
    if socket in registry.socketToUser && id in st.calls {
      PutViewChangesOne(st, id, Handle(ViewAt(st, id), registry.socketToUser[socket], e, now));
    }
  }

  /** What a new call leaves in the store. */
  function InitiatedStore(registry: Registry, st: Store, e: Event, now: int): Store
    requires e.Initiate?
  {
    if e.socket in registry.socketToUser && e.members.Some? && e.caller.Some? then
      var user := registry.socketToUser[e.socket];
      PutView(st, e.newId, InitiateView(user, Callees(e.members.value, user), e.scope, e.caller.value, now))
    else st
  }

  lemma InitiatedStep(registry: Registry, st: Store, e: Event, now: int)
    requires WellFormed(st) && e.Initiate?
    ensures WellFormed(InitiatedStore(registry, st, e, now))
    ensures ServerOf(registry, InitiatedStore(registry, st, e, now), now) == Step(ServerOf(registry, st, now), e, now)
  {
    if e.socket in registry.socketToUser && e.members.Some? && e.caller.Some? {
      var user := registry.socketToUser[e.socket];
      PutViewChangesOne(st, e.newId, InitiateView(user, Callees(e.members.value, user), e.scope, e.caller.value, now));
    }
  }

  /** What a ring timer leaves in the store. */
  function TimedOutStore(st: Store, id: CallId, now: int): Store
    requires id in st.calls ==> id in st.sent
  {
    if id in st.calls then PutView(st, id, TimeoutView(ViewAt(st, id), now)) else st
  }

  lemma TimedOutStep(registry: Registry, st: Store, id: CallId, now: int)
    requires WellFormed(st)
    ensures WellFormed(TimedOutStore(st, id, now))
    ensures ServerOf(registry, TimedOutStore(st, id, now), now) ==
            Step(ServerOf(registry, st, now), RingTimeout(id), now)
  {
    if id in st.calls {
      PutViewChangesOne(st, id, TimeoutView(ViewAt(st, id), now));
    }
  }

  lemma PutSame<K, V>(m: map<K, V>, key: K)
    ensures Put(m, key, Lookup(m, key)) == m
  {
  }

  lemma PutTwice<K, V>(m: map<K, V>, key: K, first: Option<V>, second: Option<V>)
    ensures Put(Put(m, key, first), key, second) == Put(m, key, second)
  {
  }

  /** Putting a call's own view back changes nothing. */
  lemma PutOwnView(st: Store, id: CallId)
    requires WellFormed(st) && id in st.calls
    ensures PutView(st, id, ViewAt(st, id)) == st
  {
    PutSame(st.active, id);
    PutSame(st.info, id);
    PutSame(st.timers, id);
  }

  /** The views part-way through the loop that takes a departed user out of every call. */
  ghost function PartlyDeparted(views: map<CallId, CallView>, user: UserId, now: int,
                                pending: set<CallId>): map<CallId, CallView>
  {
    map id | id in views ::
      if id !in pending && user in Present(views[id]) then LeaveView(views[id], user, now, false) else views[id]
  }

  lemma DepartOne(views: map<CallId, CallView>, user: UserId, now: int, pending: set<CallId>, id: CallId)
    requires id in pending && id in views
    ensures PartlyDeparted(views, user, now, pending - {id}) ==
            if user in Present(views[id])
            then PartlyDeparted(views, user, now, pending)[id := LeaveView(views[id], user, now, false)]
            else PartlyDeparted(views, user, now, pending)
  {
  }

  lemma DepartLimits(views: map<CallId, CallView>, user: UserId, now: int, pending: set<CallId>)
    requires forall id | id in views && id !in pending :: user !in Present(views[id])
    ensures PartlyDeparted(views, user, now, pending) == views
    ensures PartlyDeparted(views, user, now, {}) == Departed(views, user, now)
  {
  }
}
