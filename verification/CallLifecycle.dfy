/** How a call's status and times evolve over any run of the server. */
module CallLifecycle {
  import opened Common
  import opened Sockets
  import opened CallModel

  predicate Terminal(status: CallStatus) {
    status.Ended? || status.Missed? || status.Declined?
  }

  /** What holds of every call at every moment `clock`. */
  ghost predicate Consistent(v: CallView, clock: int) {
    && RowConsistent(v.row, clock)
    && (v.row.status.Ringing? ==> v.timer.Some?)
    && (v.timer.Some? ==> v.timer.value.deadline == v.row.createdAt + RING_MILLIS)
  }

  /** The part of it that speaks of the row alone. */
  ghost predicate RowConsistent(row: Call, clock: int) {
    && (Terminal(row.status) <==> row.endedAt.Some?)
    && (row.startedAt.Some? ==> !row.status.Missed? && !row.status.Ringing?)
    && (row.status.Active? ==> row.startedAt.Some?)
    && row.createdAt <= clock
    && (row.startedAt.Some? ==> row.createdAt <= row.startedAt.value <= clock)
    && (row.endedAt.Some? ==> row.endedAt.value <= clock)
    && (row.startedAt.Some? && row.endedAt.Some? ==> row.startedAt.value <= row.endedAt.value)
    && (row.startedAt.None? ==> row.durationSeconds.None?)
    && (row.status.Ended? && row.startedAt.Some? ==>
          row.durationSeconds == Some(Seconds(row.endedAt.value - row.startedAt.value)))
    && (row.durationSeconds.Some? ==> row.durationSeconds.value >= 0)
  }

  /** What no later moment takes back. */
  ghost predicate Evolves(v: CallView, w: CallView) {
    && RowEvolves(v.row, w.row)
    && (v.timer.None? ==> w.timer.None?)
    && v.log <= w.log
  }

  ghost predicate RowEvolves(before: Call, after: Call) {
    && after.createdAt == before.createdAt && after.scope == before.scope && after.initiator == before.initiator
    && (Terminal(before.status) ==> Terminal(after.status))
    && (!before.status.Ringing? ==> !after.status.Ringing?)
    && (before.startedAt.Some? ==> after.startedAt == before.startedAt)
    && (!before.status.Ringing? && before.startedAt.None? ==> after.startedAt.None?)
  }

  /** Calls get new ids, and time does not run backwards. */
  ghost predicate Orderly(s: Server, t: Timed) {
    && s.clock <= t.now
    && (t.event.Initiate? ==> t.event.newId !in s.views)
  }

  ghost predicate OrderlyRun(s: Server, events: seq<Timed>)
    decreases |events|
  {
    events == [] ||
    (Orderly(s, events[0]) && OrderlyRun(Step(s, events[0].event, events[0].now), events[1..]))
  }

  ghost predicate AllConsistent(s: Server) {
    forall id | id in s.views :: Consistent(s.views[id], s.clock)
  }

  lemma SecondsNonNegative(millis: int)
    requires millis >= 0
    ensures Seconds(millis) >= 0
  {
  }

  lemma LeaveIsConsistent(v: CallView, user: UserId, clock: int, now: int, clearTimer: bool)
    requires Consistent(v, clock) && clock <= now
    ensures Consistent(LeaveView(v, user, now, clearTimer), now) && Evolves(v, LeaveView(v, user, now, clearTimer))
  {
    if v.row.startedAt.Some? {
      SecondsNonNegative(now - v.row.startedAt.value);
    }
  }

  lemma AcceptIsConsistent(v: CallView, user: UserId, info: Option<PeerInfo>, clock: int, now: int)
    requires Consistent(v, clock) && clock <= now
    ensures Consistent(AcceptView(v, user, info, now), now) && Evolves(v, AcceptView(v, user, info, now))
  {
  }

  lemma DeclineIsConsistent(v: CallView, user: UserId, clock: int, now: int)
    requires Consistent(v, clock) && clock <= now
    ensures Consistent(DeclineView(v, user, now), now) && Evolves(v, DeclineView(v, user, now))
  {
  }

  lemma AddIsConsistent(v: CallView, host: UserId, target: UserId, known: bool, clock: int, now: int)
    requires Consistent(v, clock) && clock <= now
    ensures Consistent(AddView(v, host, target, known), now) && Evolves(v, AddView(v, host, target, known))
  {
  }

  lemma KickIsConsistent(v: CallView, host: UserId, target: UserId, clock: int, now: int)
    requires Consistent(v, clock) && clock <= now
    ensures Consistent(KickView(v, host, target, now), now) && Evolves(v, KickView(v, host, target, now))
  {
  }

  lemma HandleIsConsistent(v: CallView, user: UserId, e: Event, clock: int, now: int)
    requires Consistent(v, clock) && clock <= now
    ensures Consistent(Handle(v, user, e, now), now) && Evolves(v, Handle(v, user, e, now))
  {
    match e
    case Accept(_, _, info) => AcceptIsConsistent(v, user, info, clock, now);
    case Decline(_, _) => DeclineIsConsistent(v, user, clock, now);
    case HangUpCall(_, _) => LeaveIsConsistent(v, user, clock, now, true);
    case Add(_, _, target, known) => AddIsConsistent(v, user, target, known, clock, now);
    case Kick(_, _, target) => KickIsConsistent(v, user, target, clock, now);
    case _ =>
  }

  lemma TimeoutIsConsistent(v: CallView, clock: int, now: int)
    requires Consistent(v, clock) && clock <= now
    ensures Consistent(TimeoutView(v, now), now) && Evolves(v, TimeoutView(v, now))
    ensures TimeoutView(v, now).row.status.Ringing? ==> now < v.row.createdAt + RING_MILLIS
  {
  }

  lemma HandleOne(s: Server, v: CallView, socket: SocketId, t: Timed)
    requires Consistent(v, s.clock) && s.clock <= t.now
    ensures socket in s.registry.socketToUser ==>
              var w := Handle(v, s.registry.socketToUser[socket], t.event, t.now);
              Consistent(w, t.now) && Evolves(v, w)
  {
    if socket in s.registry.socketToUser {
      HandleIsConsistent(v, s.registry.socketToUser[socket], t.event, s.clock, t.now);
    }
  }

  lemma LaterIsConsistent(v: CallView, clock: int, now: int)
    requires Consistent(v, clock) && clock <= now
    ensures Consistent(v, now) && Evolves(v, v)
  {
  }

  lemma OneViewIsConsistent(s: Server, t: Timed, id: CallId)
    requires AllConsistent(s) && Orderly(s, t) && id in s.views
    ensures var after := Step(s, t.event, t.now);
            id in after.views && Consistent(after.views[id], t.now) && Evolves(s.views[id], after.views[id])
  {
    var v := s.views[id];
    LaterIsConsistent(v, s.clock, t.now);
    match t.event {
      case Disconnect(socket) =>
        var gone := Departing(s.registry, socket);
        if gone.Some? {
          LeaveIsConsistent(v, gone.value, s.clock, t.now, false);
        }
      case RingTimeout(_) => TimeoutIsConsistent(v, s.clock, t.now);
      case Accept(socket, _, _) => HandleOne(s, v, socket, t);
      case Decline(socket, _) => HandleOne(s, v, socket, t);
      case HangUpCall(socket, _) => HandleOne(s, v, socket, t);
      case Add(socket, _, _, _) => HandleOne(s, v, socket, t);
      case Kick(socket, _, _) => HandleOne(s, v, socket, t);
      case _ =>
    }
  }

  lemma StepIsConsistent(s: Server, t: Timed)
    requires AllConsistent(s) && Orderly(s, t)
    ensures AllConsistent(Step(s, t.event, t.now))
    ensures forall id | id in s.views ::
              id in Step(s, t.event, t.now).views && Evolves(s.views[id], Step(s, t.event, t.now).views[id])
  {
    forall id | id in s.views
      ensures id in Step(s, t.event, t.now).views
      ensures Consistent(Step(s, t.event, t.now).views[id], t.now) &&
              Evolves(s.views[id], Step(s, t.event, t.now).views[id])
    {
      OneViewIsConsistent(s, t, id);
    }
  }

  /** Over every run each call stays consistent, and nothing settled is taken back. */
  lemma {:induction false} RunIsConsistent(s: Server, events: seq<Timed>)
    requires AllConsistent(s) && OrderlyRun(s, events)
    ensures AllConsistent(Run(s, events)) && s.clock <= Run(s, events).clock
    ensures forall id | id in s.views :: id in Run(s, events).views && Evolves(s.views[id], Run(s, events).views[id])
    decreases |events|
  {
    if events != [] {
      var next := Step(s, events[0].event, events[0].now);
      StepIsConsistent(s, events[0]);
      RunIsConsistent(next, events[1..]);
      forall id | id in s.views
        ensures id in Run(s, events).views && Evolves(s.views[id], Run(s, events).views[id])
      {
        assert id in next.views && Evolves(s.views[id], next.views[id]);
        assert Evolves(next.views[id], Run(next, events[1..]).views[id]);
      }
    }
  }

  /**
   From a fresh server, at two moments of any run: a call that was answered is never missed before or
   after, a finished call stays finished, and a call once out of RINGING never rings again.
   */
  lemma AnsweredNeverMissed(earlier: seq<Timed>, later: seq<Timed>, id: CallId)
    requires OrderlyRun(EMPTY_SERVER, earlier) && OrderlyRun(Run(EMPTY_SERVER, earlier), later)
    requires id in Run(EMPTY_SERVER, earlier).views
    ensures id in Run(Run(EMPTY_SERVER, earlier), later).views
    ensures var v, w := Run(EMPTY_SERVER, earlier).views[id].row, Run(Run(EMPTY_SERVER, earlier), later).views[id].row;
            && (v.startedAt.Some? ==> !w.status.Missed?)
            && (v.status.Missed? ==> w.startedAt.None?)
            && (w.startedAt.Some? && v.startedAt.Some? ==> v.startedAt == w.startedAt)
            && (Terminal(v.status) ==> Terminal(w.status))
            && (w.status.Ringing? ==> v.status.Ringing?)
  {
    RunIsConsistent(EMPTY_SERVER, earlier);
    RunIsConsistent(Run(EMPTY_SERVER, earlier), later);
  }

  /** No call still rings once its timeout has run, 30 seconds after it was created. */
  lemma NobodyRingsForever(events: seq<Timed>, id: CallId, now: int)
    requires OrderlyRun(EMPTY_SERVER, events) && id in Run(EMPTY_SERVER, events).views
    requires Run(EMPTY_SERVER, events).clock <= now
    ensures var s := Run(EMPTY_SERVER, events);
            var v := s.views[id];
            var after := Step(s, RingTimeout(id), now).views[id];
            now >= v.row.createdAt + RING_MILLIS ==>
              && !after.row.status.Ringing?
              && (v.row.status.Ringing? <==> after.row.status.Missed? && !v.row.status.Missed?)
              && (!v.row.status.Ringing? ==> after.row == v.row && after.log == v.log)
  {
    RunIsConsistent(EMPTY_SERVER, events);
    var s := Run(EMPTY_SERVER, events);
    TimeoutIsConsistent(s.views[id], s.clock, now);
  }
}
