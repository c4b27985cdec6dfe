/**
 Handlers in three phases: looking at memory and reading the row, writing it, and the rest. Service calls of
 one call that do not overlap make this the model in which the service call is one step.
 */
module CallPhases {
  import opened Common
  import opened CallModel
  import opened CallPresence
  import opened CallOverlap
  import opened CallRaces
  import opened CallUpdates

  datatype Phases = Phases(views: map<CallId, CallView>, readings: seq<Reading>, pending: seq<Section>)

  datatype Phase = Look(call: CallId, user: UserId, op: Op, at: int) | Store(i: nat, at: int) | Conclude(i: nat)

  function Halves(s: Phases): Overlap {
    Overlap(s.views, s.pending)
  }

  function Stored(s: Phases, i: nat, at: int): Phases
    requires i < |s.readings| && s.readings[i].call in s.views
  {
    var r := s.readings[i];
    var v := s.views[r.call];
    Phases(s.views[r.call := v.(row := Written(v.row, r.row, r.user, r.op, at))],
           s.readings[..i] + s.readings[i + 1..],
           s.pending + [Section(r.call, r.user, r.op, Asked(r.row, r.user, r.op, at))])
  }

  function AfterPhase(s: Phases, p: Phase): Phases {
    match p
    case Look(call, user, op, at) =>
      if call in s.views && Starts(s.views[call], user, op, at)
      then s.(readings := s.readings + [Reading(call, user, op, s.views[call].row)]) else s
    case Store(i, at) =>
      if i < |s.readings| && s.readings[i].call in s.views then Stored(s, i, at) else s
    case Conclude(i) =>
      var after := AfterMove(Halves(s), Finish(i));
      Phases(after.views, s.readings, after.pending)
  }

  function AfterPhases(s: Phases, phases: seq<Phase>): Phases
    decreases |phases|
  {
    if phases == [] then s else AfterPhases(AfterPhase(s, phases[0]), phases[1..])
  }

  // ----- As moves of halves -----------------------------------------------------------------------------

  /** The move a phase is: a write asks the service, reading is none. */
  function MoveOf(s: Phases, p: Phase): seq<Move> {
    match p
    case Look(_, _, _, _) => []
    case Store(i, at) =>
      if i < |s.readings| && s.readings[i].call in s.views then
        var r := s.readings[i];
        [Write(r.call, r.user, r.op, at)]
      else []
    case Conclude(i) => [Finish(i)]
  }

  function MovesOf(s: Phases, phases: seq<Phase>): seq<Move>
    decreases |phases|
  {
    if phases == [] then [] else MoveOf(s, phases[0]) + MovesOf(AfterPhase(s, phases[0]), phases[1..])
  }

  /** Service calls hold the stored row of their call, one at a time, and every call has one row per user. */
  ghost predicate Undisturbed(s: Phases) {
    && (forall i, j | 0 <= i < j < |s.readings| :: s.readings[i].call != s.readings[j].call)
    && (forall i | 0 <= i < |s.readings| ::
          s.readings[i].call in s.views && s.readings[i].row == s.views[s.readings[i].call].row)
    && (forall id | id in s.views :: UniqueUsers(s.views[id].row.participants))
  }

  ghost predicate BeingRead(s: Phases, call: CallId) {
    exists i :: 0 <= i < |s.readings| && s.readings[i].call == call
  }

  /** No handler reads a row while a service call of the same call is between reading and writing. */
  ghost predicate Alone(s: Phases, p: Phase) {
    p.Look? ==> !BeingRead(s, p.call)
  }

  ghost predicate AloneRun(s: Phases, phases: seq<Phase>)
    decreases |phases|
  {
    phases == [] || (Alone(s, phases[0]) && AloneRun(AfterPhase(s, phases[0]), phases[1..]))
  }

  lemma StoreIsWrite(s: Phases, i: nat, at: int)
    requires Undisturbed(s) && i < |s.readings|
    ensures var r := s.readings[i]; Halves(Stored(s, i, at)) == AfterMove(Halves(s), Write(r.call, r.user, r.op, at))
  {
    var r := s.readings[i];
    UndisturbedIsAtomic(r.row, r.user, r.op, at);
  }

  lemma PhaseStaysUndisturbed(s: Phases, p: Phase)
    requires Undisturbed(s) && Alone(s, p)
    ensures Undisturbed(AfterPhase(s, p))
  {
    match p
    case Look(_, _, _, _) =>
    case Store(i, at) =>
      if i < |s.readings| {
        var r, after := s.readings[i], AfterPhase(s, p);
        UndisturbedIsAtomic(r.row, r.user, r.op, at);
        AskedKeepsUnique(r.row, r.user, r.op, at);
        assert forall k | 0 <= k < |after.readings| :: after.readings[k] == s.readings[if k < i then k else k + 1];
      }
    case Conclude(i) =>
      forall id | id in s.views
        ensures id in AfterPhase(s, p).views && AfterPhase(s, p).views[id].row == s.views[id].row
      {
        if i < |s.pending| && s.pending[i].call == id {
          SettledRow(s.views[id], [s.pending[i]], id, s.views[id].row);
        }
      }
  }

  lemma PhaseIsMove(s: Phases, p: Phase)
    requires Undisturbed(s)
    ensures Halves(AfterPhase(s, p)) == AfterMoves(Halves(s), MoveOf(s, p))
  {
    match p
    case Look(_, _, _, _) =>
    case Store(i, at) =>
      if i < |s.readings| {
        StoreIsWrite(s, i, at);
      }
    case Conclude(_) =>
  }

  lemma {:induction false} MovesAppend(s: Overlap, a: seq<Move>, b: seq<Move>)
    ensures AfterMoves(s, a + b) == AfterMoves(AfterMoves(s, a), b)
    decreases |a|
  {
    if a == [] {
      assert a + b == b;
    } else {
      assert (a + b)[1..] == a[1..] + b;
      MovesAppend(AfterMove(s, a[0]), a[1..], b);
    }
  }

  /**
   If no two service calls of one call overlap between reading and writing, a run of handlers in three phases
   is one of handlers in two halves, so that all said of those holds of it.
   */
  lemma {:induction false} PhasesAreHalves(s: Phases, phases: seq<Phase>)
    requires Undisturbed(s) && AloneRun(s, phases)
    ensures Undisturbed(AfterPhases(s, phases))
    ensures Halves(AfterPhases(s, phases)) == AfterMoves(Halves(s), MovesOf(s, phases))
    decreases |phases|
  {
    if phases != [] {
      var next := AfterPhase(s, phases[0]);
      PhaseStaysUndisturbed(s, phases[0]);
      PhaseIsMove(s, phases[0]);
      PhasesAreHalves(next, phases[1..]);
      MovesAppend(Halves(s), MoveOf(s, phases[0]), MovesOf(next, phases[1..]));
    }
  }

  // ----- Presence set and table over runs -----------------------------------------------------------------

  ghost predicate Forward(clock: int, phases: seq<Phase>)
    decreases |phases|
  {
    phases == [] || (clock <= MomentOf(phases[0], clock) && Forward(MomentOf(phases[0], clock), phases[1..]))
  }

  function MomentOf(p: Phase, clock: int): int {
    if p.Conclude? then clock else p.at
  }

  /** A ring timer that fired finds its call answered, or the timer as it was. */
  ghost predicate RingsReady(s: Phases, clock: int) {
    forall i | 0 <= i < |s.readings| && s.readings[i].op.RingingOut? && s.readings[i].call in s.views ::
      RingReady(s.views[s.readings[i].call], s.readings[i], clock)
  }

  predicate RingReady(v: CallView, r: Reading, clock: int) {
    (v.timer.None? && !v.row.status.Ringing?) || Starts(v, r.user, r.op, clock)
  }

  /** What a half does to a call of which the ring timer is being read. */
  lemma RingStaysReady(v: CallView, w: CallView, r: Reading, clock: int, now: int)
    requires r.op.RingingOut? && RingReady(v, r, clock) && clock <= now
    requires !v.row.status.Ringing? ==> !w.row.status.Ringing?
    requires w.timer == v.timer || (w.timer.None? && !w.row.status.Ringing?)
    ensures RingReady(w, r, now)
  {
  }

  lemma PhaseStaysReady(s: Phases, p: Phase, clock: int)
    requires Undisturbed(s) && Alone(s, p) && TimersLag(Halves(s)) && RingsReady(s, clock) &&
             clock <= MomentOf(p, clock)
    ensures RingsReady(AfterPhase(s, p), MomentOf(p, clock))
  {
    var after, now := AfterPhase(s, p), MomentOf(p, clock);
    forall k | 0 <= k < |after.readings| && after.readings[k].op.RingingOut? && after.readings[k].call in after.views
      ensures RingReady(after.views[after.readings[k].call], after.readings[k], now)
    {
      var r := after.readings[k];
      var v, w := s.views[r.call], after.views[r.call];
      match p
      case Look(_, _, _, _) =>
        if k < |s.readings| {
          RingStaysReady(v, w, s.readings[k], clock, now);
        }
      case Store(i, at) =>
        if i < |s.readings| {
          assert r == s.readings[if k < i then k else k + 1];
          NeverRingsAgain(s.readings[i].row, s.readings[i].user, s.readings[i].op, at);
          UndisturbedIsAtomic(s.readings[i].row, s.readings[i].user, s.readings[i].op, at);
        }
        RingStaysReady(v, w, r, clock, now);
      case Conclude(i) =>
        if i < |s.pending| && s.pending[i].call == r.call {
          TimerAfter(v, s.pending[i]);
        }
        RingStaysReady(v, w, r, clock, now);
    }
  }

  /** The timer that fired looked right whatever happened since. */
  lemma RingLooksRight(s: Phases, i: nat, at: int, clock: int)
    requires Undisturbed(s) && TimersLag(Halves(s)) && RingsReady(s, clock) && clock <= at
    requires i < |s.readings| && s.readings[i].op.RingingOut?
    ensures var r := s.readings[i]; LooksRight(Halves(s), Write(r.call, r.user, r.op, at))
  {
    var r := s.readings[i];
    SettledTimer(s.views[r.call], s.pending, r.call);
    SettledRow(s.views[r.call], s.pending, r.call, s.views[r.call].row);
  }

  /**
   The disconnect loop writes for a user who will be present until its rest; and a rest overtakes others of the
   same call only without conflict.
   */
  ghost predicate PhaseYields(s: Phases, p: Phase) {
    match p
    case Look(_, _, _, _) => true
    case Store(i, _) =>
      i < |s.readings| && s.readings[i].op.Dropping? && s.readings[i].call in s.views ==>
        s.readings[i].user in Present(Settled(s.views[s.readings[i].call], s.pending, s.readings[i].call))
    case Conclude(i) => Yields(Halves(s), Finish(i))
  }

  ghost predicate PhasesYield(s: Phases, phases: seq<Phase>)
    decreases |phases|
  {
    phases == [] || (PhaseYields(s, phases[0]) && PhasesYield(AfterPhase(s, phases[0]), phases[1..]))
  }

  lemma StoreYields(s: Phases, i: nat, at: int, clock: int)
    requires Undisturbed(s) && TimersLag(Halves(s)) && RingsReady(s, clock) && clock <= at
    requires i < |s.readings| && PhaseYields(s, Store(i, at))
    ensures var r := s.readings[i]; Yields(Halves(s), Write(r.call, r.user, r.op, at))
  {
    if s.readings[i].op.RingingOut? {
      RingLooksRight(s, i, at, clock);
    }
  }

  lemma {:induction false} YieldingAppend(s: Overlap, a: seq<Move>, b: seq<Move>)
    requires |a| <= 1 && (a != [] ==> Yields(s, a[0])) && YieldingRun(AfterMoves(s, a), b)
    ensures YieldingRun(s, a + b)
  {
    if a == [] {
      assert a + b == b;
    } else {
      assert a == [a[0]] && a[1..] == [] && (a + b)[0] == a[0] && (a + b)[1..] == b;
      assert AfterMoves(s, a) == AfterMoves(AfterMove(s, a[0]), []);
    }
  }

  lemma {:induction false} PhasesYieldAsHalves(s: Phases, phases: seq<Phase>, clock: int)
    requires Undisturbed(s) && TimersLag(Halves(s)) && RingsReady(s, clock)
    requires AloneRun(s, phases) && Forward(clock, phases) && PhasesYield(s, phases)
    ensures YieldingRun(Halves(s), MovesOf(s, phases))
    decreases |phases|
  {
    if phases != [] {
      var p, next := phases[0], AfterPhase(s, phases[0]);
      if p.Store? && p.i < |s.readings| {
        StoreYields(s, p.i, p.at, clock);
      }
      PhaseIsMove(s, p);
      if MoveOf(s, p) != [] {
        StepKeepsTimersLag(Halves(s), MoveOf(s, p)[0]);
        assert MoveOf(s, p)[1..] == [];
      }
      PhaseStaysUndisturbed(s, p);
      PhaseStaysReady(s, p, clock);
      PhasesYieldAsHalves(next, phases[1..], MomentOf(p, clock));
      YieldingAppend(Halves(s), MoveOf(s, p), MovesOf(next, phases[1..]));
    }
  }

  /**
   So presence set and table agree whenever no handler is under way, if service calls of one call do not
   overlap and rests overtake without conflict.
   */
  lemma PhasedRunIsSynced(s: Phases, phases: seq<Phase>, clock: int)
    requires s.readings == [] && s.pending == [] && forall id | id in s.views :: Synced(s.views[id])
    requires AloneRun(s, phases) && Forward(clock, phases) && PhasesYield(s, phases)
    requires PoliteMoves(s.views, MovesOf(s, phases))
    ensures AfterPhases(s, phases).pending == [] ==>
              forall id | id in AfterPhases(s, phases).views :: Synced(AfterPhases(s, phases).views[id])
  {
    PhasesAreHalves(s, phases);
    PhasesYieldAsHalves(s, phases, clock);
    YieldingRunIsSynced(Halves(s), MovesOf(s, phases));
  }
}
