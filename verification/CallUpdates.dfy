/**
 Calls of the service that overlap. Each reads the call's row with its participant rows, and writes what it
 changed back later; another call of the service may write in between.
 */
module CallUpdates {
  import opened Common
  import opened CallModel
  import opened CallLifecycle
  import opened CallPresence
  import opened CallOverlap

  /** A call of the service between reading and writing: the row it holds is the one it read. */
  datatype Reading = Reading(call: CallId, user: UserId, op: Op, row: Call)

  datatype Table = Table(calls: map<CallId, Call>, readings: seq<Reading>)

  datatype Act = Find(call: CallId, user: UserId, op: Op) | Save(i: nat, now: int)

  // ----- Reading and writing ----------------------------------------------------------------------------

  /** Whether the call itself is saved; otherwise at most one participant row is. */
  predicate SavesCall(row: Call, user: UserId, op: Op, now: int) {
    match op
    case Accepting(_) => row.status.Ringing?
    case Declining => row.scope.DirectCall?
    case HangingUp => EndsFully(row, user, now)
    case Dropping => EndsFully(row, user, now)
    case Adding(_, _) => false
    case Kicking(_) => false
    case RingingOut(_) => row.status.Ringing?
  }

  function LeavingIndex(ps: seq<Participant>, user: UserId): int {
    var i := IndexOf(ps, user);
    if i >= 0 && ps[i].status.Joined? then i else -1
  }

  /** The participant row that is saved when the call is not, as it was read. */
  function SavedIndex(row: Call, user: UserId, op: Op): int {
    match op
    case Accepting(_) => IndexOf(row.participants, user)
    case Declining => IndexOf(row.participants, user)
    case HangingUp => LeavingIndex(row.participants, user)
    case Dropping => LeavingIndex(row.participants, user)
    case Kicking(target) => JoinedIndexOf(row.participants, target)
    case _ => -1
  }

  /** One participant row written over the stored row of that user; a row that is gone stays gone. */
  function PutRow(ps: seq<Participant>, p: Participant): seq<Participant> {
    var i := IndexOf(ps, p.user);
    if i < 0 then ps else ps[i := p]
  }

  /**
   The stored call after a service call that read `read` has written: saving a call writes every column and
   participant row it holds, saving a participant row writes that row.
   */
  function Written(current: Call, read: Call, user: UserId, op: Op, now: int): Call {
    var a := Asked(read, user, op, now);
    if a.Refused? then current
    else if SavesCall(read, user, op, now) then a.call
    else if op.Adding? then current.(participants := current.participants + [InviteRow(op.target)])
    else
      var i := SavedIndex(read, user, op);
      if 0 <= i < |a.call.participants|
        then current.(participants := PutRow(current.participants, a.call.participants[i])) else current
  }

  function StepTable(t: Table, act: Act): Table {
    match act
    case Find(call, user, op) =>
      if call in t.calls then t.(readings := t.readings + [Reading(call, user, op, t.calls[call])]) else t
    case Save(i, now) =>
      if i < |t.readings| && t.readings[i].call in t.calls then
        var r := t.readings[i];
        Table(t.calls[r.call := Written(t.calls[r.call], r.row, r.user, r.op, now)],
              t.readings[..i] + t.readings[i + 1..])
      else t
  }

  function RunTable(t: Table, acts: seq<Act>): Table
    decreases |acts|
  {
    if acts == [] then t else RunTable(StepTable(t, acts[0]), acts[1..])
  }

  /** With one row per user, a service call nobody interferes with is the operation in one step. */
  lemma UndisturbedIsAtomic(row: Call, user: UserId, op: Op, now: int)
    requires UniqueUsers(row.participants)
    ensures Written(row, row, user, op, now) == RowAfter(row, Asked(row, user, op, now))
  {
    assert forall i | 0 <= i < |row.participants| :: row.participants[i] in row.participants;
  }

  // ----- When a late write takes something back -----------------------------------------------------------

  /**
   A write that keeps what the stored call has settled: it does not touch the call, or starts one that still
   rings, or agrees on when it started.
   */
  predicate Fits(current: Call, read: Call, user: UserId, op: Op, now: int) {
    !SavesCall(read, user, op, now) ||
    (if op.Accepting? then current.status.Ringing? || (current.status.Active? && current.startedAt == Some(now))
     else current.startedAt == read.startedAt)
  }

  lemma AskedIsConsistent(row: Call, user: UserId, op: Op, clock: int, now: int)
    requires RowConsistent(row, clock) && clock <= now
    ensures var after := RowAfter(row, Asked(row, user, op, now));
            RowConsistent(after, now) && RowEvolves(row, after)
  {
    if row.startedAt.Some? {
      SecondsNonNegative(now - row.startedAt.value);
    }
  }

  /** A write on a call that evolved since it was read evolves it further exactly when it fits. */
  lemma FitsExactly(current: Call, read: Call, user: UserId, op: Op, clock: int, now: int)
    requires RowConsistent(read, clock) && RowConsistent(current, clock) && RowEvolves(read, current) && clock <= now
    ensures RowEvolves(current, Written(current, read, user, op, now)) <==> Fits(current, read, user, op, now)
    ensures RowConsistent(Written(current, read, user, op, now), now)
  {
    AskedIsConsistent(read, user, op, clock, now);
  }

  /** The calls and what was read of them are consistent, and the calls evolved since. */
  ghost predicate TableConsistent(t: Table, clock: int) {
    && (forall id | id in t.calls :: RowConsistent(t.calls[id], clock))
    && (forall i | 0 <= i < |t.readings| ::
          var r := t.readings[i];
          r.call in t.calls && RowConsistent(r.row, clock) && RowEvolves(r.row, t.calls[r.call]))
  }

  ghost predicate ActFits(t: Table, act: Act) {
    act.Save? && act.i < |t.readings| && t.readings[act.i].call in t.calls ==>
      var r := t.readings[act.i];
      Fits(t.calls[r.call], r.row, r.user, r.op, act.now)
  }

  ghost predicate AllFit(t: Table, acts: seq<Act>)
    decreases |acts|
  {
    acts == [] || (ActFits(t, acts[0]) && AllFit(StepTable(t, acts[0]), acts[1..]))
  }

  ghost predicate Evolved(before: Table, after: Table) {
    forall id | id in before.calls :: id in after.calls && RowEvolves(before.calls[id], after.calls[id])
  }

  /** No act of the run takes back a final status, a start, or that a call no longer rings. */
  ghost predicate NothingTakenBack(t: Table, acts: seq<Act>)
    decreases |acts|
  {
    acts == [] || (Evolved(t, StepTable(t, acts[0])) && NothingTakenBack(StepTable(t, acts[0]), acts[1..]))
  }

  function MomentOf(act: Act, clock: int): int {
    if act.Save? then act.now else clock
  }

  ghost predicate Forward(clock: int, acts: seq<Act>)
    decreases |acts|
  {
    acts == [] || (clock <= MomentOf(acts[0], clock) && Forward(MomentOf(acts[0], clock), acts[1..]))
  }

  lemma Later(row: Call, clock: int, now: int)
    requires RowConsistent(row, clock) && clock <= now
    ensures RowConsistent(row, now) && RowEvolves(row, row)
  {
  }

  lemma ActEvolvesExactly(t: Table, act: Act, clock: int)
    requires TableConsistent(t, clock) && clock <= MomentOf(act, clock)
    ensures Evolved(t, StepTable(t, act)) <==> ActFits(t, act)
  {
    forall id | id in t.calls ensures RowEvolves(t.calls[id], t.calls[id]) {
      Later(t.calls[id], clock, clock);
    }
    if act.Save? && act.i < |t.readings| {
      var r := t.readings[act.i];
      FitsExactly(t.calls[r.call], r.row, r.user, r.op, clock, act.now);
      if Evolved(t, StepTable(t, act)) {
        assert RowEvolves(t.calls[r.call], StepTable(t, act).calls[r.call]);
      }
    }
  }

  lemma EvolvesOn(a: Call, b: Call, c: Call)
    requires RowEvolves(a, b) && RowEvolves(b, c)
    ensures RowEvolves(a, c)
  {
  }

  lemma ActStaysConsistent(t: Table, act: Act, clock: int)
    requires TableConsistent(t, clock) && clock <= MomentOf(act, clock) && ActFits(t, act)
    ensures TableConsistent(StepTable(t, act), MomentOf(act, clock))
  {
    var after, now := StepTable(t, act), MomentOf(act, clock);
    ActEvolvesExactly(t, act, clock);
    forall id | id in after.calls ensures RowConsistent(after.calls[id], now) {
      Later(t.calls[id], clock, now);
      if act.Save? && act.i < |t.readings| {
        var r := t.readings[act.i];
        FitsExactly(t.calls[r.call], r.row, r.user, r.op, clock, now);
      }
    }
    forall i | 0 <= i < |after.readings|
      ensures var r := after.readings[i];
              r.call in after.calls && RowConsistent(r.row, now) && RowEvolves(r.row, after.calls[r.call])
    {
      var r := after.readings[i];
      if act.Save? && act.i < |t.readings| {
        assert r == t.readings[if i < act.i then i else i + 1];
      }
      if act.Find? && i == |t.readings| {
        Later(r.row, clock, now);
      } else {
        Later(r.row, clock, now);
        EvolvesOn(r.row, t.calls[r.call], after.calls[r.call]);
      }
    }
  }

  /** However service calls overlap, nothing is taken back along a run if and only if every write of it fits. */
  lemma {:induction false} RunEvolvesExactly(t: Table, acts: seq<Act>, clock: int)
    requires TableConsistent(t, clock) && Forward(clock, acts)
    ensures NothingTakenBack(t, acts) <==> AllFit(t, acts)
    decreases |acts|
  {
    if acts != [] {
      ActEvolvesExactly(t, acts[0], clock);
      if ActFits(t, acts[0]) {
        ActStaysConsistent(t, acts[0], clock);
        RunEvolvesExactly(StepTable(t, acts[0]), acts[1..], MomentOf(acts[0], clock));
      }
    }
  }

  // ----- Without overlap on one call ----------------------------------------------------------------------

  ghost predicate BeingRead(t: Table, call: CallId) {
    exists i :: 0 <= i < |t.readings| && t.readings[i].call == call
  }

  ghost predicate AloneRun(t: Table, acts: seq<Act>)
    decreases |acts|
  {
    acts == [] ||
    ((acts[0].Find? ==> !BeingRead(t, acts[0].call)) && AloneRun(StepTable(t, acts[0]), acts[1..]))
  }

  /** Every service call holds the stored call, and no other one of that call is under way. */
  ghost predicate UpToDate(t: Table) {
    && (forall i, j | 0 <= i < j < |t.readings| :: t.readings[i].call != t.readings[j].call)
    && (forall i | 0 <= i < |t.readings| ::
          t.readings[i].call in t.calls && t.readings[i].row == t.calls[t.readings[i].call])
  }

  lemma ActStaysUpToDate(t: Table, act: Act)
    requires UpToDate(t) && (act.Find? ==> !BeingRead(t, act.call))
    ensures UpToDate(StepTable(t, act))
  {
    if act.Save? && act.i < |t.readings| {
      var after := StepTable(t, act).readings;
      assert forall k | 0 <= k < |after| :: after[k] == t.readings[if k < act.i then k else k + 1];
    }
  }

  /**
   If no two service calls of one call overlap, however those of different calls do: final statuses are never
   left, RINGING is never re-entered, startedAt is written once and no call is both answered and missed.
   */
  lemma {:induction false} AloneRunEvolves(t: Table, acts: seq<Act>, clock: int)
    requires TableConsistent(t, clock) && Forward(clock, acts) && UpToDate(t) && AloneRun(t, acts)
    ensures AllFit(t, acts) && NothingTakenBack(t, acts) && Evolved(t, RunTable(t, acts))
    decreases |acts|
  {
    if acts == [] {
      forall id | id in t.calls ensures RowEvolves(t.calls[id], t.calls[id]) {
        Later(t.calls[id], clock, clock);
      }
    } else {
      var next := StepTable(t, acts[0]);
      ActEvolvesExactly(t, acts[0], clock);
      ActStaysConsistent(t, acts[0], clock);
      ActStaysUpToDate(t, acts[0]);
      AloneRunEvolves(next, acts[1..], MomentOf(acts[0], clock));
      forall id | id in t.calls
        ensures id in RunTable(t, acts).calls && RowEvolves(t.calls[id], RunTable(t, acts).calls[id])
      {
        EvolvesOn(t.calls[id], next.calls[id], RunTable(next, acts[1..]).calls[id]);
      }
    }
  }

  // ----- Two service calls on one call --------------------------------------------------------------------

  /**
   Two service calls that both read before either writes: the second write takes something back exactly when
   both save the call and one of them accepts, unless both do in the same instant.
   */
  lemma TwoWritesExactly(row: Call, a: UserId, opA: Op, timeA: int, b: UserId, opB: Op, timeB: int, clock: int)
    requires RowConsistent(row, clock) && clock <= timeA <= timeB
    ensures var mid := Written(row, row, a, opA, timeA);
            var end := Written(mid, row, b, opB, timeB);
            RowEvolves(mid, end) <==>
              !(SavesCall(row, a, opA, timeA) && SavesCall(row, b, opB, timeB) &&
                (if opA.Accepting? && opB.Accepting? then timeA != timeB else opA.Accepting? || opB.Accepting?))
  {
    var mid := Written(row, row, a, opA, timeA);
    Later(row, clock, clock);
    FitsExactly(row, row, a, opA, clock, timeA);
    Later(row, clock, timeA);
    FitsExactly(mid, row, b, opB, timeA, timeB);
  }

  /** An accept and the ring timeout of a ringing call that both read first: whichever writes last wins. */
  lemma AnswerAndMissOverlap(row: Call, user: UserId, info: Option<PeerInfo>,
                             callees: seq<UserId>, first: int, second: int)
    requires row.status.Ringing?
    ensures var missed := Written(row, row, user, RingingOut(callees), first);
            var taken := Written(missed, row, user, Accepting(info), second);
            missed.status.Missed? && missed.endedAt == Some(first) && taken.status.Active? &&
              taken.endedAt == row.endedAt
    ensures var answered := Written(row, row, user, Accepting(info), first);
            var lost := Written(answered, row, user, RingingOut(callees), second);
            answered.status.Active? && answered.startedAt == Some(first) &&
              lost.status.Missed? && lost.startedAt == row.startedAt
  {
  }

  // ----- Participant rows -------------------------------------------------------------------------------

  /** Whose participant row a service call is about. */
  function Subject(user: UserId, op: Op): Option<UserId> {
    match op
    case Adding(target, _) => Some(target)
    case Kicking(target) => Some(target)
    case RingingOut(_) => None
    case _ => Some(user)
  }

  lemma PutRowOthers(ps: seq<Participant>, p: Participant, user: UserId)
    requires p.user != user
    ensures RowFor(PutRow(ps, p), user) == RowFor(ps, user)
  {
    var i, after := IndexOf(ps, user), PutRow(ps, p);
    if i >= 0 {
      IndexIs(after, user, i);
    } else {
      assert forall q | q in after :: q in ps || q == p;
    }
  }

  lemma AppendOthers(ps: seq<Participant>, p: Participant, user: UserId)
    requires p.user != user
    ensures RowFor(ps + [p], user) == RowFor(ps, user)
  {
    var i, after := IndexOf(ps, user), ps + [p];
    if i >= 0 {
      IndexIs(after, user, i);
    } else {
      assert forall q | q in after :: q in ps || q == p;
    }
  }

  /** A write that does not save the call leaves the rows of everybody it is not about. */
  lemma WriteOthers(current: Call, read: Call, user: UserId, op: Op, now: int, other: UserId)
    requires !SavesCall(read, user, op, now) && Subject(user, op) != Some(other)
    ensures RowFor(Written(current, read, user, op, now).participants, other) == RowFor(current.participants, other)
  {
    var a := Asked(read, user, op, now);
    if a.Answered? {
      if op.Adding? {
        AppendOthers(current.participants, InviteRow(op.target), other);
      } else {
        var i := SavedIndex(read, user, op);
        if 0 <= i < |a.call.participants| {
          PutRowOthers(current.participants, a.call.participants[i], other);
        }
      }
    }
  }

  /**
   Two service calls that both read first. A participant row the first one wrote or added, and the second one
   neither is about nor changes, is lost if and only if the second one saves the call; it is then as it was
   read.
   */
  lemma RowLostExactly(row: Call, a: UserId, opA: Op, timeA: int, b: UserId, opB: Op, timeB: int, user: UserId)
    requires var mid := Written(row, row, a, opA, timeA);
             RowFor(mid.participants, user) != RowFor(row.participants, user)
    requires Subject(b, opB) != Some(user)
    requires RowFor(RowAfter(row, Asked(row, b, opB, timeB)).participants, user) == RowFor(row.participants, user)
    ensures var mid := Written(row, row, a, opA, timeA);
            var end := Written(mid, row, b, opB, timeB);
            && (RowFor(end.participants, user) != RowFor(mid.participants, user) <==> SavesCall(row, b, opB, timeB))
            && (SavesCall(row, b, opB, timeB) ==> RowFor(end.participants, user) == RowFor(row.participants, user))
  {
    if !SavesCall(row, b, opB, timeB) {
      WriteOthers(Written(row, row, a, opA, timeA), row, b, opB, timeB, user);
    }
  }

  // ----- Runs of atomic operations ------------------------------------------------------------------------

  /** The table whose operations happen in one step, when the other's write. */
  function StepAtomic(t: Table, act: Act): Table {
    match act
    case Find(call, user, op) =>
      if call in t.calls then t.(readings := t.readings + [Reading(call, user, op, t.calls[call])]) else t
    case Save(i, now) =>
      if i < |t.readings| && t.readings[i].call in t.calls then
        var r := t.readings[i];
        var row := t.calls[r.call];
        Table(t.calls[r.call := RowAfter(row, Asked(row, r.user, r.op, now))], t.readings[..i] + t.readings[i + 1..])
      else t
  }

  function RunAtomic(t: Table, acts: seq<Act>): Table
    decreases |acts|
  {
    if acts == [] then t else RunAtomic(StepAtomic(t, acts[0]), acts[1..])
  }

  ghost predicate RowsUnique(calls: map<CallId, Call>) {
    forall id | id in calls :: UniqueUsers(calls[id].participants)
  }

  /** Every operation keeps one row per user. */
  lemma AskedKeepsUnique(row: Call, user: UserId, op: Op, now: int)
    requires UniqueUsers(row.participants)
    ensures UniqueUsers(RowAfter(row, Asked(row, user, op, now)).participants)
  {
    var ps := row.participants;
    match op
    case HangingUp => MarkLeftRemoves(ps, user, now);
    case Dropping => MarkLeftRemoves(ps, user, now);
    case Adding(target, _) => assert forall i | 0 <= i < |ps| :: ps[i] in ps;
    case _ =>
  }

  /** If no two service calls of one call overlap, the table is that of the operations each in one step. */
  lemma {:induction false} AloneRunIsAtomic(t: Table, acts: seq<Act>)
    requires UpToDate(t) && AloneRun(t, acts) && RowsUnique(t.calls)
    ensures RunTable(t, acts) == RunAtomic(t, acts) && RowsUnique(RunTable(t, acts).calls)
    decreases |acts|
  {
    if acts != [] {
      var act := acts[0];
      if act.Save? && act.i < |t.readings| {
        var r := t.readings[act.i];
        UndisturbedIsAtomic(r.row, r.user, r.op, act.now);
        AskedKeepsUnique(r.row, r.user, r.op, act.now);
      }
      ActStaysUpToDate(t, act);
      AloneRunIsAtomic(StepTable(t, act), acts[1..]);
    }
  }
}
