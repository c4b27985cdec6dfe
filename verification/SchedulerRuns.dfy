/** The scheduler's promises over every run of ticks and switches. */
module SchedulerRuns {
  import opened Common
  import opened Decimal
  import opened Scheduler

  lemma MinuteMonotone(a: nat, b: nat)
    requires a <= b
    ensures Minute(a) <= Minute(b)
  {
  }

  /** An entry that is not a send of the item changes nothing the item remembers. */
  lemma RemembersMore(log: seq<Entry>, e: Entry, item: Item, clock: nat, later: nat)
    requires Remembers(log, item, clock) && clock <= later && !Sends(e, item.id)
    ensures Remembers(log + [e], item, later)
  {
    var more := log + [e];
    assert forall i | 0 <= i < |log| :: more[i] == log[i];
    if item.lastRunAt.Some? {
      var i :| 0 <= i < |log| && Sends(log[i], item.id) && log[i].at == item.lastRunAt.value;
      assert Sends(more[i], item.id);
    }
    if item.frequency.Once? && item.isActive {
      forall i | 0 <= i < |more| && Sends(more[i], item.id) ensures ReactivatedAfter(more, item.id, i) {
        assert ReactivatedAfter(log, item.id, i);
        var k :| i < k < |log| && log[k] == Activated(item.id);
        assert more[k] == Activated(item.id);
      }
    }
  }

  lemma RemembersLater(log: seq<Entry>, item: Item, clock: nat, later: nat)
    requires Remembers(log, item, clock) && clock <= later
    ensures Remembers(log, item, later)
  {
  }

  /** The item that was just sent. */
  lemma RemembersSend(log: seq<Entry>, item: Item, at: nat, clock: nat)
    requires Remembers(log, item, clock) && clock <= at
    ensures Remembers(log + [SentAt(item, at)], Ran(item, at), at)
  {
    var more := log + [SentAt(item, at)];
    assert more[|log|] == SentAt(item, at);
    assert forall i | 0 <= i < |log| :: more[i] == log[i];
  }

  lemma EarlierMinutes(log: seq<Entry>, item: Item, at: nat, clock: nat, i: nat)
    requires Remembers(log, item, clock) && clock <= at && !RanThisMinute(item, at)
    requires i < |log| && Sends(log[i], item.id)
    ensures Minute(log[i].at) < Minute(at)
  {
    MinuteMonotone(log[i].at, item.lastRunAt.value);
    MinuteMonotone(item.lastRunAt.value, at);
  }

  lemma SendKeepsLog(log: seq<Entry>, item: Item, at: nat, clock: nat)
    requires OncePerMinute(log) && OnceBetweenActivations(log) && OnTime(log)
    requires Remembers(log, item, clock) && clock <= at && Due(item, at)
    ensures OncePerMinute(log + [SentAt(item, at)])
    ensures OnceBetweenActivations(log + [SentAt(item, at)])
    ensures OnTime(log + [SentAt(item, at)])
  {
    var more := log + [SentAt(item, at)];
    assert forall i | 0 <= i < |log| :: more[i] == log[i];
    forall i | 0 <= i < |log| && Sends(log[i], item.id)
      ensures Minute(log[i].at) != Minute(at)
      ensures item.frequency.Once? ==> exists k :: i < k < |log| && more[k] == Activated(item.id)
    {
      EarlierMinutes(log, item, at, clock, i);
      if item.frequency.Once? {
        assert ReactivatedAfter(log, item.id, i);
        var k :| i < k < |log| && log[k] == Activated(item.id);
        assert more[k] == Activated(item.id);
      }
    }
    forall i, j | 0 <= i < j < |more| && more[i].SentAt? && more[j].SentAt? && more[i].item.id == more[j].item.id
      ensures Minute(more[i].at) != Minute(more[j].at)
      ensures more[j].item.frequency.Once? ==> exists k :: i < k < j && more[k] == Activated(more[i].item.id)
    {
      if j < |log| {
        if more[j].item.frequency.Once? {
          var k :| i < k < j && log[k] == Activated(log[i].item.id);
          assert more[k] == Activated(more[i].item.id);
        }
      } else {
        assert Sends(log[i], item.id);
      }
    }
  }

  lemma ActivationKeepsLog(log: seq<Entry>, id: ItemId)
    requires OncePerMinute(log) && OnceBetweenActivations(log) && OnTime(log)
    ensures OncePerMinute(log + [Activated(id)])
    ensures OnceBetweenActivations(log + [Activated(id)])
    ensures OnTime(log + [Activated(id)])
  {
    var more := log + [Activated(id)];
    assert forall i | 0 <= i < |log| :: more[i] == log[i];
    forall i, j | 0 <= i < j < |more| && more[i].SentAt? && more[j].SentAt? &&
      more[i].item.id == more[j].item.id && more[j].item.frequency.Once?
      ensures exists k :: i < k < j && more[k] == Activated(more[i].item.id)
    {
      var k :| i < k < j && log[k] == Activated(log[i].item.id);
      assert more[k] == Activated(more[i].item.id);
    }
  }

  lemma TurnKeeps(b: Board, i: nat, at: nat, works: set<ItemId>, clock: nat)
    requires Kept(b, clock) && clock <= at && i < |b.items|
    ensures Kept(Turn(b, i, at, works), at)
  {
    var item := b.items[i];
    var after := Turn(b, i, at, works);
    if Due(item, at) && item.id in works {
      SendKeepsLog(b.log, item, at, clock);
      forall k | 0 <= k < |after.items| ensures Remembers(after.log, after.items[k], at) {
        assert Remembers(b.log, b.items[k], clock);
        if k == i {
          RemembersSend(b.log, item, at, clock);
        } else {
          RemembersMore(b.log, SentAt(item, at), b.items[k], clock, at);
        }
      }
    } else {
      forall k | 0 <= k < |after.items| ensures Remembers(after.log, after.items[k], at) {
        RemembersLater(b.log, b.items[k], clock, at);
      }
    }
  }

  lemma LaterKeeps(b: Board, clock: nat, later: nat)
    requires Kept(b, clock) && clock <= later
    ensures Kept(b, later)
  {
    forall k | 0 <= k < |b.items| ensures Remembers(b.log, b.items[k], later) {
      RemembersLater(b.log, b.items[k], clock, later);
    }
  }

  lemma TurnOf(before: Board, i: nat, at: nat, works: set<ItemId>, after: Board)
    requires Kept(before, at) && i < |before.items| && after == Turn(before, i, at, works)
    ensures Kept(after, at)
  {
    TurnKeeps(before, i, at, works, at);
  }

  lemma {:induction false} TurnsKeep(b: Board, n: nat, at: nat, works: set<ItemId>, clock: nat)
    requires Kept(b, clock) && clock <= at && n <= |b.items|
    ensures Kept(Turns(b, n, at, works), at)
  {
    if n == 0 {
      LaterKeeps(b, clock, at);
    } else {
      TurnsKeep(b, n - 1, at, works, clock);
      TurnOf(Turns(b, n - 1, at, works), n - 1, at, works, Turns(b, n, at, works));
    }
  }

  /** The item that was just switched on or off. */
  lemma RemembersToggle(log: seq<Entry>, item: Item, clock: nat)
    requires Remembers(log, item, clock)
    ensures Remembers(if item.isActive then log else log + [Activated(item.id)],
                      item.(isActive := !item.isActive), clock)
  {
    if !item.isActive {
      var more := log + [Activated(item.id)];
      RemembersMore(log, Activated(item.id), item, clock, clock);
      forall i | 0 <= i < |more| && Sends(more[i], item.id) ensures ReactivatedAfter(more, item.id, i) {
        assert more[|log|] == Activated(item.id);
      }
    }
  }

  lemma ToggleKeeps(b: Board, id: ItemId, user: UserId, clock: nat)
    requires Kept(b, clock)
    ensures Kept(Toggled(b, id, user), clock)
  {
    var i := IndexOf(b.items, id);
    if AuthorError(b, id, user).None? {
      var after := Toggled(b, id, user);
      var item := b.items[i];
      if !item.isActive {
        ActivationKeepsLog(b.log, id);
      }
      forall k | 0 <= k < |after.items| ensures Remembers(after.log, after.items[k], clock) {
        assert Remembers(b.log, b.items[k], clock);
        if k == i {
          RemembersToggle(b.log, item, clock);
        } else if !item.isActive {
          RemembersMore(b.log, Activated(id), b.items[k], clock, clock);
        }
      }
    }
  }

  lemma RemoveKeeps(b: Board, id: ItemId, user: UserId, clock: nat)
    requires Kept(b, clock)
    ensures Kept(Removed(b, id, user), clock)
  {
    var i := IndexOf(b.items, id);
    if AuthorError(b, id, user).None? {
      var after := Removed(b, id, user);
      forall k | 0 <= k < |after.items| ensures Remembers(after.log, after.items[k], clock) {
        assert after.items[k] == b.items[if k < i then k else k + 1];
      }
      forall j, k | 0 <= j < k < |after.items| ensures after.items[j].id != after.items[k].id {
        assert after.items[j] == b.items[if j < i then j else j + 1];
        assert after.items[k] == b.items[if k < i then k else k + 1];
      }
    }
  }

  lemma StepKeeps(b: Board, clock: nat, t: Timed)
    requires Kept(b, clock) && Orderly(b, clock, t)
    ensures Kept(Step(b, t), t.at)
  {
    LaterKeeps(b, clock, t.at);
    match t.event
    case TickAt(works) => TurnsKeep(b, |b.items|, t.at, works, clock);
    case Toggle(id, user) => ToggleKeeps(b, id, user, t.at);
    case Remove(id, user) => RemoveKeeps(b, id, user, t.at);
    case Create(item) =>
      assert forall i | 0 <= i < |b.items| :: b.items[i] in b.items;
      assert forall i | 0 <= i < |b.log| :: b.log[i] in b.log;
  }

  /** The moment of the last event. */
  function EndOf(clock: nat, events: seq<Timed>): nat
    decreases |events|
  {
    if events == [] then clock else EndOf(events[0].at, events[1..])
  }

  /**
   Over every run of ticks, with any outcomes, an item is sent at most once per clock minute, only when it is
   active and at its time and weekday, and a ONCE item at most once between two activations.
   */
  lemma {:induction false} RunKeeps(b: Board, clock: nat, events: seq<Timed>)
    requires Kept(b, clock) && OrderlyRun(b, clock, events)
    ensures OncePerMinute(Run(b, events).log) && OnceBetweenActivations(Run(b, events).log) &&
            OnTime(Run(b, events).log)
    ensures Kept(Run(b, events), EndOf(clock, events))
    decreases |events|
  {
    if events != [] {
      var next := Step(b, events[0]);
      assert Kept(next, events[0].at) by {
        StepKeeps(b, clock, events[0]);
      }
      RunKeeps(next, events[0].at, events[1..]);
    }
  }

  // ----- What one tick does -----------------------------------------------------------------------------

  /** The turns of a tick do not touch each other's items, and only append to the log. */
  lemma {:induction false} TurnsAt(b: Board, n: nat, at: nat, works: set<ItemId>, k: nat)
    requires n <= |b.items| && k < n
    ensures var item := b.items[k];
            Turns(b, n, at, works).items[k] == if Due(item, at) && item.id in works then Ran(item, at) else item
    ensures b.log <= Turns(b, n, at, works).log
    ensures Due(b.items[k], at) && b.items[k].id in works ==> SentAt(b.items[k], at) in Turns(b, n, at, works).log
  {
    if k < n - 1 {
      TurnsAt(b, n - 1, at, works, k);
    } else {
      TurnsPrefix(b, n - 1, at, works);
    }
  }

  lemma {:induction false} TurnsPrefix(b: Board, n: nat, at: nat, works: set<ItemId>)
    requires n <= |b.items|
    ensures b.log <= Turns(b, n, at, works).log
  {
    if n != 0 {
      TurnsPrefix(b, n - 1, at, works);
    }
  }

  lemma SameMinuteSameSend(log: seq<Entry>, i: nat, j: nat)
    requires OncePerMinute(log) && i < |log| && j < |log| && log[i].SentAt? && log[j].SentAt?
    requires log[i].item.id == log[j].item.id && Minute(log[i].at) == Minute(log[j].at)
    ensures i == j
  {
  }

  /**
   A tick whose send of an active, matching item succeeds leaves exactly one send of it in that minute,
   whether made now or earlier in the minute; a failed send leaves the item as it was.
   */
  lemma TickSendsExactlyOnce(b: Board, clock: nat, at: nat, works: set<ItemId>, k: nat)
    requires Kept(b, clock) && clock <= at && k < |b.items|
    ensures var item, after := b.items[k], Tick(b, at, works);
            && (item.isActive && Matches(item, at) && item.id in works ==>
                  exists i :: 0 <= i < |after.log| && Sends(after.log[i], item.id) &&
                    Minute(after.log[i].at) == Minute(at) &&
                    forall j | 0 <= j < |after.log| && Sends(after.log[j], item.id) &&
                               Minute(after.log[j].at) == Minute(at) ::
                      j == i)
            && (item.id !in works || !Due(item, at) ==> after.items[k] == item)
            && after.items[k].(lastRunAt := None, isActive := true) == item.(lastRunAt := None, isActive := true)
  {
    var item, after := b.items[k], Tick(b, at, works);
    TurnsAt(b, |b.items|, at, works, k);
    TurnsKeep(b, |b.items|, at, works, clock);
    if item.isActive && Matches(item, at) && item.id in works {
      var i: nat;
      if RanThisMinute(item, at) {
        assert Remembers(b.log, item, clock);
        var n :| 0 <= n < |b.log| && Sends(b.log[n], item.id) && b.log[n].at == item.lastRunAt.value;
        i := n;
        assert after.log[n] == b.log[n];
      } else {
        var n :| 0 <= n < |after.log| && after.log[n] == SentAt(item, at);
        i := n;
      }
      assert Sends(after.log[i], item.id) && Minute(after.log[i].at) == Minute(at);
      forall j | 0 <= j < |after.log| && Sends(after.log[j], item.id) && Minute(after.log[j].at) == Minute(at)
        ensures j == i
      {
        SameMinuteSameSend(after.log, i, j);
      }
    }
  }

  class ScheduledMessages {
    var items: seq<Item>
    var log: seq<Entry>

    ghost function State(): Board
      reads this
    {
      Board(items, log)
    }

    constructor ()
      ensures State() == Board([], []) && Kept(State(), 0)
    {
      items, log := [], [];
    }

    /** The minute tick; `works` holds the items whose send succeeds. */
    method ProcessScheduledMessages(now: nat, works: set<ItemId>)
      modifies this
      ensures State() == Tick(old(State()), now, works)
    {
      var currentTimeStr := PadStart(Render(Minute(now) / 60 % 24), 2) + ":" + PadStart(Render(Minute(now) % 60), 2);
      var currentDay := Weekday(now);
      ghost var before := State();
      for i := 0 to |items|
        invariant |items| == |before.items| && State() == Turns(before, i, now, works)
      {
        var item := items[i];
        if item.isActive && item.scheduledTime == currentTimeStr {
          if !(item.frequency.Weekly? && item.dayOfWeek != Some(currentDay)) {
            if !(item.lastRunAt.Some? && Minute(item.lastRunAt.value) == Minute(now)) {
              if item.id in works {
                log := log + [SentAt(item, now)];
                item := item.(lastRunAt := Some(now));
                if item.frequency.Once? {
                  item := item.(isActive := false);
                }
                items := items[i := item];
              }
            }
          }
        }
      }
    }

    method ToggleScheduledMessage(id: ItemId, userId: UserId) returns (error: Option<ScheduleError>)
      modifies this
      ensures error == AuthorError(old(State()), id, userId)
      ensures State() == Toggled(old(State()), id, userId)
    {
      var i := IndexOf(items, id);
      if i < 0 {
        return Some(NotFound);
      }
      if items[i].author != userId {
        return Some(Forbidden);
      }
      if !items[i].isActive {
        log := log + [Activated(id)];
      }
      items := items[i := items[i].(isActive := !items[i].isActive)];
      error := None;
    }

    method DeleteScheduledMessage(id: ItemId, userId: UserId) returns (error: Option<ScheduleError>)
      modifies this
      ensures error == AuthorError(old(State()), id, userId)
      ensures State() == Removed(old(State()), id, userId)
    {
      var i := IndexOf(items, id);
      if i < 0 {
        return Some(NotFound);
      }
      if items[i].author != userId {
        return Some(Forbidden);
      }
      items := items[..i] + items[i + 1..];
      error := None;
    }

    /** `known` says whether the sender and the conversation exist; `id` is a new uuid. */
    method ScheduleMessage(id: ItemId, senderId: UserId, known: bool, frequency: Frequency,
                           time: string, day: Option<int>)
      returns (error: Option<ScheduleError>)
      modifies this
      ensures !known ==> error == Some(NotFound) && State() == old(State())
      ensures known ==>
                error == None &&
                  State() == Step(old(State()), At(Create(NewItem(id, senderId, frequency, time, day)), 0))
    {
      if !known {
        return Some(NotFound);
      }
      items := items + [Item(id, senderId, frequency, time, day, None, true)];
      error := None;
    }
  }
}
