/** The scheduler by the clock: what is sent when, and what switching does, over every run. */
module SchedulerClock {
  import opened Common
  import opened Decimal
  import opened Scheduler
  import opened SchedulerRuns

  // ----- The clock ----------------------------------------------------------------------------------------

  function Hour(at: nat): nat {
    at / 3_600_000 % 24
  }

  function MinuteOfHour(at: nat): nat {
    at / 60_000 % 60
  }

  /** 0 is Sunday; the clock starts on a Thursday. */
  function DayOfWeek(at: nat): nat {
    (at / 86_400_000 + 4) % 7
  }

  /** Two digits for the hour, a colon, and two digits for the minute. */
  predicate ReadsAs(text: string, hour: nat, minute: nat) {
    && |text| == 5 && text[2] == ':'
    && '0' <= text[0] <= '9' && '0' <= text[1] <= '9' && '0' <= text[3] <= '9' && '0' <= text[4] <= '9'
    && hour == 10 * (text[0] as int - '0' as int) + (text[1] as int - '0' as int)
    && minute == 10 * (text[3] as int - '0' as int) + (text[4] as int - '0' as int)
  }

  lemma MinuteSplits(at: nat)
    ensures Minute(at) / 60 % 24 == Hour(at) && Minute(at) % 60 == MinuteOfHour(at)
    ensures Minute(at) / 1440 == at / 86_400_000
  {
    assert Minute(at) / 60 == at / 3_600_000;
  }

  /** The text compared with the items' times is the one that reads as the hour and minute of the instant. */
  lemma TextIsTime(at: nat, text: string)
    ensures text == TimeText(at) <==> ReadsAs(text, Hour(at), MinuteOfHour(at))
  {
    MinuteSplits(at);
    TwoDigits(Hour(at));
    TwoDigits(MinuteOfHour(at));
    var hours, minutes := PadStart(Render(Hour(at)), 2), PadStart(Render(MinuteOfHour(at)), 2);
    assert TimeText(at) == [hours[0], hours[1], ':', minutes[0], minutes[1]];
    if ReadsAs(text, Hour(at), MinuteOfHour(at)) {
      assert text == [hours[0], hours[1], ':', minutes[0], minutes[1]];
    }
  }

  /** The same by the parser; and two instants have the same text if and only if they agree on hour and minute. */
  lemma TextParses(a: nat, b: nat)
    ensures |TimeText(a)| == 5 && TimeText(a)[2] == ':'
    ensures Parse(TimeText(a)[..2]) == Hour(a) && Parse(TimeText(a)[3..]) == MinuteOfHour(a)
    ensures TimeText(a) == TimeText(b) <==> Hour(a) == Hour(b) && MinuteOfHour(a) == MinuteOfHour(b)
  {
    MinuteSplits(a);
    MinuteSplits(b);
    TwoDigits(Hour(a));
    TwoDigits(MinuteOfHour(a));
    assert TimeText(a)[..2] == PadStart(Render(Hour(a)), 2);
    assert TimeText(a)[3..] == PadStart(Render(MinuteOfHour(a)), 2);
    PaddedRoundTrip(Hour(a), 2);
    PaddedRoundTrip(MinuteOfHour(a), 2);
    TextIsTime(a, TimeText(b));
    TextIsTime(b, TimeText(b));
  }

  /** Thursday on the first day, and the next day of the week a day later. */
  lemma WeekdayIs(at: nat)
    ensures Weekday(at) == DayOfWeek(at) < 7
    ensures at < 86_400_000 ==> Weekday(at) == 4
    ensures Weekday(at + 86_400_000) == (Weekday(at) + 1) % 7
  {
    MinuteSplits(at);
    MinuteSplits(at + 86_400_000);
    assert (at + 86_400_000) / 86_400_000 == at / 86_400_000 + 1;
  }

  /** Clock minutes are the same if and only if the days, the hours and the minutes are. */
  lemma MinuteIsDayHourMinute(a: nat, b: nat)
    ensures Minute(a) == Minute(b) <==>
              a / 86_400_000 == b / 86_400_000 && Hour(a) == Hour(b) && MinuteOfHour(a) == MinuteOfHour(b)
  {
    MinuteSplits(a);
    MinuteSplits(b);
    DaySplits(Minute(a));
    DaySplits(Minute(b));
  }

  lemma DaySplits(m: nat)
    ensures m == 1440 * (m / 1440) + 60 * (m / 60 % 24) + m % 60
  {
    assert m / 60 / 24 == m / 1440;
  }

  // ----- What is sent when --------------------------------------------------------------------------------

  /** It is the item's time of day, and its day of the week if it is weekly. */
  predicate IsTime(item: Item, at: nat) {
    && ReadsAs(item.scheduledTime, Hour(at), MinuteOfHour(at))
    && (item.frequency == Weekly ==> item.dayOfWeek == Some(DayOfWeek(at)))
  }

  /** The item is on, it is its time, and it was not sent in this clock minute. */
  predicate IsUp(item: Item, at: nat) {
    item.isActive && IsTime(item, at) && (item.lastRunAt.Some? ==> item.lastRunAt.value / 60_000 != at / 60_000)
  }

  lemma DueIsUp(item: Item, at: nat)
    ensures Due(item, at) <==> IsUp(item, at)
    ensures Matches(item, at) <==> IsTime(item, at)
  {
    TextIsTime(at, item.scheduledTime);
    WeekdayIs(at);
  }

  /**
   A tick sends exactly the items that are up and whose send works; those remember the instant, and one to be
   sent once is switched off. All others stay as they are.
   */
  lemma TickActs(b: Board, at: nat, works: set<ItemId>)
    ensures var after := Tick(b, at, works);
            && |after.items| == |b.items| && b.log <= after.log
            && (forall k | 0 <= k < |b.items| && IsUp(b.items[k], at) && b.items[k].id in works ::
                  && SentAt(b.items[k], at) in after.log
                  && after.items[k] == b.items[k].(lastRunAt := Some(at), isActive := b.items[k].frequency != Once))
            && (forall k | 0 <= k < |b.items| && !(IsUp(b.items[k], at) && b.items[k].id in works) ::
                  after.items[k] == b.items[k])
            && (forall e | e in after.log[|b.log|..] ::
                  exists k :: 0 <= k < |b.items| && IsUp(b.items[k], at) && b.items[k].id in works &&
                              e == SentAt(b.items[k], at))
  {
    var after := Tick(b, at, works);
    TurnsPrefix(b, |b.items|, at, works);
    forall k | 0 <= k < |b.items|
      ensures IsUp(b.items[k], at) <==> Due(b.items[k], at)
      ensures Due(b.items[k], at) && b.items[k].id in works ==> SentAt(b.items[k], at) in after.log
      ensures after.items[k] ==
              if Due(b.items[k], at) && b.items[k].id in works then Ran(b.items[k], at) else b.items[k]
    {
      DueIsUp(b.items[k], at);
      TurnsAt(b, |b.items|, at, works, k);
    }
    forall e | e in after.log[|b.log|..]
      ensures exists k :: 0 <= k < |b.items| && IsUp(b.items[k], at) && b.items[k].id in works &&
                          e == SentAt(b.items[k], at)
    {
      var n :| |b.log| <= n < |after.log| && after.log[n] == e;
      var k := TurnsSent(b, |b.items|, at, works, n);
      assert IsUp(b.items[k], at) && e == SentAt(b.items[k], at);
    }
  }

  lemma {:induction false} TurnsSent(b: Board, n: nat, at: nat, works: set<ItemId>, m: nat) returns (k: nat)
    requires n <= |b.items| && |b.log| <= m < |Turns(b, n, at, works).log|
    ensures k < n && Due(b.items[k], at) && b.items[k].id in works
    ensures Turns(b, n, at, works).log[m] == SentAt(b.items[k], at)
  {
    var before := Turns(b, n - 1, at, works);
    if m < |before.log| {
      k := TurnsSent(b, n - 1, at, works, m);
    } else {
      k := n - 1;
    }
  }

  /** Over every run an item is sent only while it is on, at its time and day, and once in a clock minute. */
  lemma RunSendsOnTime(b: Board, clock: nat, events: seq<Timed>)
    requires Kept(b, clock) && OrderlyRun(b, clock, events)
    ensures var log := Run(b, events).log;
            && (forall e | e in log && e.SentAt? :: e.item.isActive && IsTime(e.item, e.at))
            && (forall i, j | 0 <= i < j < |log| && log[i].SentAt? && log[j].SentAt? &&
                            log[i].item.id == log[j].item.id ::
                  log[i].at / 60_000 != log[j].at / 60_000)
  {
    RunKeeps(b, clock, events);
    var log := Run(b, events).log;
    forall e | e in log && e.SentAt? ensures e.item.isActive && IsTime(e.item, e.at) {
      DueIsUp(e.item, e.at);
    }
    forall i, j | 0 <= i < j < |log| && log[i].SentAt? && log[j].SentAt? && log[i].item.id == log[j].item.id
      ensures log[i].at / 60_000 != log[j].at / 60_000
    {
      assert Minute(log[i].at) != Minute(log[j].at);
    }
  }

  // ----- Switching, removing, adding ----------------------------------------------------------------------

  /** Unknown items and those of other authors are refused, and nothing changes. */
  lemma AuthorOnly(b: Board, id: ItemId, user: UserId)
    requires forall i, j | 0 <= i < j < |b.items| :: b.items[i].id != b.items[j].id
    ensures (forall item | item in b.items :: item.id != id) ==> AuthorError(b, id, user) == Some(NotFound)
    ensures forall item | item in b.items && item.id == id ::
              AuthorError(b, id, user) == if item.author == user then None else Some(Forbidden)
    ensures AuthorError(b, id, user).Some? ==> Toggled(b, id, user) == b && Removed(b, id, user) == b
  {
    if IndexOf(b.items, id) >= 0 {
      assert b.items[IndexOf(b.items, id)] in b.items;
    }
  }

  /** The author switches an item over, and no other; switching on is recorded. */
  lemma ToggleActs(b: Board, k: nat)
    requires forall i, j | 0 <= i < j < |b.items| :: b.items[i].id != b.items[j].id
    requires k < |b.items|
    ensures var item, after := b.items[k], Toggled(b, b.items[k].id, b.items[k].author);
            && |after.items| == |b.items|
            && (forall i | 0 <= i < |b.items| && i != k :: after.items[i] == b.items[i])
            && (item.isActive ==> after.items[k] == item.(isActive := false) && after.log == b.log)
            && (!item.isActive ==>
                  after.items[k] == item.(isActive := true) && after.log == b.log + [Activated(item.id)])
  {
    assert b.items[IndexOf(b.items, b.items[k].id)].id == b.items[k].id;
    assert IndexOf(b.items, b.items[k].id) == k;
  }

  /** The author removes an item, and no other. */
  lemma RemoveActs(b: Board, k: nat)
    requires forall i, j | 0 <= i < j < |b.items| :: b.items[i].id != b.items[j].id
    requires k < |b.items|
    ensures var after := Removed(b, b.items[k].id, b.items[k].author);
            && after.log == b.log && |after.items| == |b.items| - 1
            && (forall i | 0 <= i < k :: after.items[i] == b.items[i])
            && (forall i | k < i < |b.items| :: after.items[i - 1] == b.items[i])
  {
    assert b.items[IndexOf(b.items, b.items[k].id)].id == b.items[k].id;
    assert IndexOf(b.items, b.items[k].id) == k;
  }

  /** A new item comes last, is on, and has not been sent. */
  lemma CreateActs(b: Board, item: Item, at: nat)
    ensures var after := Step(b, At(Create(item), at));
            && after.log == b.log
            && after.items == b.items + [item.(lastRunAt := None, isActive := true)]
  {
  }

  /** Every item of that name is off, and the author's. */
  predicate OffFor(b: Board, id: ItemId, author: UserId) {
    forall item | item in b.items && item.id == id :: !item.isActive && item.author == author
  }

  predicate SwitchesOn(e: Event, id: ItemId, author: UserId) {
    match e
    case TickAt(_) => false
    case Toggle(other, user) => other == id && user == author
    case Remove(_, _) => false
    case Create(item) => item.id == id
  }

  lemma TickLeavesOff(b: Board, at: nat, works: set<ItemId>, id: ItemId, author: UserId)
    requires OffFor(b, id, author)
    ensures var after := Tick(b, at, works);
            && OffFor(after, id, author) && b.log <= after.log
            && forall n | |b.log| <= n < |after.log| :: !Sends(after.log[n], id)
  {
    var after := Tick(b, at, works);
    TickActs(b, at, works);
    assert forall k | 0 <= k < |b.items| :: b.items[k] in b.items;
    forall n | |b.log| <= n < |after.log| ensures !Sends(after.log[n], id) {
      assert after.log[n] in after.log[|b.log|..];
    }
    forall k | 0 <= k < |b.items| && b.items[k].id == id ensures after.items[k] == b.items[k] {
      assert !IsUp(b.items[k], at);
    }
    forall k | 0 <= k < |b.items| && b.items[k].id != id ensures after.items[k].id != id {
      assert IsUp(b.items[k], at) || !IsUp(b.items[k], at);
    }
    forall item | item in after.items && item.id == id ensures !item.isActive && item.author == author {
      var k :| 0 <= k < |after.items| && after.items[k] == item;
    }
  }

  lemma ToggleLeavesOff(b: Board, other: ItemId, user: UserId, id: ItemId, author: UserId)
    requires (forall i, j | 0 <= i < j < |b.items| :: b.items[i].id != b.items[j].id)
    requires OffFor(b, id, author) && !(other == id && user == author)
    ensures var after := Toggled(b, other, user);
            && OffFor(after, id, author) && b.log <= after.log
            && forall n | |b.log| <= n < |after.log| :: !Sends(after.log[n], id)
  {
    AuthorOnly(b, other, user);
    if AuthorError(b, other, user).None? {
      var k, after := IndexOf(b.items, other), Toggled(b, other, user);
      assert b.items[k] in b.items;
      ToggleActs(b, k);
      forall item | item in after.items && item.id == id ensures !item.isActive && item.author == author {
        var i :| 0 <= i < |after.items| && after.items[i] == item;
        assert b.items[i] in b.items;
      }
    }
  }

  lemma RemoveLeavesOff(b: Board, other: ItemId, user: UserId, id: ItemId, author: UserId)
    requires (forall i, j | 0 <= i < j < |b.items| :: b.items[i].id != b.items[j].id)
    requires OffFor(b, id, author)
    ensures OffFor(Removed(b, other, user), id, author) && Removed(b, other, user).log == b.log
  {
    AuthorOnly(b, other, user);
    if AuthorError(b, other, user).None? {
      var k, after := IndexOf(b.items, other), Removed(b, other, user);
      RemoveActs(b, k);
      forall item | item in after.items && item.id == id ensures !item.isActive && item.author == author {
        var i :| 0 <= i < |after.items| && after.items[i] == item;
        assert b.items[if i < k then i else i + 1] in b.items;
      }
    }
  }

  /** A step that is not its author's switch leaves an item off and unsent. */
  lemma StepLeavesOff(b: Board, clock: nat, t: Timed, id: ItemId, author: UserId)
    requires Kept(b, clock) && OffFor(b, id, author) && !SwitchesOn(t.event, id, author)
    ensures var after := Step(b, t);
            && OffFor(after, id, author) && b.log <= after.log
            && forall n | |b.log| <= n < |after.log| :: !Sends(after.log[n], id)
  {
    match t.event
    case TickAt(works) => TickLeavesOff(b, t.at, works, id, author);
    case Toggle(other, user) => ToggleLeavesOff(b, other, user, id, author);
    case Remove(other, user) => RemoveLeavesOff(b, other, user, id, author);
    case Create(item) => CreateActs(b, item, t.at);
  }

  /** An item that is off is not sent in any run before its author switches it on. */
  lemma {:induction false} OffStaysSilent(b: Board, clock: nat, events: seq<Timed>, id: ItemId, author: UserId)
    requires Kept(b, clock) && OrderlyRun(b, clock, events) && OffFor(b, id, author)
    requires forall t | t in events :: !SwitchesOn(t.event, id, author)
    ensures var after := Run(b, events);
            b.log <= after.log && forall n | |b.log| <= n < |after.log| :: !Sends(after.log[n], id)
    decreases |events|
  {
    if events != [] {
      var next := Step(b, events[0]);
      StepLeavesOff(b, clock, events[0], id, author);
      StepKeeps(b, clock, events[0]);
      OffStaysSilent(next, events[0].at, events[1..], id, author);
      var after := Run(next, events[1..]);
      forall n | |b.log| <= n < |after.log| ensures !Sends(after.log[n], id) {
        if n < |next.log| {
          assert after.log[n] == next.log[n];
        }
      }
    }
  }
}
