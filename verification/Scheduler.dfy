/** Scheduled messages: the tick that sends what is due, and switching items on and off. */
module Scheduler {
  import opened Common
  import opened Decimal

  type ItemId = string

  datatype Frequency = Daily | Weekly | Once

  datatype Item = Item(
    id: ItemId, author: UserId, frequency: Frequency, scheduledTime: string, dayOfWeek: Option<int>,
    lastRunAt: Option<nat>, isActive: bool)

  /** What happened, in order: an item was sent at an instant, or was switched on again. */
  datatype Entry = SentAt(item: Item, at: nat) | Activated(id: ItemId)

  datatype Board = Board(items: seq<Item>, log: seq<Entry>)

  datatype ScheduleError = NotFound | Forbidden

  // ----- The clock --------------------------------------------------------------------------------------

  /** The clock minute of an instant in milliseconds. */
  function Minute(at: nat): nat {
    at / 60_000
  }

  /** "HH:mm" of an instant. */
  function TimeText(at: nat): string {
    PadStart(Render(Minute(at) / 60 % 24), 2) + ":" + PadStart(Render(Minute(at) % 60), 2)
  }

  /** 0 is Sunday; day 0 of the clock is a Thursday. */
  function Weekday(at: nat): nat {
    (Minute(at) / 1440 + 4) % 7
  }

  // ----- Steps ------------------------------------------------------------------------------------------

  /** The item's time of day and, if weekly, its weekday are those of the instant. */
  predicate Matches(item: Item, at: nat) {
    item.scheduledTime == TimeText(at) && (item.frequency.Weekly? ==> item.dayOfWeek == Some(Weekday(at)))
  }

  predicate RanThisMinute(item: Item, at: nat) {
    item.lastRunAt.Some? && Minute(item.lastRunAt.value) == Minute(at)
  }

  predicate Due(item: Item, at: nat) {
    item.isActive && Matches(item, at) && !RanThisMinute(item, at)
  }

  function Ran(item: Item, at: nat): Item {
    item.(lastRunAt := Some(at), isActive := item.isActive && !item.frequency.Once?)
  }

  /** One turn of the tick's loop; `works` holds the items whose send succeeds. */
  function Turn(b: Board, i: nat, at: nat, works: set<ItemId>): Board
    requires i < |b.items|
  {
    var item := b.items[i];
    if Due(item, at) && item.id in works
    then Board(b.items[i := Ran(item, at)], b.log + [SentAt(item, at)]) else b
  }

  function Turns(b: Board, n: nat, at: nat, works: set<ItemId>): (r: Board)
    requires n <= |b.items|
    ensures |r.items| == |b.items|
    ensures forall k | n <= k < |b.items| :: r.items[k] == b.items[k]
  {
    if n == 0 then b else Turn(Turns(b, n - 1, at, works), n - 1, at, works)
  }

  function Tick(b: Board, at: nat, works: set<ItemId>): Board {
    Turns(b, |b.items|, at, works)
  }

  function IndexOf(items: seq<Item>, id: ItemId): (i: int)
    ensures -1 <= i < |items|
    ensures i >= 0 ==> items[i].id == id
    ensures i < 0 ==> forall item | item in items :: item.id != id
  {
    if items == [] then -1
    else if items[0].id == id then 0
    else
      var rest := IndexOf(items[1..], id);
      if rest < 0 then -1 else rest + 1
  }

  /** The error of an operation only the author may do. */
  function AuthorError(b: Board, id: ItemId, user: UserId): Option<ScheduleError> {
    var i := IndexOf(b.items, id);
    if i < 0 then Some(NotFound) else if b.items[i].author != user then Some(Forbidden) else None
  }

  function Toggled(b: Board, id: ItemId, user: UserId): Board {
    if AuthorError(b, id, user).Some? then b
    else
      var i := IndexOf(b.items, id);
      var item := b.items[i];
      Board(b.items[i := item.(isActive := !item.isActive)], if item.isActive then b.log else b.log + [Activated(id)])
  }

  function Removed(b: Board, id: ItemId, user: UserId): Board {
    if AuthorError(b, id, user).Some? then b
    else
      var i := IndexOf(b.items, id);
      b.(items := b.items[..i] + b.items[i + 1..])
  }

  function NewItem(id: ItemId, author: UserId, frequency: Frequency, time: string, day: Option<int>): Item {
    Item(id, author, frequency, time, day, None, true)
  }

  datatype Event =
    | TickAt(works: set<ItemId>)
    | Toggle(id: ItemId, user: UserId)
    | Remove(id: ItemId, user: UserId)
    | Create(item: Item)

  datatype Timed = At(event: Event, at: nat)

  function Step(b: Board, t: Timed): Board {
    match t.event
    case TickAt(works) => Tick(b, t.at, works)
    case Toggle(id, user) => Toggled(b, id, user)
    case Remove(id, user) => Removed(b, id, user)
    case Create(item) =>
      b.(items := b.items + [NewItem(item.id, item.author, item.frequency, item.scheduledTime, item.dayOfWeek)])
  }

  function Run(b: Board, events: seq<Timed>): Board
    decreases |events|
  {
    if events == [] then b else Run(Step(b, events[0]), events[1..])
  }

  // ----- What every run keeps ---------------------------------------------------------------------------

  predicate Sends(e: Entry, id: ItemId) {
    e.SentAt? && e.item.id == id
  }

  /** An item remembers its latest send, and an item sent once is off until it is switched on again. */
  ghost predicate Remembers(log: seq<Entry>, item: Item, clock: nat) {
    && (forall i | 0 <= i < |log| && Sends(log[i], item.id) ::
          && log[i].item.frequency == item.frequency
          && item.lastRunAt.Some? && log[i].at <= item.lastRunAt.value <= clock)
    && (item.lastRunAt.Some? ==>
          exists i :: 0 <= i < |log| && Sends(log[i], item.id) && log[i].at == item.lastRunAt.value)
    && (item.frequency.Once? && item.isActive ==>
          forall i | 0 <= i < |log| && Sends(log[i], item.id) :: ReactivatedAfter(log, item.id, i))
  }

  ghost predicate ReactivatedAfter(log: seq<Entry>, id: ItemId, i: nat) {
    exists k :: i < k < |log| && log[k] == Activated(id)
  }

  /** At most one send of an item per clock minute. */
  ghost predicate OncePerMinute(log: seq<Entry>) {
    forall i, j | 0 <= i < j < |log| && log[i].SentAt? && log[j].SentAt? && log[i].item.id == log[j].item.id ::
      Minute(log[i].at) != Minute(log[j].at)
  }

  /** Between two sends of a ONCE item it was switched on. */
  ghost predicate OnceBetweenActivations(log: seq<Entry>) {
    forall i, j | 0 <= i < j < |log| && log[i].SentAt? && log[j].SentAt? &&
      log[i].item.id == log[j].item.id && log[j].item.frequency.Once? ::
      exists k :: i < k < j && log[k] == Activated(log[i].item.id)
  }

  ghost predicate OnTime(log: seq<Entry>) {
    forall e | e in log && e.SentAt? :: Matches(e.item, e.at) && e.item.isActive
  }

  ghost predicate Kept(b: Board, clock: nat) {
    && (forall i, j | 0 <= i < j < |b.items| :: b.items[i].id != b.items[j].id)
    && (forall i | 0 <= i < |b.items| :: Remembers(b.log, b.items[i], clock))
    && OncePerMinute(b.log)
    && OnceBetweenActivations(b.log)
    && OnTime(b.log)
  }

  /** Time does not run backwards and new items have ids never used before. */
  ghost predicate Orderly(b: Board, clock: nat, t: Timed) {
    && clock <= t.at
    && (t.event.Create? ==>
          && (forall item | item in b.items :: item.id != t.event.item.id)
          && (forall e | e in b.log :: !Sends(e, t.event.item.id)))
  }

  ghost predicate OrderlyRun(b: Board, clock: nat, events: seq<Timed>)
    decreases |events|
  {
    events == [] || (Orderly(b, clock, events[0]) && OrderlyRun(Step(b, events[0]), events[0].at, events[1..]))
  }
}
