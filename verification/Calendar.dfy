/** Booking calendar events, the conflict check, and why attendees are never double-booked. */
module Calendar {
  import opened Common

  type EventId = string

  const DAY_MILLIS := 86_400_000

  /** A staff row; the name is the trimmed lower-case full name, the address is in lower case. */
  datatype Staff = Staff(fullName: string, email: string)

  datatype Frequency = Daily | Weekly | Monthly

  datatype Rule = Given(text: string) | Generated(frequency: Frequency)

  datatype CalendarEvent = CalendarEvent(
    id: EventId, createdBy: UserId, attendees: set<UserId>, startTime: int, endTime: int,
    isRecurring: bool, rule: Option<Rule>, frequency: Option<Frequency>, recurrenceEnd: Option<int>)

  /** A request to create an event; an absent or empty rule text is None. */
  datatype CreateRequest = CreateRequest(
    attendees: seq<UserId>, startTime: int, endTime: int, isRecurring: bool, rule: Option<string>,
    frequency: Option<Frequency>, recurrenceEnd: Option<int>)

  /** A request to change an event: None leaves a field alone. */
  datatype UpdateRequest = UpdateRequest(
    attendees: Option<seq<UserId>>, startTime: Option<int>, endTime: Option<int>, isRecurring: Option<bool>,
    rule: Option<string>, frequency: Option<Frequency>, recurrenceEnd: Option<int>)

  datatype CalendarError =
    | NotFound
    | Forbidden
    | NotSameDay
    | StartInPast
    | EndBeforeStart
    | ScheduleConflict(staff: set<UserId>)

  /** A slot to check, for whom, leaving out one event; `occurring` is what the recurrence library reports. */
  datatype Slot = Slot(startTime: int, endTime: int, staffIds: set<UserId>,
                       exclude: Option<EventId>, occurring: set<EventId>)

  // ----- The conflict check -----------------------------------------------------------------------------

  /** Stage one, the time and exclusion conditions of the two queries. */
  predicate InSlot(e: CalendarEvent, slot: Slot) {
    && slot.exclude != Some(e.id)
    && if e.isRecurring then
         && e.startTime <= slot.endTime
         && (e.recurrenceEnd.None? || e.recurrenceEnd.value >= slot.startTime)
       else e.startTime < slot.endTime && e.endTime > slot.startTime
  }

  /** The attendees a query loads: the joined rows with a wanted attendee, or all rows of a wanted creator. */
  function LoadedAttendees(e: CalendarEvent, staffIds: set<UserId>): set<UserId> {
    set a | a in e.attendees && (a in staffIds || e.createdBy in staffIds)
  }

  /** An event is loaded if a joined row passes; without attendees the join has one row, with no attendee. */
  predicate IsLoaded(e: CalendarEvent, slot: Slot) {
    InSlot(e, slot) &&
    (LoadedAttendees(e, slot.staffIds) != {} || (e.attendees == {} && e.createdBy in slot.staffIds))
  }

  /** Stage two, in memory: a wanted attendee, or no attendees and a wanted creator. */
  predicate PostFilter(e: CalendarEvent, loaded: set<UserId>, staffIds: set<UserId>) {
    (exists a :: a in loaded && a in staffIds) || (loaded == {} && e.createdBy in staffIds)
  }

  predicate OccursInSlot(e: CalendarEvent, slot: Slot) {
    e.isRecurring ==> e.rule.Some? && e.id in slot.occurring
  }

  predicate Found(e: CalendarEvent, slot: Slot) {
    IsLoaded(e, slot) && OccursInSlot(e, slot) && PostFilter(e, LoadedAttendees(e, slot.staffIds), slot.staffIds)
  }

  /** The staff an event is named for in the error. */
  function Blamed(e: CalendarEvent, loaded: set<UserId>, staffIds: set<UserId>): set<UserId> {
    (if loaded == {} && e.createdBy in staffIds then {e.createdBy} else {}) + loaded * staffIds
  }

  /** What the check is for: a busy attendee, or a creator busy with a meeting of their own. */
  predicate Busy(e: CalendarEvent, user: UserId) {
    user in e.attendees || (e.attendees == {} && e.createdBy == user)
  }

  predicate Clashes(e: CalendarEvent, slot: Slot) {
    InSlot(e, slot) && OccursInSlot(e, slot) && exists u :: u in slot.staffIds && Busy(e, u)
  }

  /** The two stages together find exactly the events some wanted person is busy with, and blame exactly them. */
  lemma TwoStagesAreExact(e: CalendarEvent, slot: Slot)
    ensures Found(e, slot) <==> Clashes(e, slot)
    ensures Found(e, slot) ==>
              forall u :: u in Blamed(e, LoadedAttendees(e, slot.staffIds), slot.staffIds) <==>
                  u in slot.staffIds && Busy(e, u)
  {
    var loaded := LoadedAttendees(e, slot.staffIds);
    if Found(e, slot) {
      if a :| a in loaded && a in slot.staffIds {
        assert Busy(e, a);
      } else {
        assert Busy(e, e.createdBy);
      }
      assert loaded == {} ==> e.attendees == {} by {
        if e.createdBy in slot.staffIds {
          assert loaded == e.attendees;
        }
      }
    }
    if Clashes(e, slot) {
      var u :| u in slot.staffIds && Busy(e, u);
      if u in e.attendees {
        assert u in loaded;
      } else {
        assert loaded == {};
      }
    }
  }

  /** Everybody with a clash in the slot; the slot is free when nobody has one. */
  function Conflicted(events: seq<CalendarEvent>, slot: Slot): set<UserId> {
    set u, i | u in slot.staffIds && 0 <= i < |events| && Clashes(events[i], slot) && Busy(events[i], u) :: u
  }

  // ----- Requests ---------------------------------------------------------------------------------------

  function ToSet(ids: seq<UserId>): set<UserId> {
    set id | id in ids
  }

  /** The creator, by id, by name or by address. */
  predicate SamePerson(staff: map<UserId, Staff>, creator: UserId, a: UserId)
    requires creator in staff && a in staff
  {
    || a == creator
    || (staff[a].fullName != "" && staff[creator].fullName != "" && staff[a].fullName == staff[creator].fullName)
    || (staff[a].email != "" && staff[creator].email != "" && staff[a].email == staff[creator].email)
  }

  /** The known staff among the requested attendees, without the creator. */
  function Invitees(staff: map<UserId, Staff>, creator: UserId, requested: seq<UserId>): set<UserId>
    requires creator in staff
  {
    set a | a in requested && a in staff && !SamePerson(staff, creator, a)
  }

  function CreateSlot(request: CreateRequest, occurring: set<EventId>): Slot {
    Slot(request.startTime, request.endTime, ToSet(request.attendees), None, occurring)
  }

  function CreateError(events: seq<CalendarEvent>, staff: map<UserId, Staff>, request: CreateRequest, creator: UserId,
                       occurring: set<EventId>, now: int): Option<CalendarError>
  {
    if creator !in staff then Some(NotFound)
    else if request.isRecurring && request.startTime / DAY_MILLIS != request.endTime / DAY_MILLIS then Some(NotSameDay)
    else if request.startTime < now then Some(StartInPast)
    else if request.endTime <= request.startTime then Some(EndBeforeStart)
    else
      var conflicted := Conflicted(events, CreateSlot(request, occurring));
      if conflicted != {} then Some(ScheduleConflict(conflicted)) else None
  }

  function ToRule(rule: Option<string>, frequency: Option<Frequency>, isRecurring: bool,
                  kept: Option<Rule>): Option<Rule>
  {
    if rule.Some? then Some(Given(rule.value))
    else if isRecurring && frequency.Some? then Some(Generated(frequency.value))
    else kept
  }

  function Created(staff: map<UserId, Staff>, request: CreateRequest, creator: UserId, newId: EventId): CalendarEvent
    requires creator in staff
  {
    CalendarEvent(newId, creator, Invitees(staff, creator, request.attendees), request.startTime, request.endTime,
                  request.isRecurring, ToRule(request.rule, request.frequency, request.isRecurring, None),
                    request.frequency, request.recurrenceEnd)
  }

  function IndexOf(events: seq<CalendarEvent>, id: EventId): (i: int)
    ensures -1 <= i < |events|
    ensures i >= 0 ==> events[i].id == id
    ensures i < 0 ==> forall e | e in events :: e.id != id
  {
    if events == [] then -1
    else if events[0].id == id then 0
    else
      var rest := IndexOf(events[1..], id);
      if rest < 0 then -1 else rest + 1
  }

  function Or<T>(given: Option<T>, kept: T): T {
    if given.Some? then given.value else kept
  }

  /** The event as changed by a request, whether or not the change is allowed. */
  function Changed(staff: map<UserId, Staff>, e: CalendarEvent, request: UpdateRequest): CalendarEvent
    requires e.createdBy in staff
  {
    var recurring := Or(request.isRecurring, e.isRecurring);
    var frequency := if request.frequency.Some? then request.frequency else e.frequency;
    e.(startTime := Or(request.startTime, e.startTime),
       endTime := Or(request.endTime, e.endTime),
       attendees := if request.attendees.Some? then Invitees(staff, e.createdBy, request.attendees.value)
         else e.attendees,
       isRecurring := recurring,
       rule := ToRule(request.rule, frequency, recurring, e.rule),
       frequency := frequency,
       recurrenceEnd := if request.recurrenceEnd.Some? then request.recurrenceEnd else e.recurrenceEnd)
  }

  function ChangeSlot(changed: CalendarEvent, occurring: set<EventId>): Slot {
    Slot(changed.startTime, changed.endTime, changed.attendees, Some(changed.id), occurring)
  }

  /** `staff` still has the creator of every stored event, as the foreign key demands. */
  ghost predicate HasCreators(events: seq<CalendarEvent>, staff: map<UserId, Staff>) {
    forall e | e in events :: e.createdBy in staff
  }

  function UpdateError(events: seq<CalendarEvent>, staff: map<UserId, Staff>, id: EventId,
                       request: UpdateRequest, user: UserId,
                       occurring: set<EventId>, now: int): Option<CalendarError>
    requires HasCreators(events, staff)
  {
    var i := IndexOf(events, id);
    if i < 0 then Some(NotFound)
    else if events[i].createdBy != user then Some(Forbidden)
    else
      assert events[i] in events;
      var changed := Changed(staff, events[i], request);
      if request.startTime.Some? && changed.startTime < now then Some(StartInPast)
      else if (request.startTime.Some? || request.endTime.Some?) && changed.endTime <= changed.startTime
        then Some(EndBeforeStart)
      else
        var conflicted := Conflicted(events, ChangeSlot(changed, occurring));
        if conflicted != {} then Some(ScheduleConflict(conflicted)) else None
  }

  function RemoveError(events: seq<CalendarEvent>, id: EventId, user: UserId): Option<CalendarError> {
    var i := IndexOf(events, id);
    if i < 0 then Some(NotFound) else if events[i].createdBy != user then Some(Forbidden) else None
  }

  // ----- Steps ------------------------------------------------------------------------------------------

  datatype Request =
    | Create(create: CreateRequest, creator: UserId, newId: EventId)
    | Update(id: EventId, update: UpdateRequest, user: UserId)
    | Remove(id: EventId, user: UserId)

  /** A request with what the other tables and the clock say when it is handled. */
  datatype Handled = Handled(request: Request, staff: map<UserId, Staff>, occurring: set<EventId>, now: int)

  function AfterUpdate(events: seq<CalendarEvent>, staff: map<UserId, Staff>, id: EventId,
                       request: UpdateRequest, user: UserId,
                       occurring: set<EventId>, now: int): seq<CalendarEvent>
    requires HasCreators(events, staff)
  {
    if UpdateError(events, staff, id, request, user, occurring, now).Some? then events
    else
      var i := IndexOf(events, id);
      assert events[i] in events;
      events[i := Changed(staff, events[i], request)]
  }

  function AfterRemove(events: seq<CalendarEvent>, id: EventId, user: UserId): seq<CalendarEvent> {
    if RemoveError(events, id, user).Some? then events
    else
      var i := IndexOf(events, id);
      events[..i] + events[i + 1..]
  }

  function AfterCreate(events: seq<CalendarEvent>, staff: map<UserId, Staff>, request: CreateRequest, creator: UserId,
                       newId: EventId, occurring: set<EventId>, now: int): seq<CalendarEvent>
  {
    if CreateError(events, staff, request, creator, occurring, now).Some? then events
    else events + [Created(staff, request, creator, newId)]
  }

  function Step(events: seq<CalendarEvent>, h: Handled): seq<CalendarEvent>
    requires HasCreators(events, h.staff)
  {
    match h.request
    case Create(request, creator, newId) => AfterCreate(events, h.staff, request, creator, newId, h.occurring, h.now)
    case Update(id, request, user) => AfterUpdate(events, h.staff, id, request, user, h.occurring, h.now)
    case Remove(id, user) => AfterRemove(events, id, user)
  }

  /** Every request finds the creators in the staff table, and new events get new ids. */
  ghost predicate Orderly(events: seq<CalendarEvent>, h: Handled) {
    HasCreators(events, h.staff) && (h.request.Create? ==> forall e | e in events :: e.id != h.request.newId)
  }

  ghost predicate OrderlyRun(events: seq<CalendarEvent>, requests: seq<Handled>)
    decreases |requests|
  {
    requests == [] || (Orderly(events, requests[0]) && OrderlyRun(Step(events, requests[0]), requests[1..]))
  }

  function Run(events: seq<CalendarEvent>, requests: seq<Handled>): seq<CalendarEvent>
    requires OrderlyRun(events, requests)
    decreases |requests|
  {
    if requests == [] then events else Run(Step(events, requests[0]), requests[1..])
  }
}
