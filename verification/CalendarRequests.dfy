/** What the calendar promises those who send requests: who is invited, what is refused, and who stays booked. */
module CalendarRequests {
  import opened Common
  import opened Calendar
  import opened CalendarRuns

  // ----- Requests in their own terms ----------------------------------------------------------------------

  /** Known staff who are not the creator and share neither a name nor an address with them. */
  ghost predicate Invitable(staff: map<UserId, Staff>, creator: UserId, a: UserId) {
    && creator in staff && a in staff && a != creator
    && (staff[a].fullName == "" || staff[a].fullName != staff[creator].fullName)
    && (staff[a].email == "" || staff[a].email != staff[creator].email)
  }

  /** An event keeps a user from a slot: one that overlaps it, or a recurring one that may and is said to occur. */
  ghost predicate Takes(f: CalendarEvent, u: UserId, start: int, end: int, occurring: set<EventId>) {
    && (u in f.attendees || (f.attendees == {} && u == f.createdBy))
    && (!f.isRecurring ==> f.startTime < end && start < f.endTime)
    && (f.isRecurring ==>
          && f.startTime <= end && (f.recurrenceEnd.Some? ==> start <= f.recurrenceEnd.value)
          && f.rule.Some? && f.id in occurring)
  }

  function Refusal(events: seq<CalendarEvent>, h: Handled): Option<CalendarError>
    requires HasCreators(events, h.staff)
  {
    match h.request
    case Create(request, creator, _) => CreateError(events, h.staff, request, creator, h.occurring, h.now)
    case Update(id, request, user) => UpdateError(events, h.staff, id, request, user, h.occurring, h.now)
    case Remove(id, user) => RemoveError(events, id, user)
  }

  /** The conflicts reported are those of the wanted staff whom some other event takes. */
  lemma ConflictedExactly(events: seq<CalendarEvent>, slot: Slot, u: UserId)
    ensures u in Conflicted(events, slot) <==>
              u in slot.staffIds &&
              exists f :: f in events && slot.exclude != Some(f.id) &&
                          Takes(f, u, slot.startTime, slot.endTime, slot.occurring)
  {
    if u in Conflicted(events, slot) {
      var i :| 0 <= i < |events| && Clashes(events[i], slot) && Busy(events[i], u);
      assert events[i] in events && Takes(events[i], u, slot.startTime, slot.endTime, slot.occurring);
    }
    if f :| u in slot.staffIds && f in events && slot.exclude != Some(f.id) &&
            Takes(f, u, slot.startTime, slot.endTime, slot.occurring)
    {
      var i :| 0 <= i < |events| && events[i] == f;
      assert Busy(f, u) && Clashes(f, slot);
    }
  }

  // ----- Creating -----------------------------------------------------------------------------------------

  /** The refusals of a creation, in their order; requested people are checked whether or not they are invited. */
  lemma CreateRefusals(events: seq<CalendarEvent>, h: Handled, r: CreateRequest, creator: UserId, newId: EventId)
    requires HasCreators(events, h.staff) && h.request == Create(r, creator, newId)
    ensures var error := Refusal(events, h);
            if creator !in h.staff then error == Some(NotFound)
            else if r.isRecurring && r.startTime / 86_400_000 != r.endTime / 86_400_000 then error == Some(NotSameDay)
            else if r.startTime < h.now then error == Some(StartInPast)
            else if r.endTime <= r.startTime then error == Some(EndBeforeStart)
            else if exists u, f :: u in r.attendees && f in events && Takes(f, u, r.startTime, r.endTime, h.occurring)
            then error.Some? && error.value.ScheduleConflict? && forall u :: u in error.value.staff <==>
                u in r.attendees && exists f :: f in events && Takes(f, u, r.startTime, r.endTime, h.occurring)
            else error == None
    ensures Refusal(events, h).Some? ==> Step(events, h) == events
  {
    var slot := CreateSlot(r, h.occurring);
    forall u ensures u in Conflicted(events, slot) <==>
        u in r.attendees && exists f :: f in events && Takes(f, u, r.startTime, r.endTime, h.occurring)
    {
      ConflictedExactly(events, slot, u);
    }
  }

  /** An accepted creation stores one more event, field by field as requested, with those invitable as attendees. */
  lemma CreateActs(events: seq<CalendarEvent>, h: Handled, r: CreateRequest, creator: UserId, newId: EventId)
    requires HasCreators(events, h.staff) && h.request == Create(r, creator, newId) && Refusal(events, h) == None
    ensures var after := Step(events, h);
            && |after| == |events| + 1 && after[..|events|] == events
            && var e := after[|events|];
               && e.id == newId && e.createdBy == creator && e.startTime == r.startTime && e.endTime == r.endTime
               && (forall a :: a in e.attendees <==> a in r.attendees && Invitable(h.staff, creator, a))
               && e.isRecurring == r.isRecurring && e.frequency == r.frequency && e.recurrenceEnd == r.recurrenceEnd
               && (r.rule.Some? ==> e.rule == Some(Given(r.rule.value)))
               && (r.rule.None? && r.isRecurring && r.frequency.Some? ==> e.rule == Some(Generated(r.frequency.value)))
               && (r.rule.None? && !(r.isRecurring && r.frequency.Some?) ==> e.rule == None)
  {
    assert creator in h.staff;
    var e := Created(h.staff, r, creator, newId);
    assert Step(events, h) == events + [e];
  }

  // ----- Changing -----------------------------------------------------------------------------------------

  /** The times and attendees an event has after a change; only those invitable replace the attendees. */
  ghost predicate Becomes(e: CalendarEvent, r: UpdateRequest, staff: map<UserId, Staff>, d: CalendarEvent) {
    && d.id == e.id && d.createdBy == e.createdBy
    && d.startTime == (if r.startTime.Some? then r.startTime.value else e.startTime)
    && d.endTime == (if r.endTime.Some? then r.endTime.value else e.endTime)
    && (r.attendees.None? ==> d.attendees == e.attendees)
    && (r.attendees.Some? ==>
          forall a :: a in d.attendees <==> a in r.attendees.value && Invitable(staff, e.createdBy, a))
  }

  /** The refusals of a change, in their order; those are checked who attend after it, against all other events. */
  lemma UpdateRefusals(events: seq<CalendarEvent>, h: Handled, e: CalendarEvent, r: UpdateRequest, user: UserId,
                       d: CalendarEvent)
    requires NoDoubleBooking(events) && HasCreators(events, h.staff) && h.request == Update(e.id, r, user)
    requires e in events && Becomes(e, r, h.staff, d)
    ensures var error := Refusal(events, h);
            if user != e.createdBy then error == Some(Forbidden)
            else if r.startTime.Some? && r.startTime.value < h.now then error == Some(StartInPast)
            else if (r.startTime.Some? || r.endTime.Some?) && d.endTime <= d.startTime
            then error == Some(EndBeforeStart)
            else if exists u, f :: u in d.attendees && f in events && f.id != e.id &&
                                   Takes(f, u, d.startTime, d.endTime, h.occurring)
            then error.Some? && error.value.ScheduleConflict? && forall u :: u in error.value.staff <==>
                u in d.attendees && exists f :: f in events && f.id != e.id &&
                                                Takes(f, u, d.startTime, d.endTime, h.occurring)
            else error == None
    ensures Refusal(events, h).Some? ==> Step(events, h) == events
  {
    var i := IndexOf(events, e.id);
    assert events[i] == e;
    var changed := Changed(h.staff, e, r);
    assert changed.attendees == d.attendees;
    var slot := ChangeSlot(changed, h.occurring);
    forall u ensures u in Conflicted(events, slot) <==>
        u in d.attendees && exists f :: f in events && f.id != e.id && Takes(f, u, d.startTime, d.endTime, h.occurring)
    {
      ConflictedExactly(events, slot, u);
    }
  }

  /** An accepted change replaces that event, field by field as requested, and no other. */
  lemma UpdateActs(events: seq<CalendarEvent>, h: Handled, i: nat, r: UpdateRequest, user: UserId)
    requires NoDoubleBooking(events) && HasCreators(events, h.staff) && i < |events|
    requires h.request == Update(events[i].id, r, user) && Refusal(events, h) == None
    ensures var after, e := Step(events, h), events[i];
            && |after| == |events| && (forall k | 0 <= k < |events| && k != i :: after[k] == events[k])
            && var d := after[i];
               && Becomes(e, r, h.staff, d)
               && d.isRecurring == (if r.isRecurring.Some? then r.isRecurring.value else e.isRecurring)
               && d.frequency == (if r.frequency.Some? then r.frequency else e.frequency)
               && d.recurrenceEnd == (if r.recurrenceEnd.Some? then r.recurrenceEnd else e.recurrenceEnd)
               && (r.rule.Some? ==> d.rule == Some(Given(r.rule.value)))
               && (r.rule.None? && d.isRecurring && d.frequency.Some? ==>
                     d.rule == Some(Generated(d.frequency.value)))
               && (r.rule.None? && !(d.isRecurring && d.frequency.Some?) ==> d.rule == e.rule)
  {
    assert events[IndexOf(events, events[i].id)] == events[i] && events[i] in events;
    assert IndexOf(events, events[i].id) == i;
  }

  // ----- Removing -----------------------------------------------------------------------------------------

  /** Only its creator removes an event, and it alone goes; unknown events are neither changed nor removed. */
  lemma RemoveActs(events: seq<CalendarEvent>, h: Handled, id: EventId, user: UserId)
    requires NoDoubleBooking(events) && HasCreators(events, h.staff)
    requires h.request == Remove(id, user)
    ensures (forall e | e in events :: e.id != id) ==> Refusal(events, h) == Some(NotFound)
    ensures forall e | e in events && e.id == id && e.createdBy != user :: Refusal(events, h) == Some(Forbidden)
    ensures forall e | e in events && e.id == id && e.createdBy == user :: Refusal(events, h) == None
    ensures forall e :: e in Step(events, h) <==> e in events && !(e.id == id && e.createdBy == user)
  {
    var i := IndexOf(events, id);
    if i >= 0 {
      assert events[i] in events;
      assert forall e | e in events && e.id == id :: e == events[i];
      if events[i].createdBy == user {
        WithoutAt(events, i);
        assert Step(events, h) == events[..i] + events[i + 1..];
      }
    }
  }

  lemma UnknownIsNotUpdated(events: seq<CalendarEvent>, h: Handled)
    requires HasCreators(events, h.staff) && h.request.Update? && forall e | e in events :: e.id != h.request.id
    ensures Refusal(events, h) == Some(NotFound) && Step(events, h) == events
  {
  }

  // ----- Whoever is booked stays booked -------------------------------------------------------------------

  /** An event as far as others can run into it. */
  datatype Booking = Booking(id: EventId, createdBy: UserId, startTime: int, endTime: int, isRecurring: bool)

  /** The request asks for a user in an event: a new one, or one of the table as it is to be. */
  ghost predicate AsksFor(events: seq<CalendarEvent>, h: Handled, a: UserId, b: Booking) {
    match h.request
    case Create(r, creator, newId) =>
      b == Booking(newId, creator, r.startTime, r.endTime, r.isRecurring) && a in r.attendees
    case Update(id, r, _) =>
      exists e :: e in events && e.id == id &&
        b == Booking(id, e.createdBy,
                     if r.startTime.Some? then r.startTime.value else e.startTime,
                     if r.endTime.Some? then r.endTime.value else e.endTime,
                     if r.isRecurring.Some? then r.isRecurring.value else e.isRecurring) &&
        if r.attendees.Some? then a in r.attendees.value && Invitable(h.staff, e.createdBy, a) else a in e.attendees
    case Remove(_, _) => false
  }

  /** The event is changed or removed by its creator. */
  predicate Touches(h: Handled, b: Booking) {
    match h.request
    case Create(_, _, _) => false
    case Update(id, _, user) => id == b.id && user == b.createdBy
    case Remove(id, user) => id == b.id && user == b.createdBy
  }

  /** The request is refused for nothing but a conflict. */
  ghost predicate Proper(h: Handled, b: Booking) {
    match h.request
    case Create(r, creator, _) =>
      && creator in h.staff && (r.isRecurring ==> r.startTime / 86_400_000 == r.endTime / 86_400_000)
      && h.now <= r.startTime < r.endTime
    case Update(_, r, user) =>
      && user == b.createdBy && (r.startTime.Some? ==> h.now <= r.startTime.value)
      && (r.startTime.Some? || r.endTime.Some? ==> b.startTime < b.endTime)
    case Remove(_, _) => false
  }

  ghost predicate Holds(events: seq<CalendarEvent>, a: UserId, b: Booking) {
    exists e :: e in events && a in e.attendees &&
      b == Booking(e.id, e.createdBy, e.startTime, e.endTime, e.isRecurring)
  }

  /** An accepted request for somebody invitable books them. */
  lemma AskedIsBooked(events: seq<CalendarEvent>, h: Handled, a: UserId, b: Booking)
    requires NoDoubleBooking(events) && Orderly(events, h) && AsksFor(events, h, a, b) && Refusal(events, h) == None
    requires h.request.Create? ==> Invitable(h.staff, b.createdBy, a)
    ensures Holds(Step(events, h), a, b)
  {
    var after := Step(events, h);
    match h.request
    case Create(r, creator, newId) =>
      CreateActs(events, h, r, creator, newId);
      assert after[|events|] in after;
    case Update(id, r, user) =>
      var i := IndexOf(events, id);
      assert events[i] in events && forall e | e in events && e.id == id :: e == events[i];
      UpdateActs(events, h, i, r, user);
      assert after[i] in after;
  }

  /** Whoever holds a booking keeps it when others, or the creator elsewhere, send requests. */
  lemma BookedStays(events: seq<CalendarEvent>, h: Handled, a: UserId, b: Booking)
    requires NoDoubleBooking(events) && Orderly(events, h) && Holds(events, a, b) && !Touches(h, b)
    ensures Holds(Step(events, h), a, b)
  {
    var e :| e in events && a in e.attendees && b == Booking(e.id, e.createdBy, e.startTime, e.endTime, e.isRecurring);
    var k :| 0 <= k < |events| && events[k] == e;
    var after := Step(events, h);
    if Refusal(events, h) == None {
      match h.request
      case Create(r, creator, newId) =>
        CreateActs(events, h, r, creator, newId);
        assert after[k] == after[..|events|][k];
        assert after[k] in after;
      case Update(id, r, user) =>
        var i := IndexOf(events, id);
        UpdateActs(events, h, i, r, user);
        assert i != k && after[k] in after;
      case Remove(id, user) => RemoveActs(events, h, id, user);
    }
  }

  lemma {:induction false} BookedStaysThrough(events: seq<CalendarEvent>, requests: seq<Handled>, a: UserId, b: Booking)
    requires NoDoubleBooking(events) && OrderlyRun(events, requests) && Holds(events, a, b)
    requires forall h | h in requests :: !Touches(h, b)
    ensures Holds(Run(events, requests), a, b)
    decreases |requests|
  {
    if requests != [] {
      BookedStays(events, requests[0], a, b);
      RunKeepsNoDoubleBooking(events, requests[..1]);
      assert Run(events, requests[..1]) == Step(events, requests[0]);
      BookedStaysThrough(Step(events, requests[0]), requests[1..], a, b);
    }
  }

  /** A proper request for somebody in a slot they hold with another event names them in the conflict. */
  lemma HeldIsRefused(events: seq<CalendarEvent>, h: Handled, a: UserId, held: Booking, b: Booking)
    requires NoDoubleBooking(events) && Orderly(events, h) && Holds(events, a, held) && !held.isRecurring
    requires AsksFor(events, h, a, b) && (h.request.Update? ==> b.id != held.id)
    requires held.startTime < b.endTime && b.startTime < held.endTime
    ensures Refusal(events, h).Some? && Step(events, h) == events
    ensures Proper(h, b) ==> Refusal(events, h).value.ScheduleConflict? && a in Refusal(events, h).value.staff
  {
    var f :| f in events && a in f.attendees &&
      held == Booking(f.id, f.createdBy, f.startTime, f.endTime, f.isRecurring);
    match h.request
    case Create(r, creator, newId) =>
      assert Takes(f, a, r.startTime, r.endTime, h.occurring);
      CreateRefusals(events, h, r, creator, newId);
    case Update(id, r, user) =>
      var e :| e in events && e.id == id && b.createdBy == e.createdBy &&
        b.startTime == (if r.startTime.Some? then r.startTime.value else e.startTime) &&
        b.endTime == (if r.endTime.Some? then r.endTime.value else e.endTime) &&
        if r.attendees.Some? then a in r.attendees.value && Invitable(h.staff, e.createdBy, a) else a in e.attendees;
      var d := Changed(h.staff, e, r);
      assert Becomes(e, r, h.staff, d) && Takes(f, a, d.startTime, d.endTime, h.occurring);
      UpdateRefusals(events, h, e, r, user, d);
  }

  /**
   Once a request for an invitable person and a single slot is accepted, and as long as its creator neither
   changes nor removes that event, every later request for the same person in an overlapping slot is refused,
   and names them in the conflict unless it is improper anyway.
   */
  lemma BookedOnce(events: seq<CalendarEvent>, first: Handled, between: seq<Handled>, second: Handled,
                   a: UserId, held: Booking, b: Booking)
    requires NoDoubleBooking(events) && Orderly(events, first) && OrderlyRun(Step(events, first), between)
    requires AsksFor(events, first, a, held) && Refusal(events, first) == None && !held.isRecurring
    requires first.request.Create? ==> Invitable(first.staff, held.createdBy, a)
    requires forall h | h in between :: !Touches(h, held)
    requires var now := Run(Step(events, first), between);
             && Orderly(now, second) && AsksFor(now, second, a, b)
             && (second.request.Update? ==> b.id != held.id)
    requires held.startTime < b.endTime && b.startTime < held.endTime
    ensures var now := Run(Step(events, first), between);
            && Refusal(now, second).Some? && Step(now, second) == now
            && (Proper(second, b) ==>
                  Refusal(now, second).value.ScheduleConflict? && a in Refusal(now, second).value.staff)
  {
    AskedIsBooked(events, first, a, held);
    assert Run(events, [first]) == Step(events, first);
    RunKeepsNoDoubleBooking(events, [first]);
    BookedStaysThrough(Step(events, first), between, a, held);
    RunKeepsNoDoubleBooking(Step(events, first), between);
    HeldIsRefused(Run(Step(events, first), between), second, a, held, b);
  }
}
