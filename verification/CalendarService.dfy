/** The calendar service and its availability check. */
module CalendarService {
  import opened Common
  import opened Calendar

  /** The conflicting events in the order the two queries return them: non-recurring ones first. */
  method ConflictingEvents(events: seq<CalendarEvent>, slot: Slot) returns (conflicts: seq<CalendarEvent>)
    ensures forall e :: e in conflicts <==> e in events && Found(e, slot)
  {
    var nonRecurring, recurring := [], [];
    for i := 0 to |events|
      invariant forall e :: e in nonRecurring <==> e in events[..i] && !e.isRecurring && IsLoaded(e, slot)
      invariant forall e :: e in recurring <==>
                  e in events[..i] && e.isRecurring && IsLoaded(e, slot) && OccursInSlot(e, slot)
    {
      var e := events[i];
      assert events[..i + 1] == events[..i] + [e];
      if IsLoaded(e, slot) {
        if !e.isRecurring {
          nonRecurring := nonRecurring + [e];
        } else if e.rule.Some? && e.id in slot.occurring {
          recurring := recurring + [e];
        }
      }
    }
    assert events[..|events|] == events;
    var candidates := nonRecurring + recurring;
    conflicts := [];
    for i := 0 to |candidates|
      invariant forall e :: e in conflicts <==>
                  e in candidates[..i] && PostFilter(e, LoadedAttendees(e, slot.staffIds), slot.staffIds)
    {
      assert candidates[..i + 1] == candidates[..i] + [candidates[i]];
      if PostFilter(candidates[i], LoadedAttendees(candidates[i], slot.staffIds), slot.staffIds) {
        conflicts := conflicts + [candidates[i]];
      }
    }
    assert candidates[..|candidates|] == candidates;
  }

  /** The staff named in the error, or none when the slot is free. */
  method CheckConflict(events: seq<CalendarEvent>, slot: Slot) returns (conflicted: set<UserId>)
    ensures conflicted == Conflicted(events, slot)
    ensures conflicted == {} <==> forall e | e in events :: !Clashes(e, slot)
  {
    forall e | e in events
      ensures Found(e, slot) <==> Clashes(e, slot)
      ensures Found(e, slot) ==>
                forall u :: u in Blamed(e, LoadedAttendees(e, slot.staffIds), slot.staffIds) <==>
                    u in slot.staffIds && Busy(e, u)
    {
      TwoStagesAreExact(e, slot);
    }
    conflicted := {};
    if slot.staffIds == {} {
      return;
    }
    var conflicts := ConflictingEvents(events, slot);
    for i := 0 to |conflicts|
      invariant forall u :: u in conflicted <==> u in slot.staffIds && exists k :: 0 <= k < i && Busy(conflicts[k], u)
    {
      var e := conflicts[i];
      assert e in conflicts;
      conflicted := conflicted + Blamed(e, LoadedAttendees(e, slot.staffIds), slot.staffIds);
    }
    forall u ensures u in conflicted <==> u in Conflicted(events, slot) {
      if u in conflicted {
        var k :| 0 <= k < |conflicts| && Busy(conflicts[k], u);
        assert conflicts[k] in conflicts;
        var i :| 0 <= i < |events| && events[i] == conflicts[k];
      }
      if u in Conflicted(events, slot) {
        var i :| 0 <= i < |events| && Clashes(events[i], slot) && Busy(events[i], u);
        assert events[i] in conflicts;
        var k :| 0 <= k < |conflicts| && conflicts[k] == events[i];
      }
    }
    if e :| e in events && Clashes(e, slot) {
      var u :| u in slot.staffIds && Busy(e, u);
      var i :| 0 <= i < |events| && events[i] == e;
      assert u in Conflicted(events, slot);
    }
  }

  class CalenderService {
    var events: seq<CalendarEvent>

    constructor ()
      ensures events == []
    {
      events := [];
    }

    method Create(request: CreateRequest, creatorId: UserId, newId: EventId, staff: map<UserId, Staff>,
                  occurring: set<EventId>, now: int)
      returns (error: Option<CalendarError>)
      modifies this
      ensures error == CreateError(old(events), staff, request, creatorId, occurring, now)
      ensures events == AfterCreate(old(events), staff, request, creatorId, newId, occurring, now)
    {
      if creatorId !in staff {
        return Some(NotFound);
      }
      var attendees := set a | a in request.attendees && a in staff && !SamePerson(staff, creatorId, a);
      var start, end := request.startTime, request.endTime;
      if request.isRecurring && start / DAY_MILLIS != end / DAY_MILLIS {
        return Some(NotSameDay);
      }
      if start < now {
        return Some(StartInPast);
      }
      if end <= start {
        return Some(EndBeforeStart);
      }
      var checkIds := ToSet(request.attendees);
      var conflicted := CheckConflict(events, Slot(start, end, checkIds, None, occurring));
      if conflicted != {} {
        return Some(ScheduleConflict(conflicted));
      }
      var rule := if request.rule.Some? then Some(Given(request.rule.value)) else None;
      if request.isRecurring && request.frequency.Some? && rule.None? {
        rule := Some(Generated(request.frequency.value));
      }
      events := events + [CalendarEvent(newId, creatorId, attendees, start, end, request.isRecurring, rule,
                                        request.frequency, request.recurrenceEnd)];
      error := None;
    }

    method Update(id: EventId, request: UpdateRequest, userId: UserId, staff: map<UserId, Staff>,
                  occurring: set<EventId>, now: int)
      returns (error: Option<CalendarError>)
      requires HasCreators(events, staff)
      modifies this
      ensures error == UpdateError(old(events), staff, id, request, userId, occurring, now)
      ensures events == AfterUpdate(old(events), staff, id, request, userId, occurring, now)
    {
      var i := IndexOf(events, id);
      if i < 0 {
        return Some(NotFound);
      }
      var event := events[i];
      assert event in events;
      if event.createdBy != userId {
        return Some(Forbidden);
      }
      var start := if request.startTime.Some? then request.startTime.value else event.startTime;
      var end := if request.endTime.Some? then request.endTime.value else event.endTime;
      if request.startTime.Some? && start < now {
        return Some(StartInPast);
      }
      if request.startTime.Some? || request.endTime.Some? {
        if end <= start {
          return Some(EndBeforeStart);
        }
      }
      var attendees := event.attendees;
      if request.attendees.Some? {
        attendees := Invitees(staff, event.createdBy, request.attendees.value);
      }
      var conflicted := CheckConflict(events, Slot(start, end, attendees, Some(id), occurring));
      if conflicted != {} {
        return Some(ScheduleConflict(conflicted));
      }
      var changed := ApplyChanges(staff, event, request, start, end, attendees);
      events := events[i := changed];
      error := None;
    }

    /** Reassigns the fields of the event, times and attendees as already resolved. */
    static method ApplyChanges(ghost staff: map<UserId, Staff>, original: CalendarEvent, request: UpdateRequest,
                               start: int, end: int, attendees: set<UserId>)
      returns (event: CalendarEvent)
      requires original.createdBy in staff
      requires var c := Changed(staff, original, request);
               c.startTime == start && c.endTime == end && c.attendees == attendees
      ensures event == Changed(staff, original, request)
    {
      event := original;
      var rule := event.rule;
      var isRecurring := if request.isRecurring.Some? then request.isRecurring.value else event.isRecurring;
      var frequency := if request.frequency.Some? then request.frequency else event.frequency;
      if isRecurring && frequency.Some? && request.rule.None? {
        rule := Some(Generated(frequency.value));
      } else if request.rule.Some? {
        rule := Some(Given(request.rule.value));
      }
      var recurrenceEnd := event.recurrenceEnd;
      if request.recurrenceEnd.Some? {
        recurrenceEnd := request.recurrenceEnd;
      }
      event := event.(startTime := start, endTime := end);
      event := event.(isRecurring := isRecurring, rule := rule, frequency := frequency, recurrenceEnd := recurrenceEnd);
      event := event.(attendees := attendees);
    }

    method Remove(id: EventId, userId: UserId) returns (error: Option<CalendarError>)
      modifies this
      ensures error == RemoveError(old(events), id, userId)
      ensures events == AfterRemove(old(events), id, userId)
    {
      var i := IndexOf(events, id);
      if i < 0 {
        return Some(NotFound);
      }
      if events[i].createdBy != userId {
        return Some(Forbidden);
      }
      events := events[..i] + events[i + 1..];
      error := None;
    }
  }
}
