/** No attendee is double-booked, over every run of the calendar service. */
module CalendarRuns {
  import opened Common
  import opened Calendar

  ghost predicate SharesAttendee(e: CalendarEvent, f: CalendarEvent) {
    exists u :: u in e.attendees && u in f.attendees
  }

  predicate Disjoint(e: CalendarEvent, f: CalendarEvent) {
    e.endTime <= f.startTime || f.endTime <= e.startTime
  }

  ghost predicate Compatible(e: CalendarEvent, f: CalendarEvent) {
    !e.isRecurring && !f.isRecurring && SharesAttendee(e, f) ==> Disjoint(e, f)
  }

  ghost predicate WellFormed(e: CalendarEvent) {
    e.startTime < e.endTime && e.createdBy !in e.attendees
  }

  /** Distinct ids, proper slots without the creator as attendee, and nobody in two places at once. */
  ghost predicate NoDoubleBooking(events: seq<CalendarEvent>) {
    && (forall i, j | 0 <= i < j < |events| :: events[i].id != events[j].id)
    && (forall e | e in events :: WellFormed(e))
    && (forall i, j | 0 <= i < j < |events| :: Compatible(events[i], events[j]))
  }

  /** A free slot is compatible with every other event for those it was checked for. */
  lemma FreeSlotIsCompatible(events: seq<CalendarEvent>, slot: Slot, i: nat, e: CalendarEvent)
    requires i < |events| && Conflicted(events, slot) == {} && slot.exclude != Some(events[i].id)
    requires e.startTime == slot.startTime && e.endTime == slot.endTime && e.attendees <= slot.staffIds
    ensures Compatible(events[i], e) && Compatible(e, events[i])
  {
    var f := events[i];
    if !e.isRecurring && !f.isRecurring && SharesAttendee(e, f) {
      var u :| u in e.attendees && u in f.attendees;
      assert Busy(f, u);
      assert Clashes(f, slot) ==> u in Conflicted(events, slot);
    }
    assert SharesAttendee(f, e) <==> SharesAttendee(e, f);
  }

  lemma CreateKeeps(events: seq<CalendarEvent>, h: Handled)
    requires NoDoubleBooking(events) && Orderly(events, h) && h.request.Create?
    ensures NoDoubleBooking(Step(events, h))
  {
    var request, creator := h.request.create, h.request.creator;
    if CreateError(events, h.staff, request, creator, h.occurring, h.now).None? {
      var slot := CreateSlot(request, h.occurring);
      var e := Created(h.staff, request, creator, h.request.newId);
      forall i | 0 <= i < |events| ensures Compatible(events[i], e) && events[i].id != e.id {
        FreeSlotIsCompatible(events, slot, i, e);
        assert events[i] in events;
      }
    }
  }

  lemma UpdateKeeps(events: seq<CalendarEvent>, h: Handled)
    requires NoDoubleBooking(events) && Orderly(events, h) && h.request.Update?
    ensures NoDoubleBooking(Step(events, h))
  {
    var id, request, user := h.request.id, h.request.update, h.request.user;
    if UpdateError(events, h.staff, id, request, user, h.occurring, h.now).None? {
      var i := IndexOf(events, id);
      assert events[i] in events && WellFormed(events[i]);
      var e := Changed(h.staff, events[i], request);
      var slot := ChangeSlot(e, h.occurring);
      var after := events[i := e];
      forall j | 0 <= j < |events| && j != i ensures Compatible(events[j], e) && Compatible(e, events[j]) {
        FreeSlotIsCompatible(events, slot, j, e);
      }
      forall f | f in after ensures WellFormed(f) {
        assert f == e || f in events;
      }
    }
  }

  lemma RemoveKeeps(events: seq<CalendarEvent>, h: Handled)
    requires NoDoubleBooking(events) && Orderly(events, h) && h.request.Remove?
    ensures NoDoubleBooking(Step(events, h))
  {
    if RemoveError(events, h.request.id, h.request.user).None? {
      var i := IndexOf(events, h.request.id);
      var after := events[..i] + events[i + 1..];
      forall j, k | 0 <= j < k < |after| ensures Compatible(after[j], after[k]) && after[j].id != after[k].id {
        assert after[j] == events[if j < i then j else j + 1];
        assert after[k] == events[if k < i then k else k + 1];
      }
      assert forall e | e in after :: e in events;
    }
  }

  /**
   After every run of creates, updates and removals, two non-recurring events that share an attendee have
   disjoint slots, every event ends after it starts, and no event lists its creator as an attendee.
   */
  lemma {:induction false} RunKeepsNoDoubleBooking(events: seq<CalendarEvent>, requests: seq<Handled>)
    requires NoDoubleBooking(events) && OrderlyRun(events, requests)
    ensures NoDoubleBooking(Run(events, requests))
    decreases |requests|
  {
    if requests != [] {
      match requests[0].request {
        case Create(_, _, _) => CreateKeeps(events, requests[0]);
        case Update(_, _, _) => UpdateKeeps(events, requests[0]);
        case Remove(_, _) => RemoveKeeps(events, requests[0]);
      }
      RunKeepsNoDoubleBooking(Step(events, requests[0]), requests[1..]);
    }
  }

  // ----- Creators of meetings without attendees -----------------------------------------------------------

  /** Somebody is busy with both of two overlapping events, as attendee or with a meeting of their own. */
  ghost predicate BusyTwice(e: CalendarEvent, f: CalendarEvent) {
    !e.isRecurring && !f.isRecurring && !Disjoint(e, f) && exists u :: Busy(e, u) && Busy(f, u)
  }

  /** An event of the table other than the one being changed. */
  predicate Other(events: seq<CalendarEvent>, slot: Slot, i: int) {
    0 <= i < |events| && slot.exclude != Some(events[i].id)
  }

  /**
   An event accepted for a free slot keeps somebody busy twice if and only if it has no attendees, its creator
   was not among those checked, and the creator is busy with another event in the slot.
   */
  lemma BusyTwiceExactly(events: seq<CalendarEvent>, slot: Slot, e: CalendarEvent)
    requires Conflicted(events, slot) == {} && !e.isRecurring && WellFormed(e)
    requires e.startTime == slot.startTime && e.endTime == slot.endTime && e.attendees <= slot.staffIds
    requires forall f | f in events :: WellFormed(f)
    ensures (exists i :: Other(events, slot, i) && BusyTwice(e, events[i])) <==>
              && e.attendees == {} && e.createdBy !in slot.staffIds
              && (exists i ::
                    Other(events, slot, i) && !events[i].isRecurring && !Disjoint(e, events[i]) &&
                    Busy(events[i], e.createdBy))
  {
    forall i | Other(events, slot, i) && BusyTwice(e, events[i])
      ensures e.attendees == {} && e.createdBy !in slot.staffIds && Busy(events[i], e.createdBy)
    {
      var u :| Busy(e, u) && Busy(events[i], u);
      assert events[i] in events;
      assert u in slot.staffIds ==> Clashes(events[i], slot) && u in Conflicted(events, slot);
    }
    forall i | Other(events, slot, i) && !events[i].isRecurring && !Disjoint(e, events[i]) &&
      Busy(events[i], e.createdBy) && e.attendees == {}
      ensures BusyTwice(e, events[i])
    {
      assert Busy(e, e.createdBy);
    }
  }

  /** A meeting without attendees is accepted in any slot to come, whatever its creator has in it. */
  lemma AloneIsAccepted(events: seq<CalendarEvent>, staff: map<UserId, Staff>, request: CreateRequest, creator: UserId,
                        occurring: set<EventId>, now: int)
    requires creator in staff && request.attendees == [] && !request.isRecurring &&
             now <= request.startTime < request.endTime
    ensures CreateError(events, staff, request, creator, occurring, now) == None
  {
  }

  /** After every run whoever is busy twice created one of the two events, which has no attendees. */
  lemma BusyTwiceOnlyAlone(events: seq<CalendarEvent>, requests: seq<Handled>, i: nat, j: nat, user: UserId)
    requires NoDoubleBooking(events) && OrderlyRun(events, requests)
    requires i < j < |Run(events, requests)|
    requires var e, f := Run(events, requests)[i], Run(events, requests)[j];
             !e.isRecurring && !f.isRecurring && !Disjoint(e, f) && Busy(e, user) && Busy(f, user)
    ensures var e, f := Run(events, requests)[i], Run(events, requests)[j];
            (e.attendees == {} && e.createdBy == user) || (f.attendees == {} && f.createdBy == user)
  {
    RunKeepsNoDoubleBooking(events, requests);
    var e, f := Run(events, requests)[i], Run(events, requests)[j];
    assert Compatible(e, f);
    assert user in e.attendees && user in f.attendees ==> SharesAttendee(e, f);
  }
}
