/** The database side of calls: one method per operation of `CallsService`. */
module CallService {
  import opened Common
  import opened CallModel

  class CallsService {
    // The call rows with their participant rows, by call id.
    var calls: map<CallId, Call>

    constructor ()
      ensures calls == map[]
    {
      calls := map[];
    }

    /** `initiator` and `members` are what the staff and conversation tables answered; `callId` is a new uuid. */
    method CreateCall(callId: CallId, initiatorId: UserId, initiator: Option<PeerInfo>, members: Option<seq<UserId>>,
                      scope: CallScope, now: int)
      returns (r: Result<Call, CallError>)
      requires callId !in calls
      modifies this
      ensures initiator.None? || members.None? ==> r == Failure(NotFound) && calls == old(calls)
      ensures initiator.Some? && members.Some? ==>
                && r == Success(NewCall(initiatorId, Callees(members.value, initiatorId), scope, now))
                && calls == old(calls)[callId := r.value]
    {
      if initiator.None? || members.None? {
        return Failure(NotFound);
      }
      var call := Call(scope, initiatorId, now, Ringing, [Participant(initiatorId, Joined, Some(now), None)],
                       None, None, None);
      var otherMembers := Callees(members.value, initiatorId);
      for i := 0 to |otherMembers|
        invariant call == NewCall(initiatorId, otherMembers[..i], scope, now)
      {
        call := call.(participants := call.participants + [InviteRow(otherMembers[i])]);
        assert InviteAll(otherMembers[..i + 1]) == InviteAll(otherMembers[..i]) + [InviteRow(otherMembers[i])];
      }
      assert otherMembers[..|otherMembers|] == otherMembers;
      calls := calls[callId := call];
      r := Success(call);
    }

    method AcceptCall(callId: CallId, userId: UserId, now: int) returns (r: Result<Call, CallError>)
      modifies this
      ensures callId !in old(calls) ==> r == Failure(NotFound) && calls == old(calls)
      ensures callId in old(calls) ==>
                r == Success(AcceptRow(old(calls)[callId], userId, now)) && calls == old(calls)[callId := r.value]
    {
      if callId !in calls {
        return Failure(NotFound);
      }
      var call := calls[callId];
      if call.status.Ringing? {
        call := call.(status := Active, startedAt := Some(now));
        calls := calls[callId := call];
      }
      var i := IndexOf(call.participants, userId);
      if i >= 0 {
        var participant := call.participants[i].(status := Joined, joinedAt := Some(now));
        call := call.(participants := call.participants[i := participant]);
      }
      calls := calls[callId := call];
      r := Success(call);
    }

    method DeclineCall(callId: CallId, userId: UserId, now: int) returns (r: Result<Call, CallError>)
      modifies this
      ensures callId !in old(calls) ==> r == Failure(NotFound) && calls == old(calls)
      ensures callId in old(calls) ==>
                r == Success(DeclineRow(old(calls)[callId], userId, now)) && calls == old(calls)[callId := r.value]
    {
      if callId !in calls {
        return Failure(NotFound);
      }
      var call := calls[callId];
      var i := IndexOf(call.participants, userId);
      if i >= 0 {
        call := call.(participants := call.participants[i := call.participants[i].(status := DeclinedInvite)]);
      }
      if call.scope.DirectCall? {
        call := call.(status := Declined, endedAt := Some(now));
      }
      calls := calls[callId := call];
      r := Success(call);
    }

    /** Leaves the call, ending it for everybody if it is direct or nobody is left; says which happened. */
    method EndCall(callId: CallId, userId: UserId, now: int) returns (r: Result<(Call, bool), CallError>)
      modifies this
      ensures callId !in old(calls) ==> r == Failure(NotFound) && calls == old(calls)
      ensures callId in old(calls) ==>
                && r == Success((EndRow(old(calls)[callId], userId, now), EndsFully(old(calls)[callId], userId, now)))
                && calls == old(calls)[callId := r.value.0]
    {
      if callId !in calls {
        return Failure(NotFound);
      }
      var call := calls[callId];
      var ps := call.participants;
      var leaving := IndexOf(ps, userId);
      if leaving >= 0 && ps[leaving].status.Joined? {
        ps := ps[leaving := ps[leaving].(status := Left, leftAt := Some(now))];
      }
      var remainingCount := Count(ps, (p: Participant) => p.status.Joined?);
      RemainingIffAny(ps);
      if call.scope.DirectCall? || remainingCount == 0 {
        call := call.(status := Ended, endedAt := Some(now));
        if call.startedAt.Some? {
          call := call.(durationSeconds := Some(RoundDiv(now - call.startedAt.value, 1000)));
        }
        var rows := DisconnectEverybody(ps, now);
        call := call.(participants := rows);
        calls := calls[callId := call];
        return Success((call, true));
      }
      call := call.(participants := ps);
      calls := calls[callId := call];
      return Success((call, false));
    }

    /** The loop that marks everybody still in an ended call as gone. */
    static method DisconnectEverybody(ps: seq<Participant>, now: int) returns (rows: seq<Participant>)
      ensures rows == HangUpAll(ps, now)
    {
      rows := ps;
      for i := 0 to |ps|
        invariant |rows| == |ps|
        invariant rows[i..] == ps[i..]
        invariant forall k | 0 <= k < i :: rows[k] == HangUp(ps[k], now)
      {
        assert rows[i] == rows[i..][0] == ps[i..][0];
        if rows[i].status.Joined? {
          rows := rows[i := rows[i].(status := Left, leftAt := Some(now))];
        }
      }
    }

    method AddParticipantToCall(callId: CallId, initiatorId: UserId, targetUserId: UserId, known: bool)
      returns (r: Result<Call, CallError>)
      modifies this
      ensures callId !in old(calls) ==> r == Failure(NotFound) && calls == old(calls)
      ensures callId in old(calls) ==>
                && r == AddRow(old(calls)[callId], initiatorId, targetUserId, known)
                && calls == if r.Success? then old(calls)[callId := r.value] else old(calls)
    {
      if callId !in calls {
        return Failure(NotFound);
      }
      var call := calls[callId];
      if call.initiator != initiatorId {
        return Failure(Forbidden);
      }
      if call.scope != GroupCall {
        return Failure(BadRequest);
      }
      if IndexOf(call.participants, targetUserId) >= 0 {
        return Failure(BadRequest);
      }
      if !known {
        return Failure(NotFound);
      }
      call := call.(participants := call.participants + [InviteRow(targetUserId)]);
      calls := calls[callId := call];
      r := Success(call);
    }

    method RemoveParticipantFromCall(callId: CallId, initiatorId: UserId, targetUserId: UserId, now: int)
      returns (r: Result<Call, CallError>)
      modifies this
      ensures callId !in old(calls) ==> r == Failure(NotFound) && calls == old(calls)
      ensures callId in old(calls) ==>
                && r == KickRow(old(calls)[callId], initiatorId, targetUserId, now)
                && calls == if r.Success? then old(calls)[callId := r.value] else old(calls)
    {
      if callId !in calls {
        return Failure(NotFound);
      }
      var call := calls[callId];
      if call.initiator != initiatorId {
        return Failure(Forbidden);
      }
      if call.scope != GroupCall {
        return Failure(BadRequest);
      }
      var i := JoinedIndexOf(call.participants, targetUserId);
      if i < 0 {
        return Failure(NotFound);
      }
      call := call.(participants := call.participants[i := call.participants[i].(status := Left, leftAt := Some(now))]);
      calls := calls[callId := call];
      r := Success(call);
    }

    method MarkMissed(callId: CallId, now: int) returns (r: Option<Call>)
      modifies this
      ensures callId !in old(calls) ==> r == None && calls == old(calls)
      ensures callId in old(calls) ==>
                r == Some(MissRow(old(calls)[callId], now)) && calls == old(calls)[callId := r.value]
    {
      if callId !in calls {
        return None;
      }
      var call := calls[callId];
      if call.status.Ringing? {
        call := call.(status := Missed, endedAt := Some(now));
        var ps := call.participants;
        var rows := ps;
        for i := 0 to |ps|
          invariant |rows| == |ps|
          invariant rows[i..] == ps[i..]
          invariant forall k | 0 <= k < i :: rows[k] == Miss(ps[k])
        {
          assert rows[i] == rows[i..][0] == ps[i..][0];
          if rows[i].status.Invited? {
            rows := rows[i := rows[i].(status := MissedInvite)];
          }
        }
        assert rows == MissAll(ps);
        call := call.(participants := rows);
      }
      calls := calls[callId := call];
      r := Some(call);
    }
  }

  lemma {:induction false} RemainingIffAny(ps: seq<Participant>)
    ensures Count(ps, (p: Participant) => p.status.Joined?) == 0 <==> !AnyJoined(ps)
  {
    var joined := (p: Participant) => p.status.Joined?;
    if ps != [] {
      var last := |ps| - 1;
      RemainingIffAny(ps[..last]);
      CountSame(ps[..last], joined, (p: Participant) => p.status.Joined?);
      assert ps == ps[..last] + [ps[last]];
    }
  }
}
