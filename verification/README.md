# Staff portal back end: model and proofs

A Dafny model of the stateful parts of a NestJS back end for staff, projects and chat, with proofs of what
they promise. `dafny verify dfyconfig.toml` checks everything.

Every stateful part is built in the same three layers:

- the state as a value, and a step function on it for each operation;
- a class with the fields the source updates, whose methods do what the source's methods do, loops and early
  returns included, and are proved to take exactly the specified step;
- lemmas over whole runs of steps, about the step functions and so about the methods, and lemmas that say what one
  step does to what a user can see (`Acts`, `Refusals`, `IsTold`, `IsTrue` and the like).

| files | part |
|---|---|
| `CallModel`, `CallStore`, `CallService`, `CallGateway` | call signalling: the call table and the gateway's five maps, every handler, the ring timer |
| `CallPresence`, `CallMesh`, `CallLifecycle` | what every run of calls keeps: cache equals table, the peer introductions form a complete mesh, statuses and times |
| `CallStory`, `CallStamps`, `CallOnline` | what the messages of a call tell of its rows, what each handler records and says, and that whoever is present has a socket |
| `CallOverlap`, `CallRaces` | the same handlers split at the service call they await: what overlapping handlers leave, and exactly which may not overtake each other |
| `CallUpdates` | service calls split into reading and writing: exactly which writes take something back |
| `CallPhases`, `CallLostRows` | handlers in three phases: when a service call counts as one step, and what is left of presence when not |
| `CallLate` | who is present according to the messages sent, and accepts that arrive after the end |
| `Sockets`, `Presence`, `PresenceHistory` | which sockets a user has, who is online, what is broadcast |
| `UnreadModel`, `UnreadService`, `UnreadProofs`, `UnreadRuns`, `UnreadMeaning` | messages, read cursors, the four computations of "unread" and how runs move them |
| `DirectMessages` | finding, creating and leaving direct conversations |
| `Scheduler`, `SchedulerRuns`, `SchedulerClock` | scheduled messages, the minute tick, and both by the clock |
| `Calendar`, `CalendarService`, `CalendarRuns`, `CalendarRequests` | booking with the two-stage conflict check, by stored events and by requests |
| `Assignments`, `AssignmentProofs`, `AssignmentSkip` | synchronising a project's staff, and when the skip is sound |
| `Progress`, `ProgressCounts`, `Directory`, `DirectoryShares` | rounded progress and rates, ranges, pages, the workload dashboard, and all of them by the tasks counted |
| `Anniversary` | next and last anniversaries with dates that overflow |
| `Decimal`, `Tickets`, `Common` | ticket references; shared arithmetic and counting |

A call is described by one value, `CallView`: its row, its presence set, the details kept of its participants,
its pending ring timer and every message the server sent about it. The mesh is read off those messages, so it
speaks of what clients were told and not of what the server meant.

Arithmetic is exact: averages and rates are rationals rounded by `floor(x + 1/2)`. Clocks are parameters and
do not go back within a run. New ids (uuids, row ids, socket ids) are parameters that a run never repeats.

## What the code does not promise

Where a natural property fails, the code is modelled as it is and the exact condition is proved.

- An accept keeps presence set and table equal if and only if the user was invited; the service does not ask.
  A decline does so if and only if the user is not in the call (`AcceptKeepsSync`, `DeclineKeepsSync`).
- A second accept introduces the user to themselves, and breaks the mesh every time (`AcceptKeepsMesh`).
- Handlers that finish in another order than they began can lose an accepter from the presence set, or keep one
  who is gone: if and only if one lets in a user whom the other takes out (`OrderMattersExactly`,
  `TwoOverlapExactly`; an instance is `RaceLosesAccepter`). The disconnect loop does its work if and only
  if it finds the user present just when they will be so in the end: it misses one whose accept is half-way
  (`DropSettlesExactly`).
- All of that takes the awaited service call as one step. Service calls of one call that overlap between reading and
  writing a row can take back a final status or a start: if and only if both save the call and one of them accepts,
  two accepts in one instant excepted (`TwoWritesExactly`, `RunEvolvesExactly`). An answered call can so become MISSED,
  and a missed one ACTIVE (`AnswerAndMissOverlap`).
- They can also lose participant rows: if and only if the later one saves the call (`RowLostExactly`). Two invited users
  who accept a ringing call at once so leave the first one in the presence set and INVITED in the table
  (`TwoAcceptsLoseOne`); `BothReadFirstExactly` says for any two handlers when set and table agree. If service calls of
  one call do not overlap, the service call is as good as one step (`PhasesAreHalves`).
- Removing the only user present leaves a call going on with nobody in it, and nothing else does (`AttendedExactly`).
- An accept of an ended call is let in: an ended call is kept empty by a handler if and only if it is not such an
  accept, and exactly the late accepters who have not left are present in it (`LateAcceptExactly`,
  `EndedCallsHoldLateGuests`; a run is `LateAcceptHappens`).
- Skipping the assignment loop when the lists look the same is sound if and only if the project has one row
  per staff member. No index demands that; the loop keeps it (`SkipSoundExactly`, `AssignedUnique`). A failing
  loop keeps what it did before the unknown staff id.
- The next anniversary of somebody hired on 29 February is 1 March of a leap year, a day late, when it is
  computed after 1 March of the year before; the last one drifts likewise (`NextIsFirst`, `LastIsLatest`). The
  years shown beside the next anniversary count the current year before its anniversary (`YearsServed`).
- A direct conversation is left without members if and only if its last member leaves and it cannot be removed:
  read rows refer to it, or, when somebody leaves all of theirs, its last message is referred to
  (`RunStrandsExactly`).
- The conversation found for somebody with themselves is an old one with somebody else if and only if one they
  opened and were left alone in stands before their own (`SelfLookupExactly`; a run is
  `SelfLookupReusesOldConversation`).
- The conflict check counts the creator of a meeting without attendees as busy, but checks nobody when such a
  meeting is booked: its creator, and nobody else, can so be busy twice (`BusyTwiceExactly`, `AloneIsAccepted`).
- From forty tasks on a project can show as COMPLETED with an unfinished one, and above fifty as NOT_STARTED
  with a started one (`FortyIsTight`, `FiftyIsTight`).

## Model

| member | source | states |
|---|---|---|
| CallMesh.RunIsMeshed | src/calls/calls.gateway.ts:226-290 | After every run of connects, disconnects, initiates, accepts, declines, hang-ups, additions, kicks and timeouts in which nobody accepts a call they are already in, exactly one of any two users present in a call was told about the other, links to absent users are gone, and the n users present have n(n-1)/2 links |
| CallMesh.AcceptKeepsMesh | src/calls/calls.gateway.ts:244-284 | Joining extends a complete mesh exactly when the joiner was not already present; a second accept introduces the user to themselves, and only a second accept does |
| CallMesh.LeaveKeepsMesh | src/calls/calls.gateway.ts:422-470 | A hang-up, or the loss of the last socket, leaves a complete mesh among those who stay, and none when the call ends |
| CallMesh.KickKeepsMesh | src/calls/calls.gateway.ts:348-370 | Removing a participant leaves a complete mesh among the others; a refused removal changes nothing |
| CallMesh.InitiateIsMeshed | src/calls/calls.gateway.ts:154-194 | A new call starts with its caller alone and no introductions |
| CallMesh.OneViewIsMeshed | src/calls/calls.gateway.ts:76-476 | Any one event keeps the mesh of any one call, including the calls it does not name |
| CallMesh.TournamentSize | src/calls/calls.gateway.ts:271-277 | Any set of links with exactly one between every two members, and none besides, has as many links as there are pairs |
| CallPresence.RunIsSynced | src/calls/calls.gateway.ts:76-476 | After every run in which accepters are listed and decliners are not in the call, the presence set of every call is exactly the set of users whose row is JOINED, rows stay unique per user, and kept participant details belong to present users |
| CallPresence.AttendedExactly | src/calls/calls.service.ts:222-245 | A handler keeps somebody present in a call that is not over if and only if it does not remove the only user present |
| CallPresence.RunIsAttended | src/calls/calls.gateway.ts:76-476 | After every run in which accepters are listed, decliners are not in the call and no such removal succeeds, each call that is not over has somebody present |
| CallPresence.AcceptKeepsSync | src/calls/calls.service.ts:74-97 | An accept keeps presence set and table equal exactly when the user has a participant row: nothing in the code refuses an uninvited accepter, who is then in the set without a row |
| CallPresence.DeclineKeepsSync | src/calls/calls.service.ts:102-123 | A decline keeps them equal exactly when the user is not present: a decline after joining changes the row and leaves the set |
| CallPresence.LeaveKeepsSync | src/calls/calls.gateway.ts:422-470 | A call ends for everybody exactly when it is direct or nobody else is present; otherwise the leaver alone goes and the set stays non-empty, so the clean-up of an empty set is never reached |
| CallPresence.KickKeepsSync | src/calls/calls.service.ts:222-245 | A removal succeeds exactly when the initiator asks it of a group call for a user who is present, and keeps set and table equal |
| CallPresence.AddKeepsSync | src/calls/calls.service.ts:182-216 | An invitation succeeds exactly when the initiator of a group call asks it for a known user without a row; that user may then accept, and it changes neither who is present nor the uniqueness of rows |
| CallPresence.TimeoutKeepsSync | src/calls/calls.service.ts:250-271 | A ring timeout marks only INVITED rows and so changes nobody's presence |
| CallPresence.InitiateIsSynced | src/calls/calls.service.ts:27-69 | A call of a conversation that lists members once has one row per user and exactly its caller present |
| CallLifecycle.RunIsConsistent | src/calls/calls.service.ts:74-271 | Over every run with a clock that does not go back: the final statuses hold exactly when endedAt is set and are never left, RINGING is never re-entered, startedAt is written at most once, and an ended call that was started lasts the rounded, non-negative seconds from start to end |
| CallLifecycle.AnsweredNeverMissed | src/calls/calls.gateway.ts:196-215 | At any two moments of any run of a fresh server: a call answered at one is not missed at the other, whatever the timer does |
| CallLifecycle.NobodyRingsForever | src/calls/calls.gateway.ts:196-215 | A timeout that fires 30 seconds after creation, or later, leaves no call ringing, whatever happened before |
| CallLifecycle.LeaveIsConsistent | src/calls/calls.service.ts:128-176 | Ending a call sets endedAt and, if it was started, its duration; a call that goes on keeps its times |
| CallLifecycle.HandleIsConsistent | src/calls/calls.service.ts:74-245 | No handler that names a call takes back a status or a time |
| CallLifecycle.TimeoutIsConsistent | src/calls/calls.service.ts:250-271 | A due timeout takes a ringing call to MISSED, leaves any other call as it is, and uses up the timer |
| CallService.CallsService.CreateCall | src/calls/calls.service.ts:27-69 | Unknown caller or conversation: refused and nothing stored; otherwise one row with the caller JOINED and everybody else INVITED |
| CallService.CallsService.AcceptCall | src/calls/calls.service.ts:74-97 | The first accept answers the call; the user's row, if any, becomes JOINED; no other call changes |
| CallService.CallsService.DeclineCall | src/calls/calls.service.ts:102-123 | The user's row becomes DECLINED; a direct call ends as DECLINED |
| CallService.CallsService.EndCall | src/calls/calls.service.ts:128-176 | The user's JOINED row becomes LEFT; a direct call, or one with nobody joined, ends with its duration and hangs everybody up; the result says which happened |
| CallService.CallsService.AddParticipantToCall | src/calls/calls.service.ts:182-216 | Refusals in the order not found, forbidden, bad request, bad request, not found, each changing nothing; otherwise one INVITED row is added |
| CallService.CallsService.RemoveParticipantFromCall | src/calls/calls.service.ts:222-245 | Refusals in order, each changing nothing; otherwise the target's JOINED row becomes LEFT |
| CallService.CallsService.MarkMissed | src/calls/calls.service.ts:250-271 | Only a ringing call becomes MISSED, with its INVITED rows |
| CallService.RemainingIffAny | src/calls/calls.service.ts:146-150 | The count of JOINED rows is zero exactly when nobody is joined |
| CallGateway.CallsGateway.HandleConnection | src/calls/calls.gateway.ts:51-74 | The server takes exactly the connect step; an unverified claim changes nothing |
| CallGateway.CallsGateway.HandleDisconnect | src/calls/calls.gateway.ts:76-123 | The server takes exactly the disconnect step: the loop over the active calls, in any order, takes a user whose last socket closed out of every call they are present in and touches no other call |
| CallGateway.CallsGateway.LeaveEveryCall | src/calls/calls.gateway.ts:86-118 | That loop: every call the user is present in gets the view after their leaving, all others keep theirs |
| CallGateway.CallsGateway.LeaveRoom | src/calls/calls.gateway.ts:426-470 | The in-memory maps after a leave, at this call only |
| CallGateway.CallsGateway.HandleInitiateCall | src/calls/calls.gateway.ts:131-222 | The five maps and the call table after a new call, at its id only: caller present, everybody else rung, ring timer of 30 seconds started; who is rung and what is stored is said by EverybodyElseIsRung and InitiateIsStamped |
| CallGateway.CallsGateway.HandleAcceptCall | src/calls/calls.gateway.ts:226-290 | The maps and the table after an accept: ring timer cleared, existing participants collected before the joiner is added, both notices sent |
| CallGateway.CallsGateway.Admit | src/calls/calls.gateway.ts:245-269 | The joiner is told of everybody present before them, with defaults for missing details, and is then added |
| CallGateway.CallsGateway.ExistingPeers | src/calls/calls.gateway.ts:249-257 | One entry for every user present, in whatever order the set is walked |
| CallGateway.CallsGateway.HandleAddParticipant | src/calls/calls.gateway.ts:294-335 | The maps and the table after an invitation; a refused one changes neither |
| CallGateway.CallsGateway.HandleRemoveParticipant | src/calls/calls.gateway.ts:339-376 | The maps and the table after a removal; a refused one changes neither |
| CallGateway.CallsGateway.HandleDeclineCall | src/calls/calls.gateway.ts:380-410 | The maps and the table after a decline: only that of a direct call clears the ring timer |
| CallGateway.CallsGateway.HandleEndCall | src/calls/calls.gateway.ts:414-476 | The maps and the table after a hang-up: only one that ends the call clears the ring timer |
| CallGateway.CallsGateway.OnRingTimeout | src/calls/calls.gateway.ts:196-215 | The timer's callback: nothing before it is due or after it was cleared; a ringing call is missed and everybody rung is told |
| CallStore.HandledStep | src/calls/calls.gateway.ts:226-476 | Maps and table changed at one call by a handler are the abstract step of the whole server, so what is proved of runs of steps holds of the gateway's methods |
| CallStore.InitiatedStep | src/calls/calls.gateway.ts:131-222 | The same for a new call |
| CallStore.TimedOutStep | src/calls/calls.gateway.ts:196-215 | The same for the ring timer |
| CallStore.PutViewChangesOne | src/calls/calls.gateway.ts:264-268 | Writing one key in each of the five maps changes the view of that call and of no other |
| CallOverlap.OverlapIsWhole | src/calls/calls.gateway.ts:226-476 | With each handler split at the service call it awaits, and the service call as one step: handlers may overlap as they like, also on one call; if those of a call finish in the order they began, every run ends as the run of the same handlers in one piece, views, messages and ring timers included |
| CallOverlap.StepSettles | src/calls/calls.gateway.ts:226-476 | With the service call as one step: in such a run, beginning a handler has its whole effect once all pending halves have run, and finishing one changes nothing that was not already due |
| CallOverlap.DropSettlesExactly | src/calls/calls.gateway.ts:86-118 | The disconnect loop looks at the presence set before it asks the service; it has its whole effect exactly when that look finds the user present just if they will be so once all pending halves have run |
| CallOverlap.TimerInVain | src/calls/calls.gateway.ts:197-213 | A ring timer that comes due while an answer is half-way asks the service in vain: no call answered so is marked as missed |
| CallOverlap.HalvesMakeWhole | src/calls/calls.gateway.ts:226-476 | The two halves of a handler with nothing in between are the handler |
| CallOverlap.WholeIsStep | src/calls/calls.gateway.ts:226-476 | A handler in one piece is the server step for its event |
| CallOverlap.AnyOverlapKeepsMesh | src/calls/calls.gateway.ts:244-284 | The mesh survives any order of the halves in which nobody is let in while present, and nobody into a presence set made anew while the disconnect loop waits holding the dropped one |
| CallOverlap.StaleDropExactly | src/calls/calls.gateway.ts:106-113 | The case so left out, for every call and every set held: finishing on a set made anew, the disconnect loop leaves a complete mesh if and only if the call has ended, or the present set survives and holds the user alone or not at all, or it does not and had no two others |
| CallRaces.OrderMattersExactly | src/calls/calls.gateway.ts:244-284 | The order of any two second halves matters for who is present if and only if one lets in a user whom the other takes out, by leaving, removal or the end of the call |
| CallRaces.TwoOverlapExactly | src/calls/calls.gateway.ts:226-476 | With the service call as one step, for any two handlers of a call, the second of which finishes first: presence set and table agree afterwards if and only if the two do not conflict in that way |
| CallRaces.YieldingRunAgrees | src/calls/calls.gateway.ts:226-476 | With the service call as one step: over every run in which handlers overtake others of the same call only without conflict, all rows, presence sets and ring timers end as those of the same handlers in one piece |
| CallRaces.YieldingRunIsSynced | src/calls/calls.gateway.ts:226-476 | With the service call as one step: in such runs presence set and table agree whenever no handler is half-way, if accepters are listed and decliners not present |
| CallRaces.RaceLosesAccepter | src/calls/calls.gateway.ts:235-263 | A conflict in every call with one user present: hanging up while another accepts leaves the accepter JOINED in the table with nobody present in memory, if the accept finishes first |
| CallUpdates.FitsExactly | src/calls/calls.service.ts:74-271 | A service call that writes the row it read over one that evolved since takes nothing back if and only if it does not save the call, or starts one that still rings, or agrees on when the call started |
| CallUpdates.RunEvolvesExactly | src/calls/calls.service.ts:74-271 | With reading and writing of every service call as separate steps, in any interleaving: no step of a run leaves a final status, rings again or rewrites a start if and only if every write fits in that sense |
| CallUpdates.AloneRunEvolves | src/calls/calls.service.ts:74-271 | If no two service calls of one call overlap between reading and writing, every write fits, and so final statuses are never left, RINGING is never re-entered, startedAt is written once and no call is both answered and missed |
| CallUpdates.TwoWritesExactly | src/calls/calls.service.ts:74-271 | Of two service calls on one call that both read first, the second write takes a status or a start back if and only if both save the call and one of them accepts, two accepts in the same instant excepted |
| CallUpdates.AnswerAndMissOverlap | src/calls/calls.service.ts:250-271 | For every ringing call an accept and the ring timeout that both read first undo each other: MISSED goes back to ACTIVE, or an answered call becomes MISSED without a start, whichever writes last |
| CallUpdates.RowLostExactly | src/calls/calls.service.ts:74-216 | Of two service calls that both read first, a participant row the first one wrote or added, and the second one is not about, is lost if and only if the second one saves the call; it is then as it was read |
| CallUpdates.AloneRunIsAtomic | src/calls/calls.service.ts:74-271 | If no two service calls of one call overlap between reading and writing, the table of every run is that of the operations each in one step, with one row per user |
| CallUpdates.UndisturbedIsAtomic | src/calls/calls.service.ts:74-271 | With one row per user a service call nobody interferes with is the operation in one step |
| CallPhases.PhasesAreHalves | src/calls/calls.gateway.ts:226-476 | With each handler in three phases, reading, writing and the rest: if no two service calls of one call overlap between reading and writing, every run is one in which the service call is one step |
| CallPhases.PhasedRunIsSynced | src/calls/calls.gateway.ts:226-476 | So in every such run in which rests overtake without conflict, and the disconnect loop writes for a user still to be present, presence set and table agree whenever no handler is under way; ring timers need no condition |
| CallPhases.RingLooksRight | src/calls/calls.gateway.ts:197-213 | A ring timer that fired finds when it writes either the call as it was or one that rings no more |
| CallLostRows.BothReadFirstExactly | src/calls/calls.gateway.ts:226-476 | For any two handlers of a call whose service calls both read before either writes, the rests in either order: exactly when presence set and table agree afterwards. In the order of the writes, if and only if the second write loses nothing; in the other order also without conflict, or where a leaver had not seen their own accept |
| CallLostRows.InOrderExactly | src/calls/calls.service.ts:74-271 | What the second write loses: saving the call, everything the first one changed for a user it does not itself let in or take out; saving one row, only a hang-up or decline of the user just let in, or the same invitation twice |
| CallLostRows.TwoAcceptsLoseOne | src/calls/calls.service.ts:74-97 | In every ringing call two invited users who accept at once lose the first one's JOINED row without any conflict: they are in the presence set, and their row is as it was read |
| CallLate.RunIsTold | src/calls/calls.gateway.ts:226-476 | In every run whatsoever the users present in a call are exactly those who entered it according to the messages sent and were not told out since, by leaving, by removal or by the end of the call |
| CallLate.LateAcceptExactly | src/calls/calls.service.ts:74-97 | A handler keeps an ended call without anybody present if and only if it is not an accept of an ended call |
| CallLate.EndedCallsHoldLateGuests | src/calls/calls.service.ts:74-97 | In every run, exactly those are present in an ended call who accepted after its last end and neither left nor were removed since; without such an accept nobody is |
| CallLate.LateAcceptHappens | src/calls/calls.gateway.ts:226-290 | A run, for any two users and sockets, that accepts an ended call, which stays ENDED with the accepter present, and then empties it again by a removal |
| CallStory.RunIsTrue | src/calls/calls.gateway.ts:76-476 | In every run with new call ids and conversations that list members once, the status of every call and of every participant is what the messages sent tell, and every user with a row but the caller was rung exactly once, nobody else ever |
| CallStory.EverybodyElseIsRung | src/calls/calls.gateway.ts:168-186 | Starting a call with distinct members rings everybody but the caller exactly once, and nobody else |
| CallStory.InitiateIsTrue | src/calls/calls.gateway.ts:131-222 | The first messages of a call tell its first rows: the caller joined, everybody else invited |
| CallStory.HandleIsTrue | src/calls/calls.gateway.ts:226-476 | Whatever status a handler writes can be read off the messages it sends |
| CallStory.TimeoutIsTrue | src/calls/calls.gateway.ts:196-215 | So can what a missed call writes |
| CallStamps.HandleIsStamped | src/calls/calls.service.ts:74-245 | Times change only with the status they belong to, and to the moment of the handler: joinedAt, leftAt, startedAt, endedAt; a started call that ends lasts the nearest number of seconds |
| CallStamps.LeaveIsStamped | src/calls/calls.service.ts:128-176 | The same for ending a call, row by row |
| CallStamps.DepartureIsStamped | src/calls/calls.gateway.ts:86-118 | And for a user whose last socket closed |
| CallStamps.TimeoutIsStamped | src/calls/calls.gateway.ts:196-215 | The timer is set to 30000 ms after the start; only when due does it change a call, and only one that rings |
| CallStamps.InitiateIsStamped | src/calls/calls.service.ts:27-69 | A new call rings, is not started, and has the caller JOINED now and everybody else INVITED without times |
| CallStamps.MissedIsTold | src/calls/calls.gateway.ts:196-215 | A missed call tells everybody who was to be rung, once per place in the list, and nobody else |
| CallStamps.RemovalActs | src/calls/calls.gateway.ts:339-376 | A removal the initiator asks of a group call takes a joined user out and tells them and the others by whom; any other one leaves everything as it is |
| CallStamps.InvitationActs | src/calls/calls.gateway.ts:294-335 | An invitation of a known user without a row by the initiator of a group call adds the row, rings them and tells the others; any other one leaves everything as it is |
| CallStamps.DeclineActs | src/calls/calls.gateway.ts:380-410 | A decline tells the call; only that of a direct call ends it and stops its timer |
| CallStamps.LeaveIsTold | src/calls/calls.gateway.ts:422-470 | A leaver is told of, or the end of the call, by whom and after how long |
| CallStamps.JoinerIsTold | src/calls/calls.gateway.ts:245-284 | A joiner is told of each user present before them by first name, last name and picture, an empty picture counting as none and unknown details as empty names |
| CallStamps.DetailsAreKept | src/calls/calls.gateway.ts:264-268 | What a joiner gives is what is known of them from then on, and of nobody else |
| CallStamps.DetailsOfLeavers | src/calls/calls.gateway.ts:455-468 | No details of a leaver are kept, and all of those who stay |
| CallStamps.RoomAfterLeave | src/calls/calls.gateway.ts:443-468 | In any state the presence set and the details are dropped with the end of the call and with the last one present, and otherwise keep everybody but the leaver |
| CallStamps.UnknownIsIgnored | src/calls/calls.gateway.ts:226-232 | Requests from unknown sockets or for unknown calls change nothing |
| CallStamps.InvitationErrors | src/calls/calls.service.ts:182-216 | Which refusal an invitation gets: not the initiator, a direct call, already listed, unknown, in this order |
| CallStamps.RemovalErrors | src/calls/calls.service.ts:222-245 | Which refusal a removal gets, and that no other row changes when there is none |
| CallStamps.HandlerActs | src/calls/calls.gateway.ts:226-476 | A handler acts on the call it names, for the user of its socket, and on no other call |
| CallStamps.ConnectAndInitiateAct | src/calls/calls.gateway.ts:51-222 | A verified socket becomes its user's; a call started from it is stored under its id and everything else stays |
| CallOnline.RunHasSockets | src/calls/calls.gateway.ts:51-123 | In every run whoever is present in a call has a socket open |
| CallOnline.LastSocketLeavesAll | src/calls/calls.gateway.ts:76-123 | When the last socket of a user closes they are present in no call; calls they were not in, and everybody else's sockets, stay as they are |
| CallOnline.LeaverIsGone | src/calls/calls.gateway.ts:422-470 | A leaver is not present afterwards, and everybody else is unless the call ends |
| Sockets.AttachKeepsInverse | src/calls/calls.gateway.ts:63-66 | Connecting keeps the two socket maps inverse exactly when the socket does not already belong to another user |
| Sockets.DetachKeepsInverse | src/calls/calls.gateway.ts:76-83 | Disconnecting keeps them inverse and takes offline exactly the user whose last socket closed |
| Presence.RunIsTruthful | src/chat/gateway/chat.gateway.ts:51-124 | In every run of connects and disconnects the socket maps stay inverse without empty sets, the stored flag of every staff member equals having a socket, and each user's broadcasts alternate online and offline, starting with online |
| Presence.StepIsTruthful | src/chat/gateway/chat.gateway.ts:51-124 | One connect or disconnect keeps all of that |
| Presence.StartIsTruthful | src/chat/gateway/chat.gateway.ts:51-124 | It holds at the start exactly when no stored flag says online |
| Presence.ChatGateway.HandleConnection | src/chat/gateway/chat.gateway.ts:51-103 | The first socket of a user sets the flag and broadcasts; further ones only attach; an unverified claim changes nothing |
| Presence.ChatGateway.HandleDisconnect | src/chat/gateway/chat.gateway.ts:105-124 | The last socket of a user clears the flag and broadcasts; unknown sockets change nothing |
| Presence.ChatGateway.UpdateOnlineStatus | src/staff-register/staff-register.service.ts:663-665 | The column of that staff member only, and of nobody if the id is unknown |
| PresenceHistory.OnlineExactly | src/chat/gateway/chat.gateway.ts:51-124 | After every run from the start a user is online, by the maps, by the stored flag and by the broadcasts, if and only if a connection made as that user has not been closed since |
| PresenceHistory.SocketsAreOpen | src/chat/gateway/chat.gateway.ts:51-124 | A socket is held for a user exactly when it connected as that user, or was there, and has not been closed since |
| PresenceHistory.ConnectActs | src/chat/gateway/chat.gateway.ts:51-103 | A connection adds the socket to its user's and nobody else's; flag and broadcast exactly if it is their first |
| PresenceHistory.DisconnectActs | src/chat/gateway/chat.gateway.ts:105-124 | Closing takes the socket from whoever has it; flag and broadcast exactly if it was their last |
| UnreadProofs.InfoAgrees | src/chat/chat.service.ts:2614-2693 | A message counts as unread for a member exactly when it is not deleted, has a known author and its message info lists the member as not having read it |
| UnreadProofs.CountAgreesWithInfo | src/chat/chat.service.ts:1785-1815 | The per-conversation count is the number of those messages |
| UnreadProofs.JoinIsUnique | src/chat/entities/message-read.entity.ts:18 | With one read row per conversation and user a message joins with at most one row, which holds the user's cursor |
| UnreadProofs.JoinCountsOnce | src/chat/chat.service.ts:1736-1756 | So the left join never counts a message twice, and counts it exactly when it is unread in a conversation of the user |
| UnreadProofs.TotalIsSum | src/chat/chat.service.ts:1722-1760 | The total equals the sum of the per-conversation counts over the user's conversations |
| UnreadProofs.TotalIsSumOfKinds | src/chat/chat.service.ts:2176-2231 | The total equals what the direct, channel, private channel and group views show together |
| UnreadRuns.UnreadConservation | src/chat/chat.service.ts:250-365 | Over every run with increasing message times a count is its start, plus one per send by somebody else, minus one per delete of a message unread for the user, minus the whole count at each of the user's reads |
| UnreadRuns.TotalConservation | src/chat/chat.service.ts:1722-1760 | The same ledger for the total, which moves only with conversations the user is a member of |
| UnreadRuns.SendAddsOne | src/chat/chat.service.ts:309-330 | A send adds exactly 1 to the count of everybody but its sender in that conversation and nothing elsewhere |
| UnreadRuns.SendTotal | src/chat/chat.service.ts:1722-1760 | The total grows by 1 for exactly the other members of the conversation |
| UnreadRuns.DeleteTakesOne | src/chat/chat.service.ts:1312-1357 | A soft delete lowers by 1 exactly the counts of those the message was unread for; a second delete of it changes none |
| UnreadRuns.DeleteTotal | src/chat/chat.service.ts:1312-1357 | The same for the totals, for members only |
| UnreadRuns.ReadClears | src/chat/chat.service.ts:1596-1647 | Marking as read brings that user's count there to 0 and changes no other count |
| UnreadRuns.ReadTotal | src/chat/chat.service.ts:1596-1647 | The user's total drops by exactly the cleared count if they are a member, by nothing otherwise; nobody else's total changes |
| UnreadRuns.ReadMovesCursor | src/chat/chat.service.ts:1596-1647 | The cursor moves to the newest message, for this user and conversation only |
| UnreadRuns.StepKeepsCursor | src/chat/chat.service.ts:1596-1647 | No step loses a cursor or moves it to an earlier time |
| UnreadRuns.RunKeepsSound | src/chat/chat.service.ts:1596-1647 | Over every run ids and read rows stay unique, cursors point to existing messages of their conversation, and none moves back |
| UnreadService.ChatService.SendMessage | src/chat/chat.service.ts:250-365 | Refusals in order, each storing nothing; otherwise one message is appended |
| UnreadService.ChatService.SendChannelMessage | src/chat/chat.service.ts:2233-2326 | The same, and the conversation must be a public channel |
| UnreadService.ChatService.DeleteMessage | src/chat/chat.service.ts:1312-1357 | The message, if found, gets a deletion time; nobody is refused |
| UnreadService.ChatService.MarkConversationAsRead | src/chat/chat.service.ts:1596-1647 | The user's read row there points to the newest message, deleted or not; nothing happens in an empty conversation |
| UnreadService.ChatService.GetUnreadCounts | src/chat/chat.service.ts:1762-1818 | Every conversation of the type that has the user as a member, with the unread count the specification gives |
| UnreadService.ChatService.CountUnread | src/chat/chat.service.ts:1785-1810 | The count query for one conversation, given the cursor read before |
| UnreadService.ChatService.GetMessageInfo | src/chat/chat.service.ts:2614-2693 | The members other than the author, split into those who have and those who have not read |
| UnreadMeaning.CountIsWaiting | src/chat/chat.service.ts:1785-1810 | A count is the number of messages of the conversation by somebody else, not deleted, for which the user's read row stands at no message as new |
| UnreadMeaning.TotalIsWaiting | src/chat/chat.service.ts:1722-1760 | The total is the number of such messages in the conversations the user is a member of |
| UnreadMeaning.InfoIsReading | src/chat/chat.service.ts:2614-2693 | Message info lists a member other than the author as having read it exactly when their read row stands at a message as new |
| UnreadMeaning.SendActs | src/chat/chat.service.ts:250-365 | Unknown sender, missing conversation or channel, no member: refused in this order and nothing changes; otherwise exactly that message is appended |
| UnreadMeaning.DeleteActs | src/chat/chat.service.ts:1312-1357 | Exactly the message of that id gets the deletion time |
| UnreadMeaning.ReadActs | src/chat/chat.service.ts:1596-1647 | Every message of the conversation is then read up to, by a row at one of its messages; no other row changes |
| UnreadMeaning.RunIsByMembers | src/chat/chat.service.ts:250-365 | In every run all messages are by members of their conversations, and none disappears or changes but for its deletion time |
| DirectMessages.RunKeepsTidy | src/chat/chat.service.ts:81-180 | Over every run of find-or-create, leave, send and read steps at most one direct conversation holds any two distinct people and none has more than two members |
| DirectMessages.RunStrandsExactly | src/chat/chat.service.ts:1656-1720 | Throughout a run no direct conversation is without members if and only if in no step the last member leaves one that cannot be removed: one that has been read, or, leaving all, one that has messages |
| DirectMessages.StrandsExactly | src/chat/chat.service.ts:1656-1720 | The same for one step |
| DirectMessages.FindsTheSame | src/chat/chat.service.ts:81-180 | find-or-create of (b, a) after (a, b) returns the same conversation and creates nothing |
| DirectMessages.CreateKeepsTidy | src/chat/chat.service.ts:122-180 | A conversation is created only when no direct conversation holds the two |
| DirectMessages.LeaveAllKeepsTidy | src/chat/chat.service.ts:1686-1720 | Leaving all direct conversations keeps the rest apart |
| DirectMessages.SelfLookupExactly | src/chat/chat.service.ts:91-121 | In every table that runs of find-or-create, leave, send and read steps reach, the conversation answered for (a, a) is new or was opened by a with themselves if and only if no conversation that a opened with somebody who has left it stands before a's own |
| DirectMessages.SelfLookupIsRight | src/chat/chat.service.ts:91-121 | So it is as long as nobody leaves a conversation that a opened with them while a stays |
| DirectMessages.SelfLookupReusesOldConversation | src/chat/chat.service.ts:91-121 | A run that ends otherwise: user 2 leaves the conversation user 1 opened with them, and 1's lookup of themselves answers it |
| DirectMessages.DirectMessageService.FindOrCreateDirectConversation | src/chat/chat.service.ts:81-180 | The conversation found or made, and the table after it |
| DirectMessages.DirectMessageService.DeleteDirectConversation | src/chat/chat.service.ts:1656-1684 | Refusals in order, each changing nothing; otherwise the user leaves, and an empty conversation is removed, unless it has been read, when the removal fails and leaves it empty |
| DirectMessages.DirectMessageService.LeaveAllDMsForUser | src/chat/chat.service.ts:1686-1720 | The table and the failure that LeaveAllActs and LeaveAllClears describe: the user leaves every direct conversation, and those left empty go, up to the first that has messages or readers, where the call fails |
| DirectMessages.LeaveAllActs | src/chat/chat.service.ts:1686-1720 | After leaving all, the user is a member of no direct conversation; every other member keeps all of theirs, other kinds are untouched and nothing else is left; the call fails exactly if the user was alone in one with messages or readers |
| DirectMessages.LeaveAllClears | src/chat/chat.service.ts:1704-1719 | A conversation left empty goes if and only if neither it nor one left empty before it had messages or readers |
| DirectMessages.LeaveErrors | src/chat/chat.service.ts:1656-1672 | Which refusal leaving a conversation gets: missing, not direct, no member; and that it is blocked exactly for the last member of one with readers |
| DirectMessages.LeaveActs | src/chat/chat.service.ts:1673-1684 | Otherwise exactly that conversation loses exactly that member, and goes with its last one unless it has readers |
| DirectMessages.PostActs | src/chat/chat.service.ts:250-365 | A message marks exactly that conversation |
| DirectMessages.ReadingActs | src/chat/chat.service.ts:1596-1647 | So does a reading, if there is anything to read |
| DirectMessages.FindOrCreateActs | src/chat/chat.service.ts:122-180 | Two people get a direct conversation that has both as members if there is one, and otherwise a new one with exactly them; unknown people are refused |
| DirectMessages.FindOrCreateAloneActs | src/chat/chat.service.ts:91-121 | Somebody alone gets one they created and are alone in, or a new one |
| SchedulerRuns.RunKeeps | src/chat/chat.service.ts:2556-2612 | Over every run of ticks, switches, removals and creations, whatever sends fail: an item is sent at most once per clock minute, only while active and matching the tick, and a ONCE item at most once between two activations; RunSendsOnTime says the first part by hour, minute and weekday |
| SchedulerRuns.TickSendsExactlyOnce | src/chat/chat.service.ts:2556-2612 | After a tick in which the send of an active matching item works, exactly one send of it lies in that minute; a failed send leaves the item unchanged |
| SchedulerRuns.TurnsAt | src/chat/chat.service.ts:2566-2610 | A tick treats each item as if it were alone: exactly the due items whose send works are marked as run |
| SchedulerRuns.ToggleKeeps | src/chat/chat.service.ts:2529-2540 | Switching an item on or off keeps the promises of every run |
| SchedulerRuns.RemoveKeeps | src/chat/chat.service.ts:2542-2554 | So does removing it |
| SchedulerRuns.ScheduledMessages.ProcessScheduledMessages | src/chat/chat.service.ts:2556-2612 | The items and sends after the tick are those TickActs describes: exactly the items that are up by the clock are sent |
| SchedulerRuns.ScheduledMessages.ToggleScheduledMessage | src/chat/chat.service.ts:2529-2540 | Not found, or forbidden to others than the author, or switched |
| SchedulerRuns.ScheduledMessages.DeleteScheduledMessage | src/chat/chat.service.ts:2542-2554 | Not found, or forbidden to others than the author, or removed |
| SchedulerRuns.ScheduledMessages.ScheduleMessage | src/chat/chat.service.ts:2490-2519 | Unknown sender or conversation: refused; otherwise a new item that has not run and is active |
| SchedulerClock.RunSendsOnTime | src/chat/chat.service.ts:2556-2612 | Over every run an item is sent only while it is on, when its text reads as the hour and minute of the instant and, if weekly, its day is that of the week, and never twice in a clock minute |
| SchedulerClock.TextIsTime | src/chat/chat.service.ts:2558-2561 | The text items are compared with is the one of five characters that reads as the hour, a colon and the minute of the instant |
| SchedulerClock.TextParses | src/chat/chat.service.ts:2558-2561 | The number before the colon is the hour and the one after it the minute; two instants have the same text if and only if they agree on both |
| SchedulerClock.WeekdayIs | src/chat/chat.service.ts:2562 | The weekday is 4, a Thursday, on day 0 and one more modulo 7 a day later |
| SchedulerClock.MinuteIsDayHourMinute | src/chat/chat.service.ts:2578-2589 | Comparing day, hour and minute is comparing clock minutes |
| SchedulerClock.TickActs | src/chat/chat.service.ts:2556-2612 | A tick sends exactly the items that are on, whose time it is, not yet sent in the minute, and whose send works; they remember the instant, ONCE items are switched off, and all others stay as they are |
| SchedulerClock.OffStaysSilent | src/chat/chat.service.ts:2529-2540 | An item that is off is sent in no run before its author switches it on |
| SchedulerClock.ToggleActs | src/chat/chat.service.ts:2529-2540 | Its author switches exactly that item over |
| SchedulerClock.RemoveActs | src/chat/chat.service.ts:2542-2554 | Its author removes exactly that item |
| SchedulerClock.AuthorOnly | src/chat/chat.service.ts:2529-2554 | Unknown items and other users are refused, and nothing changes |
| CalendarRuns.RunKeepsNoDoubleBooking | src/calender/calender.service.ts:31-391 | After every run of creates, updates and removals two non-recurring events that share a stored attendee have disjoint slots, every event ends after it starts, and no event lists its creator as attendee; BookedOnce says it of requests |
| CalendarRuns.CreateKeeps | src/calender/calender.service.ts:31-162 | An accepted creation keeps that, with the attendees CreateActs says are stored |
| CalendarRuns.UpdateKeeps | src/calender/calender.service.ts:218-369 | An accepted change keeps that, leaving out only the event itself from the check |
| CalendarRuns.RemoveKeeps | src/calender/calender.service.ts:371-391 | A removal keeps that |
| CalendarRuns.BusyTwiceExactly | src/calender/availability.service.ts:72-78 | An event accepted for a free slot keeps somebody busy twice if and only if it has no attendees, its creator was not among those checked and is busy with another event in the slot |
| CalendarRuns.BusyTwiceOnlyAlone | src/calender/availability.service.ts:72-78 | After every run whoever is busy with two overlapping non-recurring events created one of them, which has no attendees |
| CalendarRuns.AloneIsAccepted | src/calender/calender.service.ts:31-162 | A meeting without attendees is accepted in any slot to come, whatever its creator has in it |
| CalendarRuns.FreeSlotIsCompatible | src/calender/availability.service.ts:15-106 | A slot without conflict overlaps no other non-recurring event of any attendee it was checked for |
| Calendar.TwoStagesAreExact | src/calender/availability.service.ts:15-106 | The query conditions together with the filter in memory find exactly the events in the slot that keep a wanted person busy, as attendee or as creator of an event without attendees, and name exactly those persons |
| CalendarService.ConflictingEvents | src/calender/availability.service.ts:24-84 | The list of conflicts holds exactly the events both stages let through |
| CalendarService.CheckConflict | src/calender/availability.service.ts:15-106 | It reports exactly the busy persons, and nobody exactly when no event clashes |
| CalendarService.CalenderService.Create | src/calender/calender.service.ts:31-162 | The first failing condition decides the refusal and nothing is stored; otherwise one event is appended: the conditions are those of CreateRefusals, the event that of CreateActs |
| CalendarService.CalenderService.Update | src/calender/calender.service.ts:218-369 | The same for a change of one event, by UpdateRefusals and UpdateActs |
| CalendarService.CalenderService.Remove | src/calender/calender.service.ts:371-391 | Not found, or forbidden to others than the creator, or removed |
| CalendarRequests.BookedOnce | src/calender/calender.service.ts:31-391 | Once a request for an invitable person and a single slot is accepted, and as long as the creator neither changes nor removes the event, every later creation or change that asks for the same person in an overlapping slot is refused and changes nothing; the conflict names them, unless the request fails an earlier check |
| CalendarRequests.AskedIsBooked | src/calender/calender.service.ts:39-62 | An accepted request for a known person who is not the creator and shares neither name nor address with them stores that person as attendee, at the requested times |
| CalendarRequests.BookedStaysThrough | src/calender/calender.service.ts:218-391 | In every run a booking stays as it is unless its creator changes or removes the event |
| CalendarRequests.HeldIsRefused | src/calender/availability.service.ts:15-106 | A request for somebody in a slot another event holds them in is refused, with them in the conflict |
| CalendarRequests.ConflictedExactly | src/calender/availability.service.ts:15-106 | The conflict names exactly the requested people whom some other event takes, by overlap or by a reported occurrence |
| CalendarRequests.CreateRefusals | src/calender/calender.service.ts:31-99 | The refusals of a creation in their order, with the UTC days of 86400000 ms, and acceptance exactly when none applies |
| CalendarRequests.CreateActs | src/calender/calender.service.ts:39-134 | The event stored, field by field; its attendees are exactly the requested people who may be invited |
| CalendarRequests.UpdateRefusals | src/calender/calender.service.ts:224-288 | The refusals of a change in their order: another user, a start in the past, an end before the start, a conflict of those who attend after it |
| CalendarRequests.UpdateActs | src/calender/calender.service.ts:248-343 | Exactly that event is replaced, field by field as requested, the rest kept |
| CalendarRequests.UnknownIsNotUpdated | src/calender/calender.service.ts:224-226 | A change of an unknown event is refused and nothing changes |
| CalendarRequests.RemoveActs | src/calender/calender.service.ts:371-391 | Exactly that event goes, and only for its creator |
| AssignmentSkip.SkipSoundExactly | src/projects/projects.service.ts:568-593 | Skipping when the lists look the same is sound for every requested list exactly when the project has one row per staff member |
| AssignmentSkip.SkipIsSound | src/projects/projects.service.ts:575-583 | With one row per staff member a list that looks the same is a permutation of the current one, and synchronising with it would change nothing |
| AssignmentSkip.SkipIsUnsound | src/projects/projects.service.ts:575-583 | With two rows of one staff member there is a list that looks the same although synchronising with it changes a row |
| AssignmentSkip.Pigeonhole | src/projects/projects.service.ts:575-583 | Distinct values that all occur in an equally long list are a permutation of it |
| AssignmentSkip.UniqueRowsGiveUniqueStaff | src/projects/projects.service.ts:570-573 | Unique rows in the table give a current list without repeated staff |
| AssignmentProofs.SynchronisedResult | src/projects/projects.service.ts:441-522 | After a synchronisation the project has no row for unlisted staff and, for each listed valid staff id, a row with the role of its last mention, keeping the row it had, and exactly one if rows were unique before; the rows of all other projects are untouched |
| AssignmentProofs.AssignedUnique | src/projects/projects.service.ts:441-522 | One row per project and staff member is kept, also when the call stops half-way |
| AssignmentProofs.SynchronisingTwice | src/projects/projects.service.ts:441-522 | Synchronising again with the same list changes nothing |
| AssignmentProofs.OnlyRolesChange | src/projects/projects.service.ts:478-497 | A list that only mentions staff who have rows adds and removes none: only roles change |
| AssignmentSkip.ProjectsService.AssignMultipleStaff | src/projects/projects.service.ts:441-522 | Refusals before anything is touched; an unknown staff id stops the loop with everything before it kept; otherwise the synchronised table, and one result for each valid entry |
| AssignmentSkip.ProjectsService.RemoveUnlisted | src/projects/projects.service.ts:455-466 | Exactly the project's rows outside the list go, in order |
| AssignmentSkip.ProjectsService.UpdateAssignments | src/projects/projects.service.ts:562-593 | The table after an update is the synchronised one whether or not the loop was skipped |
| AssignmentProofs.PartialResult | src/projects/projects.service.ts:441-522 | The same for a call that fails: staff not listed are gone, those listed before the unknown number have a row with their last role so far, those listed only later are as they were |
| AssignmentProofs.AssignedNumbered | src/projects/projects.service.ts:494-498 | Row ids stay distinct, the sequence moves on once for each new row, and a row with an old id is an old row but for its role |
| AssignmentProofs.NamedAre | src/projects/projects.service.ts:468-500 | The results are for the entries with a valid number, each as often as listed |
| AssignmentProofs.NamedInOrder | src/projects/projects.service.ts:468-500 | And in their order |
| Progress.CompletedBound | src/projects/projects.service.ts:349-386 | A project that shows as COMPLETED has at most one unfinished task in forty |
| Progress.CompletedAgrees | src/task/service/project-completion.service.ts:13-29 | A project with all tasks done shows as COMPLETED; below forty tasks nothing else does |
| Progress.FortyIsTight | src/projects/projects.service.ts:364-383 | For every n from forty on there is a project of n tasks that shows as COMPLETED with one still in testing |
| Progress.CompletedExactly | src/projects/projects.service.ts:364-383 | COMPLETED is shown exactly when the tasks lack at most half a percent on average |
| Progress.NotStartedExactly | src/projects/projects.service.ts:364-383 | NOT_STARTED is shown exactly when the exact average is below one half |
| Progress.NotStartedAgrees | src/projects/projects.service.ts:364-383 | Up to fifty tasks it means that none has started |
| Progress.FiftyIsTight | src/projects/projects.service.ts:364-383 | For every n above fifty there is a project of n tasks that shows as NOT_STARTED with one that failed its test |
| Progress.ProgressMonotone | src/projects/projects.service.ts:361-372 | Raising the progress of one task never lowers that of the project |
| Progress.ProgressInRange | src/projects/projects.service.ts:371-372 | Project progress is between 0 and 100 |
| Progress.ComputeProgress | src/projects/projects.service.ts:222-261 | The accumulator gives the rounded average and the derived status |
| Progress.GetProjectStats | src/projects/projects.service.ts:881-930 | Every project is counted once: the three figures add up to the total |
| ProgressCounts.SumByCounts | src/projects/projects.service.ts:222-232 | The percentages added up: 25, 40, 50, 75, 80 and 100 for the tasks of each status |
| ProgressCounts.StatusByAverage | src/projects/projects.service.ts:234-259 | The progress is within half a percent of the average; the status changes at averages of 0.5, 74.5 and 99.5 |
| ProgressCounts.CompletedByCounts | src/task/service/project-completion.service.ts:13-29 | A project is completed exactly when it has tasks and all are passed, completed in development, or completed |
| Directory.RangesPartition | src/staff-register/staff-register.service.ts:822-845 | The four ranges partition the staff: their totals add up to the unfiltered total |
| Directory.OneRange | src/staff-register/staff-register.service.ts:787-845 | Every rate is an integer from 0 to 100 and lies in exactly one range; which one, by the share of completed tasks, is said by RangeByShare |
| Directory.PagesConcatenate | src/task/task.service.ts:1804-1820 | Pages 1 to the number of pages, one after the other, are exactly the list |
| Directory.PagesArePrefix | src/staff-register/staff-register.service.ts:843-845 | The first k pages are the first k times limit entries |
| Directory.CountTasks | src/staff-register/staff-register.service.ts:764-780 | One pass over the assignments gives every listed staff member their own counts |
| Directory.FilteredDirectory | src/staff-register/staff-register.service.ts:734-853 | The requested page of the staff in a range, and the number of all of them; FilteredByShare, FilteredInOrder and PageIs say who they are |
| Directory.DashboardAddsUp | src/task/task.service.ts:1602-1637 | Active, completed and open tasks add up to the total; the two rates add up to 100, or to 101 exactly when the exact rate ends in one half |
| Directory.SharesAddUp | src/task/task.service.ts:1629-1637 | The rounded shares of a part and of the rest of any whole add up to 100, or to 101 exactly on a half |
| DirectoryShares.RateIsShare | src/staff-register/staff-register.service.ts:781-784 | The rate times the tasks is within half the tasks of 100 times the completed ones; 0 if none and 100 if all are completed |
| DirectoryShares.RateGrows | src/staff-register/staff-register.service.ts:781-784 | It grows with the completed tasks |
| DirectoryShares.RangeByShare | src/staff-register/staff-register.service.ts:822-842 | The range of a staff member by the exact share of their tasks that is finished: below 25.5, 50.5 or 75.5 percent, or from there on |
| DirectoryShares.StatsAreSizes | src/staff-register/staff-register.service.ts:764-776 | The counts behind a rate are those of the assignments with a task, and of those whose task is finished |
| DirectoryShares.FilteredByShare | src/staff-register/staff-register.service.ts:837-842 | The filtered list holds exactly the staff whose share is in the range, each as often as listed |
| DirectoryShares.FilteredInOrder | src/staff-register/staff-register.service.ts:837-842 | And in the order they are listed |
| DirectoryShares.PageListsShare | src/staff-register/staff-register.service.ts:837-845 | Whoever is on a page is listed and has a share in its range |
| DirectoryShares.PageIs | src/task/task.service.ts:1804-1820 | What a page holds, position by position; page 0 is empty and negative pages count from the end |
| DirectoryShares.TotalPagesIsLeast | src/task/task.service.ts:1808 | The number of pages is the least that holds all entries |
| DirectoryShares.DashboardBuckets | src/task/task.service.ts:1602-1627 | Which statuses count as active, as completed and as open |
| DirectoryShares.DashboardRates | src/task/task.service.ts:1629-1637 | Both rates are the shares of completed and of other tasks, to the nearest percent |
| Anniversary.AnniversariesBracketToday | src/staff-register/staff-register.service.ts:1638-1716 | For every hire date and day, last <= today <= next, each within 365 days; the same day exactly when this year's anniversary is today, otherwise 365 or 366 days apart |
| Anniversary.NextIsFirst | src/staff-register/staff-register.service.ts:1646-1657 | The next anniversary shown is the first of all anniversaries from today on, if and only if the hire is not on 29 February seen after 1 March of the year before a leap year |
| Anniversary.LastIsLatest | src/staff-register/staff-register.service.ts:1695-1706 | The last anniversary shown is the latest of all up to today, if and only if the hire is not on 29 February seen before 1 March of the year after a leap year |
| Anniversary.YearsServed | src/staff-register/staff-register.service.ts:1708-1709 | The years beside the last anniversary are the full years served; those beside the next one are one too many exactly while this year's anniversary is ahead |
| Anniversary.NormalisedIsSameDay | src/staff-register/staff-register.service.ts:1646-1650 | A day past the end of a month counts on into the next one: the day number is that of the fields |
| Anniversary.OrderIsDayOrder | src/staff-register/staff-register.service.ts:1651-1655 | Comparing month and day within a year, and years first, orders dates as their day numbers do |
| Anniversary.AnniversaryFields | src/staff-register/staff-register.service.ts:1646-1650 | An anniversary falls in its own year, on the month and day of the hire, except 29 February, which becomes 1 March in other than leap years |
| Anniversary.NextAnniversary | src/staff-register/staff-register.service.ts:1646-1657 | The date the specification calls next, computed by moving the normalised date on |
| Anniversary.LastAnniversary | src/staff-register/staff-register.service.ts:1695-1709 | The date the specification calls last, and its years completed |
| Anniversary.YearStartIs | src/staff-register/staff-register.service.ts:1646-1716 | The days before a year by the Gregorian leap rule in closed form |
| Anniversary.MonthStartIs | src/staff-register/staff-register.service.ts:1646-1716 | The days before a month in closed form |
| Tickets.ReferenceInjective | src/ticketing/ticketing.service.ts:35-39 | Ticket references of different numbers differ, past three digits too |
| Tickets.ReferenceReads | src/ticketing/ticketing.service.ts:35-39 | A reference is TKT- and the number in decimal, with zeros in front up to three digits |
| Tickets.NumberedIsDistinct | src/ticketing/ticketing.service.ts:41-62 | Tickets numbered in order have pairwise distinct references |
| Decimal.PaddedRoundTrip | src/ticketing/ticketing.service.ts:37-38 | A zero-padded decimal reads back as its number |
| Tickets.TicketingService.CreateTicket | src/ticketing/ticketing.service.ts:41-93 | Unknown department: refused and nothing stored; otherwise one ticket with the next reference, different from every earlier one |
| Tickets.TicketingService.GenerateTicketRef | src/ticketing/ticketing.service.ts:35-39 | The reference after the number of tickets there are |

## Left out

- Calls: a write of several rows is one step, and so are the two service calls of the ring timer; initiating a call is not split. Where service calls of one call overlap between reading and writing, `CallLostRows` speaks of two handlers, not of longer runs.
- Interleavings at `await` within the chat, calendar, project and ticket operations: each of these is one atomic step.
- CallOverlap.AnyOverlapKeepsMesh: the disconnect loop keeps working on the presence set it found before it waited; runs are excluded in which, meanwhile, that set is dropped and an accept makes a new one. `StaleDropExactly` says what such a step does to the mesh. The same runs are excluded of CallOverlap.OverlapIsWhole and CallRaces.YieldingRunAgrees.
- Restarts, which empty the maps and timers, and saves that fail after a message was sent.
- Socket rooms: the messages of a call are one log, in sending order; which sockets have joined or left a room (a removed participant's socket stays in it) is not followed. `call:error` replies are not recorded.
- Tokens, mail, push notifications, uploads, web push and logging; a verified token is the parameter `claim`. Lookups in tables a part does not change (staff, departments, conversation members when a call starts) are parameters.
- Texts and names of calls, messages, tickets and events, their attachments, mentions, threads, reactions and pins; conversation names, last-message columns and mute or video toggles; WebRTC relays, which forward without state.
- Recurrence: the rrule library's answer to "does this event occur in the slot" is a parameter, so nothing is claimed of recurring events; rules are opaque, and a CUSTOM frequency is not modelled. Reminder timers and recurrence notifications.
- Staff names in the calendar are taken as already trimmed and in lower case, addresses in lower case; the conflict error lists ids instead of names.
- Membership changes, deletion of conversations and the separate `unreadCount` column of members within runs of messages; thread reads; the older `getTotalUnreadMessagesForUser`, which counts deleted messages too.
- Direct conversations changed by `addMembers`, `createConversation` or `removeConversationMember`. Where the database may return any of several matches, the first in order of creation is taken, and leaving all conversations goes through them in that order. Rows that refer to messages (attachments, reactions, threads) and may keep messages from being deleted.
- What the relation `assignedTo` does when the project is saved after a synchronisation, and the notifications; staff ids of a request that are not whole numbers.
- Other columns of the directory and the dashboard, search filters, the range filter `all`, and pages taken by the database; the sorting and paging of anniversary and birthday lists; the birthdays, which follow the rule of the next anniversary.
- Time zones and daylight saving: one clock in UTC whose day 0 is a Thursday; years 0 to 99, which the `Date` constructor moves to 1900 to 1999.
- `updateProjectOld`, `sendMessages` with its mention handling, other legacy variants, and the plain record keeping of announcements, quotes, documents, departments and permissions.
- CallLifecycle.NobodyRingsForever: says what a timer that fires does; that timers fire is the platform's promise and is not modelled.
- UnreadRuns.UnreadConservation: message times must increase strictly over the run; two messages in the same millisecond can hide each other from a cursor.
- Anniversary.AnniversariesBracketToday: the day must lie after year 1, so that last year exists.
