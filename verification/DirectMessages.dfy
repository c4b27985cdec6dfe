/** Finding, creating and leaving direct conversations. */
module DirectMessages {
  import opened Common

  type ConversationId = string

  /**
   A conversation with its member rows; the unique index makes the members a set. `peer` is with whom it was
   opened: the creator's own number for one with themselves, which the source marks in the name. Messages, of
   which the conversation refers to the last one, and read rows stand in the way of deleting it.
   */
  datatype Conversation = Conversation(
    id: ConversationId, kind: ConversationType, createdBy: UserId, peer: UserId, members: set<UserId>,
    hasMessages: bool, hasReads: bool)

  datatype DmError = NotFound | BadRequest | Forbidden | Blocked

  // ----- Lookups ----------------------------------------------------------------------------------------

  predicate IsSelf(c: Conversation, a: UserId) {
    c.kind.Direct? && c.createdBy == a && c.members == {a}
  }

  predicate IsBetween(c: Conversation, a: UserId, b: UserId) {
    c.kind.Direct? && a in c.members && b in c.members
  }

  predicate Serves(c: Conversation, a: UserId, b: UserId) {
    if a == b then IsSelf(c, a) else IsBetween(c, a, b)
  }

  /** The position of the first conversation that serves the two users, or -1. */
  function Find(cs: seq<Conversation>, a: UserId, b: UserId): (i: int)
    ensures -1 <= i < |cs|
    ensures i >= 0 ==> Serves(cs[i], a, b) && forall j | 0 <= j < i :: !Serves(cs[j], a, b)
    ensures i < 0 ==> forall c | c in cs :: !Serves(c, a, b)
  {
    if cs == [] then -1
    else if Serves(cs[0], a, b) then 0
    else
      var rest := Find(cs[1..], a, b);
      if rest < 0 then -1 else rest + 1
  }

  function IndexOf(cs: seq<Conversation>, id: ConversationId): (i: int)
    ensures -1 <= i < |cs|
    ensures i >= 0 ==> cs[i].id == id
    ensures i < 0 ==> forall c | c in cs :: c.id != id
  {
    if cs == [] then -1
    else if cs[0].id == id then 0
    else
      var rest := IndexOf(cs[1..], id);
      if rest < 0 then -1 else rest + 1
  }

  // ----- Steps ------------------------------------------------------------------------------------------

  function Opened(id: ConversationId, a: UserId, b: UserId): Conversation {
    Conversation(id, Direct, a, b, {a, b}, false, false)
  }

  /** The answer of find-or-create: the id of the conversation. */
  function FoundOrCreated(cs: seq<Conversation>, staff: set<UserId>, a: UserId, b: UserId, newId: ConversationId)
    : Result<ConversationId, DmError>
  {
    if a !in staff then Failure(NotFound)
    else if Find(cs, a, b) >= 0 then Success(cs[Find(cs, a, b)].id)
    else if b !in staff then Failure(NotFound)
    else Success(newId)
  }

  function AfterFindOrCreate(cs: seq<Conversation>, staff: set<UserId>, a: UserId, b: UserId, newId: ConversationId)
    : seq<Conversation>
  {
    if a !in staff || b !in staff || Find(cs, a, b) >= 0 then cs else cs + [Opened(newId, a, b)]
  }

  function LeaveRefused(cs: seq<Conversation>, id: ConversationId, user: UserId): Option<DmError> {
    var i := IndexOf(cs, id);
    if i < 0 then Some(NotFound)
    else if !cs[i].kind.Direct? then Some(BadRequest)
    else if user !in cs[i].members then Some(Forbidden)
    else None
  }

  /** Refused before anything is touched; or blocked by a foreign key when the member row is already gone. */
  function LeaveError(cs: seq<Conversation>, id: ConversationId, user: UserId): Option<DmError> {
    if LeaveRefused(cs, id, user).Some? then LeaveRefused(cs, id, user)
    else
      var c := cs[IndexOf(cs, id)];
      if c.members - {user} == {} && c.hasReads then Some(Blocked) else None
  }

  /** One member row less; a conversation without members disappears, unless read rows refer to it. */
  function AfterLeave(cs: seq<Conversation>, id: ConversationId, user: UserId): seq<Conversation> {
    if LeaveRefused(cs, id, user).Some? then cs
    else
      var i := IndexOf(cs, id);
      var rest := cs[i].members - {user};
      if rest == {} && !cs[i].hasReads then cs[..i] + cs[i + 1..] else cs[i := cs[i].(members := rest)]
  }

  /** The removal that begins with the messages fails on a message the conversation refers to, or on read rows. */
  predicate Stuck(c: Conversation) {
    c.hasMessages || c.hasReads
  }

  /** A direct conversation with one member. */
  predicate LastIn(c: Conversation, user: UserId) {
    c.kind.Direct? && c.members == {user}
  }

  /** The clean-up loop has met a conversation it cannot remove, and stopped. */
  predicate Halted(cs: seq<Conversation>, user: UserId) {
    exists c :: c in cs && LastIn(c, user) && Stuck(c)
  }

  /** The user leaves every direct conversation; those left empty go until one cannot be removed. */
  function AfterLeaveAll(cs: seq<Conversation>, user: UserId): seq<Conversation> {
    if cs == [] then []
    else
      var front, last := cs[..|cs| - 1], cs[|cs| - 1];
      var before := AfterLeaveAll(front, user);
      if !last.kind.Direct? || user !in last.members then before + [last]
      else if last.members - {user} == {} && !Halted(front, user) && !Stuck(last) then before
      else before + [last.(members := last.members - {user})]
  }

  /** A message is sent, which the conversation then refers to; and somebody reads, if there is anything to read. */
  function AfterPost(cs: seq<Conversation>, id: ConversationId): seq<Conversation> {
    var i := IndexOf(cs, id);
    if i < 0 then cs else cs[i := cs[i].(hasMessages := true)]
  }

  function AfterReading(cs: seq<Conversation>, id: ConversationId): seq<Conversation> {
    var i := IndexOf(cs, id);
    if i < 0 || !cs[i].hasMessages then cs else cs[i := cs[i].(hasReads := true)]
  }

  datatype Event =
    | FindOrCreate(a: UserId, b: UserId, newId: ConversationId)
    | Leave(id: ConversationId, user: UserId)
    | LeaveAll(user: UserId)
    | Post(id: ConversationId)
    | ReadUp(id: ConversationId)

  function Step(cs: seq<Conversation>, staff: set<UserId>, e: Event): seq<Conversation> {
    match e
    case FindOrCreate(a, b, newId) => AfterFindOrCreate(cs, staff, a, b, newId)
    case Leave(id, user) => AfterLeave(cs, id, user)
    case LeaveAll(user) => AfterLeaveAll(cs, user)
    case Post(id) => AfterPost(cs, id)
    case ReadUp(id) => AfterReading(cs, id)
  }

  function Run(cs: seq<Conversation>, staff: set<UserId>, events: seq<Event>): seq<Conversation>
    decreases |events|
  {
    if events == [] then cs else Run(Step(cs, staff, events[0]), staff, events[1..])
  }

  // ----- Invariant --------------------------------------------------------------------------------------

  /** Two conversations are not both a direct conversation of the same two distinct people. */
  ghost predicate Apart(c: Conversation, d: Conversation) {
    c.kind.Direct? && d.kind.Direct? ==>
      forall a, b | a in c.members && b in c.members && a != b :: !(a in d.members && b in d.members)
  }

  ghost predicate Tidy(cs: seq<Conversation>) {
    && (forall i, j | 0 <= i < j < |cs| :: cs[i].id != cs[j].id)
    && (forall i, j | 0 <= i < j < |cs| :: Apart(cs[i], cs[j]))
    && (forall c | c in cs && c.kind.Direct? :: exists a, b :: c.members <= {a, b})
  }

  ghost predicate FreshIds(cs: seq<Conversation>, staff: set<UserId>, events: seq<Event>)
    decreases |events|
  {
    events == [] ||
    ((events[0].FindOrCreate? ==> forall c | c in cs :: c.id != events[0].newId) &&
     FreshIds(Step(cs, staff, events[0]), staff, events[1..]))
  }

  lemma CreateKeepsTidy(cs: seq<Conversation>, staff: set<UserId>, a: UserId, b: UserId, newId: ConversationId)
    requires Tidy(cs) && forall c | c in cs :: c.id != newId
    ensures Tidy(AfterFindOrCreate(cs, staff, a, b, newId))
  {
    var after := AfterFindOrCreate(cs, staff, a, b, newId);
    if after != cs {
      var created := Opened(newId, a, b);
      assert after == cs + [created];
      forall i | 0 <= i < |cs| ensures Apart(cs[i], created) && cs[i].id != newId {
        assert cs[i] in cs;
        assert !Serves(cs[i], a, b);
      }
      assert created.members <= {a, b};
    }
  }

  /** A conversation that keeps its id and kind and gets no new members keeps all apart. */
  lemma ShrinkKeepsTidy(cs: seq<Conversation>, i: nat, d: Conversation)
    requires Tidy(cs) && i < |cs| && Remnant(cs[i], d)
    ensures Tidy(cs[i := d])
  {
    var after := cs[i := d];
    forall j, k | 0 <= j < k < |after| ensures Apart(after[j], after[k]) {
      assert Apart(cs[j], cs[k]);
    }
    forall c | c in after && c.kind.Direct? ensures exists a, b :: c.members <= {a, b} {
      var k :| 0 <= k < |after| && after[k] == c;
      assert cs[k] in cs;
      LeftIsSmall(cs[k], c);
    }
  }

  lemma DropKeepsTidy(cs: seq<Conversation>, i: nat)
    requires Tidy(cs) && i < |cs|
    ensures Tidy(cs[..i] + cs[i + 1..])
  {
    var after := cs[..i] + cs[i + 1..];
    assert forall k | 0 <= k < |after| :: after[k] == if k < i then cs[k] else cs[k + 1];
    assert forall c | c in after :: c in cs;
  }

  /** A conversation that keeps clear of all others can be added. */
  lemma AppendKeepsTidy(cs: seq<Conversation>, d: Conversation)
    requires Tidy(cs)
    requires forall c | c in cs :: c.id != d.id && Apart(c, d)
    requires d.kind.Direct? ==> exists a, b :: d.members <= {a, b}
    ensures Tidy(cs + [d])
  {
    var after := cs + [d];
    assert forall k | 0 <= k < |cs| :: after[k] == cs[k] && cs[k] in cs;
  }

  /** What a conversation can become when a user leaves all of theirs. */
  predicate Remnant(c: Conversation, d: Conversation) {
    d.id == c.id && d.kind == c.kind && d.members <= c.members
  }

  lemma {:induction false} LeaveAllRemnants(cs: seq<Conversation>, user: UserId)
    ensures forall d | d in AfterLeaveAll(cs, user) :: exists c :: c in cs && Remnant(c, d)
  {
    if cs != [] {
      var last := |cs| - 1;
      LeaveAllRemnants(cs[..last], user);
      forall d | d in AfterLeaveAll(cs, user) ensures exists c :: c in cs && Remnant(c, d) {
        if d in AfterLeaveAll(cs[..last], user) {
          var c :| c in cs[..last] && Remnant(c, d);
          assert c in cs;
        } else {
          assert cs[last] in cs && Remnant(cs[last], d);
        }
      }
    }
  }

  lemma FrontIsTidy(cs: seq<Conversation>)
    requires Tidy(cs) && cs != []
    ensures Tidy(cs[..|cs| - 1])
  {
    var front := cs[..|cs| - 1];
    assert forall k | 0 <= k < |front| :: front[k] == cs[k] && cs[k] in cs;
  }

  /** What is left of earlier conversations keeps clear of a later one, whole or with a member less. */
  lemma RemnantsStayApart(cs: seq<Conversation>, user: UserId, d: Conversation, members: set<UserId>)
    requires Tidy(cs) && cs != [] && d in AfterLeaveAll(cs[..|cs| - 1], user) && members <= cs[|cs| - 1].members
    ensures d.id != cs[|cs| - 1].id && Apart(d, cs[|cs| - 1].(members := members))
  {
    var last := |cs| - 1;
    LeaveAllRemnants(cs[..last], user);
    var c :| c in cs[..last] && Remnant(c, d);
    var j :| 0 <= j < last && cs[..last][j] == c;
    assert Apart(cs[j], cs[last]);
  }

  lemma {:induction false} LeaveAllKeepsTidy(cs: seq<Conversation>, user: UserId)
    requires Tidy(cs)
    ensures Tidy(AfterLeaveAll(cs, user))
  {
    if cs != [] {
      var last := cs[|cs| - 1];
      var before := AfterLeaveAll(cs[..|cs| - 1], user);
      var members := if last.kind.Direct? then last.members - {user} else last.members;
      var left := last.(members := members);
      assert Tidy(before) by {
        FrontIsTidy(cs);
        LeaveAllKeepsTidy(cs[..|cs| - 1], user);
      }
      assert last in cs;
      assert user !in last.members ==> last.members - {user} == last.members;
      if AfterLeaveAll(cs, user) != before {
        assert AfterLeaveAll(cs, user) == before + [left];
        forall d | d in before ensures d.id != left.id && Apart(d, left) {
          RemnantsStayApart(cs, user, d, members);
        }
        LeftIsSmall(last, left);
        AppendKeepsTidy(before, left);
      }
    }
  }

  lemma LeftIsSmall(c: Conversation, d: Conversation)
    requires c.kind == d.kind && d.members <= c.members && (c.kind.Direct? ==> exists a, b :: c.members <= {a, b})
    ensures d.kind.Direct? ==> exists a, b :: d.members <= {a, b}
  {
    if c.kind.Direct? {
      var a, b :| c.members <= {a, b};
      assert d.members <= {a, b};
    }
  }

  lemma StepKeepsTidy(cs: seq<Conversation>, staff: set<UserId>, e: Event)
    requires Tidy(cs) && (e.FindOrCreate? ==> forall c | c in cs :: c.id != e.newId)
    ensures Tidy(Step(cs, staff, e))
  {
    match e
    case FindOrCreate(a, b, newId) => CreateKeepsTidy(cs, staff, a, b, newId);
    case Leave(id, user) =>
      if LeaveRefused(cs, id, user).None? {
        var i := IndexOf(cs, id);
        if AfterLeave(cs, id, user) == cs[..i] + cs[i + 1..] {
          DropKeepsTidy(cs, i);
        } else {
          ShrinkKeepsTidy(cs, i, cs[i].(members := cs[i].members - {user}));
        }
      }
    case LeaveAll(user) => LeaveAllKeepsTidy(cs, user);
    case Post(id) =>
      if IndexOf(cs, id) >= 0 {
        ShrinkKeepsTidy(cs, IndexOf(cs, id), cs[IndexOf(cs, id)].(hasMessages := true));
      }
    case ReadUp(id) =>
      if IndexOf(cs, id) >= 0 {
        ShrinkKeepsTidy(cs, IndexOf(cs, id), cs[IndexOf(cs, id)].(hasReads := true));
      }
  }

  /**
   Over every run of find-or-create, leave, send and read steps, at most one direct conversation holds any two
   distinct people and none has more than two members.
   */
  lemma {:induction false} RunKeepsTidy(cs: seq<Conversation>, staff: set<UserId>, events: seq<Event>)
    requires Tidy(cs) && FreshIds(cs, staff, events)
    ensures Tidy(Run(cs, staff, events))
    decreases |events|
  {
    if events != [] {
      StepKeepsTidy(cs, staff, events[0]);
      RunKeepsTidy(Step(cs, staff, events[0]), staff, events[1..]);
    }
  }

  // ----- Conversations without members --------------------------------------------------------------------

  ghost predicate NoneEmpty(cs: seq<Conversation>) {
    forall c | c in cs && c.kind.Direct? :: c.members != {}
  }

  /** The last member leaves a conversation that cannot be removed. */
  ghost predicate Strands(cs: seq<Conversation>, e: Event) {
    match e
    case Leave(id, user) => exists c :: c in cs && c.id == id && LastIn(c, user) && c.hasReads
    case LeaveAll(user) => Halted(cs, user)
    case _ => false
  }

  lemma {:induction false} LeaveAllEmpties(cs: seq<Conversation>, user: UserId)
    requires NoneEmpty(cs)
    ensures NoneEmpty(AfterLeaveAll(cs, user)) <==> !Halted(cs, user)
  {
    if cs != [] {
      var front, last := cs[..|cs| - 1], cs[|cs| - 1];
      assert forall c :: c in cs <==> c in front || c == last;
      LeaveAllEmpties(front, user);
      var before, after := AfterLeaveAll(front, user), AfterLeaveAll(cs, user);
      assert last.kind.Direct? ==> (last.members - {user} == {} && user in last.members <==> LastIn(last, user));
      if after == before {
        assert LastIn(last, user) && !Stuck(last);
      } else {
        assert after[..|before|] == before;
        assert forall c :: c in after <==> c in before || c == after[|before|];
      }
    }
  }

  /** A step leaves a direct conversation without members if and only if it strands one. */
  lemma StrandsExactly(cs: seq<Conversation>, staff: set<UserId>, e: Event)
    requires Tidy(cs) && NoneEmpty(cs)
    ensures NoneEmpty(Step(cs, staff, e)) <==> !Strands(cs, e)
  {
    match e
    case FindOrCreate(_, _, _) =>
    case Leave(id, user) => LeaveStrandsExactly(cs, id, user);
    case LeaveAll(user) => LeaveAllEmpties(cs, user);
    case Post(_) =>
    case ReadUp(_) =>
  }

  lemma LeaveStrandsExactly(cs: seq<Conversation>, id: ConversationId, user: UserId)
    requires Tidy(cs) && NoneEmpty(cs)
    ensures NoneEmpty(AfterLeave(cs, id, user)) <==> !Strands(cs, Leave(id, user))
  {
    var i := IndexOf(cs, id);
    if i >= 0 {
      var after := AfterLeave(cs, id, user);
      assert cs[i] in cs;
      assert forall c | c in cs && c.id == id :: c == cs[i];
      if LeaveRefused(cs, id, user).None? {
        assert cs[i].members - {user} == {} <==> LastIn(cs[i], user);
        if LastIn(cs[i], user) && cs[i].hasReads {
          assert after[i].members == {};
          assert after[i] in after;
        }
      }
    }
  }

  ghost predicate StrandsNone(cs: seq<Conversation>, staff: set<UserId>, events: seq<Event>)
    decreases |events|
  {
    events == [] || (!Strands(cs, events[0]) && StrandsNone(Step(cs, staff, events[0]), staff, events[1..]))
  }

  ghost predicate NeverEmpty(cs: seq<Conversation>, staff: set<UserId>, events: seq<Event>)
    decreases |events|
  {
    NoneEmpty(cs) && (events == [] || NeverEmpty(Step(cs, staff, events[0]), staff, events[1..]))
  }

  /** Throughout a run no direct conversation is without members if and only if no step of it strands one. */
  lemma {:induction false} RunStrandsExactly(cs: seq<Conversation>, staff: set<UserId>, events: seq<Event>)
    requires Tidy(cs) && NoneEmpty(cs) && FreshIds(cs, staff, events)
    ensures NeverEmpty(cs, staff, events) <==> StrandsNone(cs, staff, events)
    decreases |events|
  {
    if events != [] {
      var next := Step(cs, staff, events[0]);
      StepKeepsTidy(cs, staff, events[0]);
      StrandsExactly(cs, staff, events[0]);
      if NoneEmpty(next) {
        RunStrandsExactly(next, staff, events[1..]);
      } else {
        assert !NeverEmpty(next, staff, events[1..]);
      }
    }
  }

  /** Once two people have a conversation, either of them finds the same one, and finding creates nothing. */
  lemma FindsTheSame(cs: seq<Conversation>, staff: set<UserId>, a: UserId, b: UserId,
                     id: ConversationId, otherId: ConversationId)
    requires Tidy(cs) && (forall c | c in cs :: c.id != id) && a in staff && b in staff
    ensures var after := AfterFindOrCreate(cs, staff, a, b, id);
            && FoundOrCreated(cs, staff, a, b, id).Success?
            && FoundOrCreated(after, staff, b, a, otherId) == FoundOrCreated(cs, staff, a, b, id)
            && AfterFindOrCreate(after, staff, b, a, otherId) == after
  {
    var after := AfterFindOrCreate(cs, staff, a, b, id);
    CreateKeepsTidy(cs, staff, a, b, id);
    var i := if Find(cs, a, b) >= 0 then Find(cs, a, b) else |cs|;
    assert Serves(after[i], a, b) && Serves(after[i], b, a);
    assert after[i] in after;
    var j := Find(after, b, a);
    assert j >= 0 && Serves(after[j], b, a);
    forall k | 0 <= k < |cs| && Serves(cs[k], b, a) ensures i <= k {
      assert cs[k] in cs && Serves(cs[k], a, b);
    }
  }

  // ----- What each step does ------------------------------------------------------------------------------

  /** Whatever is left after leaving all was there before; a direct conversation is left without the user. */
  lemma {:induction false} LeaveAllOrigin(cs: seq<Conversation>, user: UserId, d: Conversation)
    requires d in AfterLeaveAll(cs, user)
    ensures exists c :: c in cs && d == if c.kind == Direct then c.(members := c.members - {user}) else c
  {
    var front, last := cs[..|cs| - 1], cs[|cs| - 1];
    if d in AfterLeaveAll(front, user) {
      LeaveAllOrigin(front, user, d);
      var c :| c in front && d == if c.kind == Direct then c.(members := c.members - {user}) else c;
      assert c in cs;
    } else {
      assert last.kind == Direct && user !in last.members ==> last.members - {user} == last.members;
      assert last in cs && d == if last.kind == Direct then last.(members := last.members - {user}) else last;
    }
  }

  /** A conversation the user is not in stays as it is, and so does one of another kind. */
  lemma {:induction false} LeaveAllSpares(cs: seq<Conversation>, user: UserId, c: Conversation)
    requires c in cs && (c.kind != Direct || user !in c.members)
    ensures c in AfterLeaveAll(cs, user)
  {
    if c in cs[..|cs| - 1] {
      LeaveAllSpares(cs[..|cs| - 1], user, c);
    }
  }

  /** A direct conversation with somebody else in it loses the user and nobody else. */
  lemma {:induction false} LeaveAllShrinks(cs: seq<Conversation>, user: UserId, c: Conversation, other: UserId)
    requires c in cs && c.kind == Direct && other in c.members && other != user
    ensures c.(members := c.members - {user}) in AfterLeaveAll(cs, user)
  {
    var left := c.(members := c.members - {user});
    if c in cs[..|cs| - 1] {
      LeaveAllShrinks(cs[..|cs| - 1], user, c, other);
    } else {
      assert other in left.members;
      assert user !in c.members ==> left == c;
    }
  }

  /**
   After leaving all, the user is a member of no direct conversation; every other member keeps every conversation
   they were in, other kinds are untouched, and nothing else is left.
   */
  lemma LeaveAllActs(cs: seq<Conversation>, user: UserId)
    ensures var after := AfterLeaveAll(cs, user);
            && (forall d | d in after && d.kind == Direct :: user !in d.members)
            && (forall c | c in cs && (c.kind != Direct || user !in c.members) :: c in after)
            && (forall c, other | c in cs && c.kind == Direct && other in c.members && other != user ::
                  c.(members := c.members - {user}) in after)
            && (forall d | d in after ::
                  exists c :: c in cs && d == if c.kind == Direct then c.(members := c.members - {user}) else c)
    ensures Halted(cs, user) <==>
              exists c :: c in cs && c.kind == Direct && c.members == {user} && (c.hasMessages || c.hasReads)
  {
    var after := AfterLeaveAll(cs, user);
    if Halted(cs, user) {
      var c :| c in cs && LastIn(c, user) && Stuck(c);
      assert c.kind == Direct;
    }
    forall d | d in after
      ensures exists c :: c in cs && d == if c.kind == Direct then c.(members := c.members - {user}) else c
    {
      LeaveAllOrigin(cs, user, d);
    }
    forall c | c in cs && (c.kind != Direct || user !in c.members) ensures c in after {
      LeaveAllSpares(cs, user, c);
    }
    forall c, other | c in cs && c.kind == Direct && other in c.members && other != user
      ensures c.(members := c.members - {user}) in after
    {
      LeaveAllShrinks(cs, user, c, other);
    }
  }

  /** The call has stopped at one of the first k conversations. */
  lemma HaltedWithin(cs: seq<Conversation>, user: UserId, k: nat)
    requires k <= |cs|
    ensures Halted(cs[..k], user) <==>
              exists j :: 0 <= j < k && cs[j].kind == Direct && cs[j].members == {user} &&
                          (cs[j].hasMessages || cs[j].hasReads)
  {
    assert forall j | 0 <= j < k :: cs[..k][j] == cs[j];
    if c :| c in cs[..k] && LastIn(c, user) && Stuck(c) {
      var j :| 0 <= j < k && cs[..k][j] == c;
      assert cs[j].kind == Direct;
    }
    if j :| 0 <= j < k && cs[j].kind == Direct && cs[j].members == {user} && (cs[j].hasMessages || cs[j].hasReads) {
      assert cs[..k][j] in cs[..k];
    }
  }

  lemma LastClears(cs: seq<Conversation>, user: UserId)
    requires Tidy(cs) && cs != [] && LastIn(cs[|cs| - 1], user)
    ensures cs[|cs| - 1].(members := {}) in AfterLeaveAll(cs, user) <==> Halted(cs, user)
  {
    var front, last := cs[..|cs| - 1], cs[|cs| - 1];
    if last.(members := {}) in AfterLeaveAll(front, user) {
      LeaveAllOrigin(front, user, last.(members := {}));
    }
    assert last.(members := {}) !in AfterLeaveAll(front, user) && last.members - {user} == {};
    assert forall c :: c in cs <==> c in front || c == last;
  }

  /** A conversation left empty goes, unless it or one left empty before it had messages or readers. */
  lemma {:induction false} LeaveAllClears(cs: seq<Conversation>, user: UserId, k: nat)
    requires Tidy(cs) && k < |cs| && cs[k].kind == Direct && cs[k].members == {user}
    ensures cs[k].(members := {}) in AfterLeaveAll(cs, user) <==>
              exists j :: 0 <= j <= k && cs[j].kind == Direct && cs[j].members == {user} &&
                          (cs[j].hasMessages || cs[j].hasReads)
    decreases |cs|
  {
    if k < |cs| - 1 {
      var front := cs[..|cs| - 1];
      assert Tidy(front) by {
        assert forall c | c in front :: c in cs;
      }
      LeaveAllClears(front, user, k);
      assert cs[|cs| - 1].id != cs[k].id;
    } else {
      LastClears(cs, user);
      HaltedWithin(cs, user, |cs|);
      assert cs[..|cs|] == cs;
    }
  }

  /** Leaving one conversation: the refusals in their order, each leaving everything as it is. */
  lemma LeaveErrors(cs: seq<Conversation>, id: ConversationId, user: UserId)
    requires Tidy(cs)
    ensures (forall c | c in cs :: c.id != id) ==>
              LeaveError(cs, id, user) == Some(NotFound) && AfterLeave(cs, id, user) == cs
    ensures forall c | c in cs && c.id == id && c.kind != Direct ::
              LeaveError(cs, id, user) == Some(BadRequest) && AfterLeave(cs, id, user) == cs
    ensures forall c | c in cs && c.id == id && c.kind == Direct && user !in c.members ::
              LeaveError(cs, id, user) == Some(Forbidden) && AfterLeave(cs, id, user) == cs
    ensures forall c | c in cs && c.id == id && c.kind == Direct && user in c.members ::
              LeaveError(cs, id, user) == if c.members == {user} && c.hasReads then Some(Blocked) else None
  {
    var i := IndexOf(cs, id);
    if i >= 0 {
      assert cs[i] in cs && forall c | c in cs && c.id == id :: c == cs[i];
      assert user in cs[i].members ==> (cs[i].members - {user} == {} <==> cs[i].members == {user});
    }
  }

  /**
   Otherwise the user is no member of it any more and everybody else in it is; it goes with its last member,
   unless it has been read. No other conversation changes.
   */
  lemma LeaveActs(cs: seq<Conversation>, c: Conversation, user: UserId)
    requires Tidy(cs) && c in cs && c.kind == Direct && user in c.members
    ensures var after := AfterLeave(cs, c.id, user);
            && (forall d: Conversation | d.id != c.id :: d in after <==> d in cs)
            && (forall d: Conversation | d.id == c.id :: d in after <==>
                  d == c.(members := c.members - {user}) && (c.members != {user} || c.hasReads))
  {
    var i, after := IndexOf(cs, c.id), AfterLeave(cs, c.id, user);
    assert cs[i] == c && forall k | 0 <= k < |cs| && k != i :: cs[k].id != c.id;
    assert c.members - {user} == {} <==> c.members == {user};
    if c.members == {user} && !c.hasReads {
      WithoutAt(cs, i);
      assert after == cs[..i] + cs[i + 1..];
    } else {
      ReplacedAt(cs, i, c.(members := c.members - {user}));
      assert after == cs[i := c.(members := c.members - {user})];
    }
  }

  /**
   Two people get the id of a direct conversation that has both as members, if there is one, and otherwise a new
   one, which has exactly them; unknown people are refused.
   */
  lemma FindOrCreateActs(cs: seq<Conversation>, staff: set<UserId>, a: UserId, b: UserId, newId: ConversationId)
    requires a != b
    ensures var answer, after := FoundOrCreated(cs, staff, a, b, newId), AfterFindOrCreate(cs, staff, a, b, newId);
            if a !in staff then answer == Failure(NotFound) && after == cs
            else if exists c :: c in cs && c.kind == Direct && {a, b} <= c.members then
              && after == cs
              && exists c :: c in cs && c.kind == Direct && {a, b} <= c.members && answer == Success(c.id)
            else if b !in staff then answer == Failure(NotFound) && after == cs
            else
              && answer == Success(newId)
              && after == cs + [Conversation(newId, Direct, a, b, {a, b}, false, false)]
  {
    var k := Find(cs, a, b);
    if k >= 0 {
      assert cs[k] in cs && {a, b} <= cs[k].members;
    }
  }

  /** Somebody alone gets one they created and are alone in, or a new one. */
  lemma FindOrCreateAloneActs(cs: seq<Conversation>, staff: set<UserId>, a: UserId, newId: ConversationId)
    ensures var answer, after := FoundOrCreated(cs, staff, a, a, newId), AfterFindOrCreate(cs, staff, a, a, newId);
            if a !in staff then answer == Failure(NotFound) && after == cs
            else if exists c :: c in cs && c.kind == Direct && c.createdBy == a && c.members == {a} then
              && after == cs
              && exists c :: c in cs && c.kind == Direct && c.createdBy == a && c.members == {a} &&
                             answer == Success(c.id)
            else
              && answer == Success(newId)
              && after == cs + [Conversation(newId, Direct, a, a, {a}, false, false)]
  {
    var k := Find(cs, a, a);
    assert {a, a} == {a};
    if k >= 0 {
      assert cs[k] in cs;
    }
  }

  /** A sent message leaves its mark on that conversation alone. */
  lemma PostActs(cs: seq<Conversation>, c: Conversation)
    requires Tidy(cs) && c in cs
    ensures forall d :: d in AfterPost(cs, c.id) <==> (d in cs && d != c) || d == c.(hasMessages := true)
  {
    var i := IndexOf(cs, c.id);
    assert cs[i] == c && forall k | 0 <= k < |cs| && k != i :: cs[k].id != c.id;
    ReplacedAt(cs, i, c.(hasMessages := true));
    assert AfterPost(cs, c.id) == cs[i := c.(hasMessages := true)];
  }

  /** So does a reading, if there is anything to read. */
  lemma ReadingActs(cs: seq<Conversation>, c: Conversation)
    requires Tidy(cs) && c in cs
    ensures forall d :: d in AfterReading(cs, c.id) <==>
              (d in cs && d != c) || d == c.(hasReads := c.hasReads || c.hasMessages)
  {
    var i := IndexOf(cs, c.id);
    assert cs[i] == c && forall k | 0 <= k < |cs| && k != i :: cs[k].id != c.id;
    var marked := c.(hasReads := c.hasReads || c.hasMessages);
    ReplacedAt(cs, i, marked);
    assert c.(hasReads := c.hasReads) == c && cs[i := c] == cs;
    assert AfterReading(cs, c.id) == cs[i := marked];
  }

  // ----- Conversations with oneself -----------------------------------------------------------------------

  /** A conversation that a opened with themselves and has not left. */
  predicate OwnSelf(c: Conversation, a: UserId) {
    c.kind.Direct? && c.createdBy == a && c.peer == a && a in c.members
  }

  /** Direct conversations hold nobody but those they were opened for, and nobody is in two of their own. */
  ghost predicate Traceable(cs: seq<Conversation>) {
    && (forall c | c in cs && c.kind.Direct? :: c.members <= {c.createdBy, c.peer})
    && (forall c, d | c in cs && d in cs && OwnSelf(c, c.createdBy) && OwnSelf(d, c.createdBy) :: c.id == d.id)
  }

  predicate Leaves(e: Event, c: Conversation, user: UserId) {
    c.kind.Direct? && user in c.members &&
    match e
    case Leave(id, who) => who == user && c.id == id
    case LeaveAll(who) => who == user
    case _ => false
  }

  /** What a step makes of a conversation. */
  ghost predicate Remains(e: Event, c: Conversation, d: Conversation) {
    && d.id == c.id && d.kind == c.kind && d.createdBy == c.createdBy && d.peer == c.peer
    && (d.members == c.members || exists user :: Leaves(e, c, user) && d.members == c.members - {user})
  }

  lemma {:induction false} LeaveAllRemains(cs: seq<Conversation>, user: UserId, d: Conversation)
    requires d in AfterLeaveAll(cs, user)
    ensures exists c :: c in cs && Remains(LeaveAll(user), c, d)
  {
    var last := |cs| - 1;
    if d in AfterLeaveAll(cs[..last], user) {
      LeaveAllRemains(cs[..last], user, d);
      var c :| c in cs[..last] && Remains(LeaveAll(user), c, d);
      assert c in cs;
    } else {
      var c := cs[last];
      assert c.kind.Direct? && user in c.members ==> Leaves(LeaveAll(user), c, user);
      assert c in cs && Remains(LeaveAll(user), c, d);
    }
  }

  /** Every conversation after a step is a new one, or one from before of which at most one member left. */
  lemma StepRemains(cs: seq<Conversation>, staff: set<UserId>, e: Event, d: Conversation)
    requires d in Step(cs, staff, e)
    ensures (exists c :: c in cs && Remains(e, c, d)) ||
            (e.FindOrCreate? && Find(cs, e.a, e.b) < 0 && d == Opened(e.newId, e.a, e.b))
  {
    if d !in cs {
      match e
      case FindOrCreate(_, _, _) =>
      case Leave(id, user) =>
        var c := cs[IndexOf(cs, id)];
        assert Leaves(e, c, user) && c in cs && Remains(e, c, d);
      case LeaveAll(user) => LeaveAllRemains(cs, user, d);
      case Post(id) => assert cs[IndexOf(cs, id)] in cs && Remains(e, cs[IndexOf(cs, id)], d);
      case ReadUp(id) => assert cs[IndexOf(cs, id)] in cs && Remains(e, cs[IndexOf(cs, id)], d);
    } else {
      assert Remains(e, d, d);
    }
  }

  lemma StepStaysTraceable(cs: seq<Conversation>, staff: set<UserId>, e: Event)
    requires Tidy(cs) && Traceable(cs)
    ensures Traceable(Step(cs, staff, e))
  {
    var after := Step(cs, staff, e);
    forall d | d in after && d.kind.Direct? ensures d.members <= {d.createdBy, d.peer} {
      StepRemains(cs, staff, e, d);
    }
    forall c, d | c in after && d in after && OwnSelf(c, c.createdBy) && OwnSelf(d, c.createdBy) ensures c.id == d.id {
      OwnOrigin(cs, staff, e, c);
      OwnOrigin(cs, staff, e, d);
    }
  }

  /** Somebody's own conversation was there before, or is new because there was none. */
  lemma OwnOrigin(cs: seq<Conversation>, staff: set<UserId>, e: Event, c: Conversation)
    requires Tidy(cs) && Traceable(cs) && c in Step(cs, staff, e) && OwnSelf(c, c.createdBy)
    ensures if Find(cs, c.createdBy, c.createdBy) >= 0
            then exists b :: b in cs && b.id == c.id && OwnSelf(b, b.createdBy) && b.createdBy == c.createdBy
            else e.FindOrCreate? && c.id == e.newId
  {
    StepRemains(cs, staff, e, c);
    if b :| b in cs && Remains(e, b, c) {
      OwnIsFound(cs, b, c.createdBy);
    }
  }

  /** Somebody's own conversation is found while it exists. */
  lemma OwnIsFound(cs: seq<Conversation>, c: Conversation, a: UserId)
    requires Tidy(cs) && Traceable(cs) && c in cs && OwnSelf(c, a)
    ensures IsSelf(c, a) && Find(cs, a, a) >= 0
  {
    assert c.members <= {a};
    assert c.members == {a};
    assert Serves(c, a, a);
  }

  lemma {:induction false} RunStaysTraceable(cs: seq<Conversation>, staff: set<UserId>, events: seq<Event>)
    requires Tidy(cs) && Traceable(cs) && FreshIds(cs, staff, events)
    ensures Traceable(Run(cs, staff, events))
    decreases |events|
  {
    if events != [] {
      StepKeepsTidy(cs, staff, events[0]);
      StepStaysTraceable(cs, staff, events[0]);
      RunStaysTraceable(Step(cs, staff, events[0]), staff, events[1..]);
    }
  }

  /** The lookup of (a, a) answers a conversation that a opened with themselves, now or before. */
  ghost predicate AnswersOwn(cs: seq<Conversation>, staff: set<UserId>, a: UserId, newId: ConversationId) {
    exists c :: c in AfterFindOrCreate(cs, staff, a, a, newId) && OwnSelf(c, a) &&
      FoundOrCreated(cs, staff, a, a, newId) == Success(c.id)
  }

  /** A conversation that a opened with somebody who has left it, while a stayed. */
  predicate Deserted(c: Conversation, a: UserId) {
    c.kind.Direct? && c.createdBy == a && c.peer != a && a in c.members && c.peer !in c.members
  }

  /**
   In every table a run can reach, the answer is right if and only if no conversation that a opened with
   somebody who has left it stands before a's own.
   */
  lemma SelfLookupExactly(staff: set<UserId>, events: seq<Event>, a: UserId, newId: ConversationId)
    requires FreshIds([], staff, events) && a in staff && forall c | c in Run([], staff, events) :: c.id != newId
    ensures var cs := Run([], staff, events);
            AnswersOwn(cs, staff, a, newId) <==>
              !(exists j :: 0 <= j < |cs| && Deserted(cs[j], a) && forall i | 0 <= i < j :: !OwnSelf(cs[i], a))
  {
    var cs := Run([], staff, events);
    RunKeepsTidy([], staff, events);
    RunStaysTraceable([], staff, events);
    var k := Find(cs, a, a);
    if k < 0 {
      NobodyFound(cs, staff, a, newId);
    } else {
      FirstFound(cs, staff, a, newId);
      FirstDecides(cs, a);
    }
  }

  /** A deserted conversation before the creator's own is the one found. */
  lemma FirstDecides(cs: seq<Conversation>, a: UserId)
    requires Tidy(cs) && Traceable(cs) && Find(cs, a, a) >= 0
    ensures Deserted(cs[Find(cs, a, a)], a) <==>
              exists j :: 0 <= j < |cs| && Deserted(cs[j], a) && forall i | 0 <= i < j :: !OwnSelf(cs[i], a)
  {
    var k := Find(cs, a, a);
    forall j | 0 <= j < |cs| && (OwnSelf(cs[j], a) || Deserted(cs[j], a)) ensures k <= j {
      assert cs[j] in cs;
      SelfIsOwnOrDeserted(cs, cs[j], a);
      assert Serves(cs[j], a, a);
    }
    assert cs[k] in cs && Serves(cs[k], a, a);
    SelfIsOwnOrDeserted(cs, cs[k], a);
  }

  lemma NobodyFound(cs: seq<Conversation>, staff: set<UserId>, a: UserId, newId: ConversationId)
    requires Tidy(cs) && Traceable(cs) && a in staff && Find(cs, a, a) < 0
    ensures AnswersOwn(cs, staff, a, newId) && forall j | 0 <= j < |cs| :: !Deserted(cs[j], a)
  {
    assert Opened(newId, a, a) in AfterFindOrCreate(cs, staff, a, a, newId);
    forall j | 0 <= j < |cs| ensures !Deserted(cs[j], a) {
      assert cs[j] in cs && !Serves(cs[j], a, a);
      SelfIsOwnOrDeserted(cs, cs[j], a);
    }
  }

  /** The conversation found is the creator's own, or one somebody deserted; ids tell them apart. */
  lemma FirstFound(cs: seq<Conversation>, staff: set<UserId>, a: UserId, newId: ConversationId)
    requires Tidy(cs) && Traceable(cs) && a in staff && Find(cs, a, a) >= 0
    ensures var c := cs[Find(cs, a, a)];
            && (AnswersOwn(cs, staff, a, newId) <==> OwnSelf(c, a))
            && (OwnSelf(c, a) <==> !Deserted(c, a))
  {
    var k := Find(cs, a, a);
    assert cs[k] in cs && Serves(cs[k], a, a);
    SelfIsOwnOrDeserted(cs, cs[k], a);
    forall c | c in cs && c.id == cs[k].id ensures c == cs[k] {
      var i :| 0 <= i < |cs| && cs[i] == c;
    }
  }

  lemma SelfIsOwnOrDeserted(cs: seq<Conversation>, c: Conversation, a: UserId)
    requires Tidy(cs) && Traceable(cs) && c in cs
    ensures IsSelf(c, a) <==> OwnSelf(c, a) || Deserted(c, a)
  {
    if OwnSelf(c, a) {
      OwnIsFound(cs, c, a);
    }
    if Deserted(c, a) {
      assert c.members <= {a, c.peer};
      assert c.members == {a};
    }
  }

  /** Somebody leaves a conversation that a opened with them, and a stays. */
  ghost predicate Deserts(cs: seq<Conversation>, e: Event, a: UserId) {
    exists c, user :: c in cs && Leaves(e, c, user) && user != a && c.createdBy == a && a in c.members
  }

  ghost predicate NobodyDeserts(cs: seq<Conversation>, staff: set<UserId>, events: seq<Event>, a: UserId)
    decreases |events|
  {
    events == [] || (!Deserts(cs, events[0], a) && NobodyDeserts(Step(cs, staff, events[0]), staff, events[1..], a))
  }

  lemma {:induction false} NobodyIsDeserted(cs: seq<Conversation>, staff: set<UserId>, events: seq<Event>, a: UserId)
    requires (forall c | c in cs :: !Deserted(c, a)) && NobodyDeserts(cs, staff, events, a)
    ensures forall c | c in Run(cs, staff, events) :: !Deserted(c, a)
    decreases |events|
  {
    if events != [] {
      var e, next := events[0], Step(cs, staff, events[0]);
      forall d | d in next ensures !Deserted(d, a) {
        StepRemains(cs, staff, e, d);
        if c :| c in cs && Remains(e, c, d) {
          assert !Deserted(c, a);
          if user :| Leaves(e, c, user) && d.members == c.members - {user} {
            assert c.createdBy == a && a in c.members && user != a ==> Deserts(cs, e, a);
          }
        }
      }
      NobodyIsDeserted(next, staff, events[1..], a);
    }
  }

  /** So the answer is right as long as nobody leaves a conversation that a opened with them while a stays. */
  lemma SelfLookupIsRight(staff: set<UserId>, events: seq<Event>, a: UserId, newId: ConversationId)
    requires FreshIds([], staff, events) && a in staff && forall c | c in Run([], staff, events) :: c.id != newId
    requires NobodyDeserts([], staff, events, a)
    ensures AnswersOwn(Run([], staff, events), staff, a, newId)
  {
    NobodyIsDeserted([], staff, events, a);
    SelfLookupExactly(staff, events, a, newId);
  }

  /**
   A run in which it is wrong: users 1 and 2 talk, 2 leaves, and 1's conversation "with themselves" is the
   old one.
   */
  lemma SelfLookupReusesOldConversation()
    ensures var cs := Run([], {1, 2}, [FindOrCreate(1, 2, "x"), Leave("x", 2)]);
            && FoundOrCreated([], {1, 2}, 1, 2, "x") == Success("x")
            && FoundOrCreated(cs, {1, 2}, 1, 1, "y") == Success("x")
            && FoundOrCreated(cs, {1, 2}, 1, 2, "y") == Success("y")
  {
    var staff: set<UserId> := {1, 2};
    var events := [FindOrCreate(1, 2, "x"), Leave("x", 2)];
    var created := [Opened("x", 1, 2)];
    assert Step([], staff, events[0]) == created;
    assert created[0].members - {2} == {1};
    var left := [Conversation("x", Direct, 1, 2, {1}, false, false)];
    assert Step(created, staff, events[1]) == left;
    assert events[1..] == [events[1]] && events[1..][1..] == [];
    assert Run([], staff, events) == Run(created, staff, events[1..]) == left;
    assert IsSelf(left[0], 1) && !IsBetween(left[0], 1, 2);
  }

  class DirectMessageService {
    // In order of creation.
    var conversations: seq<Conversation>

    constructor ()
      ensures conversations == []
    {
      conversations := [];
    }

    method FindOrCreateDirectConversation(staff: set<UserId>, userA: UserId, userBId: UserId, newId: ConversationId)
      returns (r: Result<ConversationId, DmError>)
      modifies this
      ensures r == FoundOrCreated(old(conversations), staff, userA, userBId, newId)
      ensures conversations == AfterFindOrCreate(old(conversations), staff, userA, userBId, newId)
    {
      if userA !in staff {
        return Failure(NotFound);
      }
      var i := Find(conversations, userA, userBId);
      if i >= 0 {
        return Success(conversations[i].id);
      }
      if userA != userBId && userBId !in staff {
        return Failure(NotFound);
      }
      conversations := conversations + [Conversation(newId, Direct, userA, userBId, {userA} + {userBId}, false, false)];
      assert {userA} + {userBId} == {userA, userBId};
      r := Success(newId);
    }

    method DeleteDirectConversation(conversationId: ConversationId, userId: UserId) returns (error: Option<DmError>)
      modifies this
      ensures error == LeaveError(old(conversations), conversationId, userId)
      ensures conversations == AfterLeave(old(conversations), conversationId, userId)
    {
      var i := IndexOf(conversations, conversationId);
      if i < 0 {
        return Some(NotFound);
      }
      var conv := conversations[i];
      if conv.kind != Direct {
        return Some(BadRequest);
      }
      if userId !in conv.members {
        return Some(Forbidden);
      }
      conv := conv.(members := conv.members - {userId});
      conversations := conversations[i := conv];
      if conv.members == {} {
        if conv.hasReads {
          return Some(Blocked);
        }
        conversations := conversations[..i] + conversations[i + 1..];
      }
      error := None;
    }

    /** The member rows go first; the clean-up of empty conversations ends at the first it cannot remove. */
    method LeaveAllDMsForUser(userId: UserId) returns (failed: bool)
      modifies this
      ensures conversations == AfterLeaveAll(old(conversations), userId)
      ensures failed <==> Halted(old(conversations), userId)
    {
      var kept := [];
      failed := false;
      for i := 0 to |conversations|
        invariant kept == AfterLeaveAll(conversations[..i], userId)
        invariant failed <==> Halted(conversations[..i], userId)
      {
        var conv := conversations[i];
        assert conversations[..i + 1][..i] == conversations[..i];
        assert conversations[..i + 1] == conversations[..i] + [conv];
        if conv.kind == Direct && userId in conv.members {
          var left := conv.(members := conv.members - {userId});
          assert left.members == {} <==> LastIn(conv, userId);
          if left.members != {} || failed || Stuck(conv) {
            kept := kept + [left];
            failed := failed || left.members == {};
          }
        } else {
          kept := kept + [conv];
        }
      }
      assert conversations[..|conversations|] == conversations;
      conversations := kept;
    }
  }
}
