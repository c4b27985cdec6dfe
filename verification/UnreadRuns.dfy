/** How the unread counts of everybody move over whole runs of sends, soft deletes and mark-as-reads. */
module UnreadRuns {
  import opened Common
  import opened UnreadModel
  import opened UnreadProofs

  // ----- Sending ----------------------------------------------------------------------------------------

  lemma SendKeepsSound(chat: Chat, sender: UserId, c: ConversationId, id: MessageId, now: int)
    requires Sound(chat) && KindOf(chat.conversations, c).Some?
    requires forall m | m in chat.messages :: m.id != id
    ensures Sound(Sent(chat, sender, c, id, now))
  {
    var after := Sent(chat, sender, c, id, now);
    forall r | r in after.cursors ensures Points(after.messages, r) {
      assert Points(chat.messages, r);
      if r.lastRead.Some? {
        var i :| 0 <= i < |chat.messages| && chat.messages[i].id == r.lastRead.value &&
          chat.messages[i].conversation == r.conversation;
        assert after.messages[i] == chat.messages[i];
      }
    }
  }

  /** A new message changes what is unread of no earlier message. */
  lemma SendKeepsOthers(chat: Chat, sender: UserId, c: ConversationId, id: MessageId,
                        now: int, user: UserId, m: Message)
    requires Sound(chat)
    requires forall x | x in chat.messages :: x.id != id
    ensures UnreadFor(Sent(chat, sender, c, id, now), user, m) <==> UnreadFor(chat, user, m)
  {
    var cursor := Cursor(chat.cursors, m.conversation, user);
    CursorFound(chat.cursors, m.conversation, user);
    if cursor.Some? {
      var r :| r in chat.cursors && r.lastRead == cursor;
      assert Points(chat.messages, r);
      var i :| 0 <= i < |chat.messages| && chat.messages[i].id == cursor.value;
      assert chat.messages[i] in chat.messages;
      TimeOfAppend(chat.messages, Message(id, c, Some(sender), now, None), cursor.value);
    }
  }

  /** The new message itself is unread for everybody but its sender. */
  lemma SentIsUnread(chat: Chat, sender: UserId, c: ConversationId, id: MessageId, now: int, user: UserId)
    requires Sound(chat)
    requires forall x | x in chat.messages :: x.id != id && x.createdAt < now
    ensures UnreadFor(Sent(chat, sender, c, id, now), user, Message(id, c, Some(sender), now, None)) <==> user != sender
  {
    var cursor := Cursor(chat.cursors, c, user);
    CursorFound(chat.cursors, c, user);
    if cursor.Some? {
      var r :| r in chat.cursors && r.conversation == c && r.lastRead == cursor;
      assert Points(chat.messages, r);
      var i :| 0 <= i < |chat.messages| && chat.messages[i].id == cursor.value;
      assert chat.messages[i] in chat.messages;
      TimeOfMessage(chat.messages, i);
      TimeOfAppend(chat.messages, Message(id, c, Some(sender), now, None), cursor.value);
    }
  }

  /** A send adds exactly one to the count of everybody else in that conversation, and nothing anywhere else. */
  lemma SendAddsOne(chat: Chat, sender: UserId, c: ConversationId, id: MessageId,
                    now: int, user: UserId, other: ConversationId)
    requires Sound(chat)
    requires forall x | x in chat.messages :: x.id != id && x.createdAt < now
    ensures UnreadIn(Sent(chat, sender, c, id, now), user, other) ==
            UnreadIn(chat, user, other) + if other == c && user != sender then 1 else 0
  {
    var after := Sent(chat, sender, c, id, now);
    var message := Message(id, c, Some(sender), now, None);
    var p := (m: Message) => m.conversation == other && UnreadFor(chat, user, m);
    var q := (m: Message) => m.conversation == other && UnreadFor(after, user, m);
    forall m | m in chat.messages ensures p(m) == q(m) {
      SendKeepsOthers(chat, sender, c, id, now, user, m);
    }
    CountSame(chat.messages, p, q);
    CountAppend(chat.messages, message, q);
    SentIsUnread(chat, sender, c, id, now, user);
  }

  /** The total of a user grows by one exactly when they are another member of the conversation. */
  lemma SendTotal(chat: Chat, sender: UserId, c: ConversationId, id: MessageId, now: int, user: UserId)
    requires Sound(chat)
    requires forall x | x in chat.messages :: x.id != id && x.createdAt < now
    ensures TotalUnread(Sent(chat, sender, c, id, now), user) ==
            TotalUnread(chat, user) + if (c, user) in chat.members && user != sender then 1 else 0
  {
    var after := Sent(chat, sender, c, id, now);
    var message := Message(id, c, Some(sender), now, None);
    TotalIsCount(chat, user, chat.messages);
    TotalIsCount(after, user, after.messages);
    var p := (m: Message) => Counted(chat, user, m);
    var q := (m: Message) => Counted(after, user, m);
    forall m | m in chat.messages ensures p(m) == q(m) {
      SendKeepsOthers(chat, sender, c, id, now, user, m);
    }
    CountSame(chat.messages, p, q);
    CountAppend(chat.messages, message, q);
    SentIsUnread(chat, sender, c, id, now, user);
  }

  // ----- Soft deletion ----------------------------------------------------------------------------------

  lemma DeleteKeepsSound(chat: Chat, id: MessageId, now: int)
    requires Sound(chat)
    ensures Sound(Deleted(chat, id, now))
  {
    var i := MessageIndex(chat.messages, id);
    if i >= 0 {
      var after := Deleted(chat, id, now);
      forall r | r in after.cursors ensures Points(after.messages, r) {
        assert Points(chat.messages, r);
        if r.lastRead.Some? {
          var k :| 0 <= k < |chat.messages| && chat.messages[k].id == r.lastRead.value &&
            chat.messages[k].conversation == r.conversation;
          assert after.messages[k].id == chat.messages[k].id &&
                 after.messages[k].conversation == chat.messages[k].conversation;
        }
      }
      forall m | m in after.messages ensures KindOf(chat.conversations, m.conversation).Some? {
        var k :| 0 <= k < |after.messages| && after.messages[k] == m;
        assert chat.messages[k] in chat.messages;
      }
    }
  }

  lemma DeleteKeepsAfter(chat: Chat, i: nat, now: int, m: Message, cursor: Option<MessageId>)
    requires i < |chat.messages|
    ensures After(chat.messages[i := chat.messages[i].(deletedAt := Some(now))], m, cursor) <==>
              After(chat.messages, m, cursor)
  {
    if cursor.Some? {
      TimeOfDelete(chat.messages, i, Some(now), cursor.value);
    }
  }

  /** Counting after one element changed. */
  lemma {:induction false} CountUpdate<T>(xs: seq<T>, i: nat, x: T, p: T -> bool)
    requires i < |xs|
    ensures Count(xs[i := x], p) + (if p(xs[i]) then 1 else 0) == Count(xs, p) + if p(x) then 1 else 0
  {
    var last := |xs| - 1;
    if i < last {
      CountUpdate(xs[..last], i, x, p);
      assert xs[i := x][..last] == xs[..last][i := x];
    } else {
      assert xs[i := x][..last] == xs[..last];
    }
  }

  /**
   A soft delete lowers by one exactly the counts of those the message was unread for; deleting a deleted
   message, or an unknown one, changes no count.
   */
  lemma DeleteTakesOne(chat: Chat, id: MessageId, now: int, user: UserId, c: ConversationId)
    requires Sound(chat)
    ensures var i := MessageIndex(chat.messages, id);
            var hit := i >= 0 && chat.messages[i].conversation == c && UnreadFor(chat, user, chat.messages[i]);
            UnreadIn(Deleted(chat, id, now), user, c) + (if hit then 1 else 0) == UnreadIn(chat, user, c)
  {
    var i := MessageIndex(chat.messages, id);
    if i >= 0 {
      var after := Deleted(chat, id, now);
      var p := (m: Message) => m.conversation == c && UnreadFor(chat, user, m);
      var q := (m: Message) => m.conversation == c && UnreadFor(after, user, m);
      forall m | m in after.messages ensures p(m) == q(m) {
        DeleteKeepsAfter(chat, i, now, m, Cursor(chat.cursors, m.conversation, user));
      }
      CountSame(after.messages, p, q);
      CountUpdate(chat.messages, i, after.messages[i], p);
    }
  }

  lemma DeleteTotal(chat: Chat, id: MessageId, now: int, user: UserId)
    requires Sound(chat)
    ensures var i := MessageIndex(chat.messages, id);
            var hit := i >= 0 && Counted(chat, user, chat.messages[i]);
            TotalUnread(Deleted(chat, id, now), user) + (if hit then 1 else 0) == TotalUnread(chat, user)
  {
    var i := MessageIndex(chat.messages, id);
    if i >= 0 {
      var after := Deleted(chat, id, now);
      TotalIsCount(chat, user, chat.messages);
      TotalIsCount(after, user, after.messages);
      var p := (m: Message) => Counted(chat, user, m);
      var q := (m: Message) => Counted(after, user, m);
      forall m | m in after.messages ensures p(m) == q(m) {
        DeleteKeepsAfter(chat, i, now, m, Cursor(chat.cursors, m.conversation, user));
      }
      CountSame(after.messages, p, q);
      CountUpdate(chat.messages, i, after.messages[i], p);
    }
  }

  // ----- Mark as read -----------------------------------------------------------------------------------

  lemma ReadKeepsSound(chat: Chat, user: UserId, c: ConversationId)
    requires Sound(chat)
    ensures Sound(MarkedRead(chat, user, c))
  {
    var latest := Latest(chat.messages, c);
    LatestIsNewest(chat.messages, c);
    if latest.Some? {
      var row := ReadRow(c, user, Some(latest.value.id));
      assert Points(chat.messages, row) by {
        var k :| 0 <= k < |chat.messages| && chat.messages[k] == latest.value;
      }
      var after := MarkedRead(chat, user, c).cursors;
      forall r | r in after ensures Points(chat.messages, r) {
        assert r == row || r in chat.cursors;
      }
    }
  }

  /** The cursor moves to the newest message, for this user and conversation only. */
  lemma ReadMovesCursor(chat: Chat, user: UserId, c: ConversationId, who: UserId, place: ConversationId)
    requires Sound(chat) && Latest(chat.messages, c).Some?
    ensures Cursor(MarkedRead(chat, user, c).cursors, place, who) ==
            if who == user && place == c then Some(Latest(chat.messages, c).value.id)
              else Cursor(chat.cursors, place, who)
  {
    var row := ReadRow(c, user, Some(Latest(chat.messages, c).value.id));
    var i := ReadIndex(chat.cursors, c, user);
    ReadKeepsSound(chat, user, c);
    var after := MarkedRead(chat, user, c).cursors;
    if i < 0 {
      assert after[..|chat.cursors|] == chat.cursors;
    } else {
      CursorAt(after, i);
      if who != user || place != c {
        CursorUpdateOther(chat.cursors, i, row, place, who);
      }
    }
  }

  /** Marking a conversation as read brings that user's count there to zero and changes no other count. */
  lemma ReadClears(chat: Chat, user: UserId, c: ConversationId, who: UserId, place: ConversationId)
    requires Sound(chat)
    ensures UnreadIn(MarkedRead(chat, user, c), who, place) ==
            if who == user && place == c then 0 else UnreadIn(chat, who, place)
  {
    var after := MarkedRead(chat, user, c);
    var p := (m: Message) => m.conversation == place && UnreadFor(chat, who, m);
    var q := (m: Message) => m.conversation == place && UnreadFor(after, who, m);
    LatestIsNewest(chat.messages, c);
    if who == user && place == c {
      forall m | m in chat.messages ensures !q(m) {
        if m.conversation == c {
          NothingAfterNewest(chat, user, c, m);
        }
      }
      CountNone(chat.messages, q);
    } else {
      forall m | m in chat.messages ensures p(m) == q(m) {
        if Latest(chat.messages, c).Some? {
          ReadMovesCursor(chat, user, c, who, m.conversation);
        }
      }
      CountSame(chat.messages, p, q);
    }
  }

  lemma NothingAfterNewest(chat: Chat, user: UserId, c: ConversationId, m: Message)
    requires Sound(chat) && m in chat.messages && m.conversation == c
    ensures !UnreadFor(MarkedRead(chat, user, c), user, m)
  {
    LatestIsNewest(chat.messages, c);
    var latest := Latest(chat.messages, c).value;
    ReadMovesCursor(chat, user, c, user, c);
    var k :| 0 <= k < |chat.messages| && chat.messages[k] == latest;
    TimeOfMessage(chat.messages, k);
  }

  /** The user's total drops by exactly the count that was cleared; nobody else's total changes. */
  lemma ReadTotal(chat: Chat, user: UserId, c: ConversationId, who: UserId)
    requires Sound(chat)
    ensures TotalUnread(MarkedRead(chat, user, c), who) +
            (if who == user && (c, user) in chat.members then UnreadIn(chat, user, c) else 0) == TotalUnread(chat, who)
  {
    var after := MarkedRead(chat, user, c);
    ReadKeepsSound(chat, user, c);
    TotalIsCount(chat, who, chat.messages);
    TotalIsCount(after, who, after.messages);
    var cleared := (m: Message) => who == user && (c, user) in chat.members &&
      m.conversation == c && UnreadFor(chat, user, m);
    var p := (m: Message) => Counted(chat, who, m);
    var q := (m: Message) => Counted(after, who, m);
    LatestIsNewest(chat.messages, c);
    forall m | m in chat.messages ensures q(m) == (p(m) && !cleared(m)) && (cleared(m) ==> p(m)) {
      if m.conversation == c && who == user {
        NothingAfterNewest(chat, user, c, m);
      } else if Latest(chat.messages, c).Some? {
        ReadMovesCursor(chat, user, c, who, m.conversation);
      }
    }
    CountSplit(chat.messages, q, cleared, p);
    if who == user && (c, user) in chat.members {
      CountSame(chat.messages, cleared, (m: Message) => m.conversation == c && UnreadFor(chat, user, m));
    } else {
      CountNone(chat.messages, cleared);
    }
  }

  // ----- Runs -------------------------------------------------------------------------------------------

  /** The time a user has read up to in a conversation; None before the first read. */
  function ReadUpTo(chat: Chat, c: ConversationId, user: UserId): Option<int> {
    var cursor := Cursor(chat.cursors, c, user);
    if cursor.None? then None else TimeOf(chat.messages, cursor.value)
  }

  /** A cursor is never lost and never moves to an earlier time. */
  ghost predicate NotBack(before: Option<int>, after: Option<int>) {
    before.Some? ==> after.Some? && before.value <= after.value
  }

  lemma StepKeepsCursor(chat: Chat, t: Timed, c: ConversationId, user: UserId)
    requires Sound(chat) && Orderly(chat, t)
    ensures NotBack(ReadUpTo(chat, c, user), ReadUpTo(Step(chat, t.event, t.now), c, user))
  {
    var cursor := Cursor(chat.cursors, c, user);
    CursorFound(chat.cursors, c, user);
    if cursor.Some? {
      var r :| r in chat.cursors && r.conversation == c && r.user == user && r.lastRead == cursor;
      assert Points(chat.messages, r);
      var k :| 0 <= k < |chat.messages| && chat.messages[k].id == cursor.value && chat.messages[k].conversation == c;
      TimeOfMessage(chat.messages, k);
      assert chat.messages[k] in chat.messages;
      match t.event
      case Send(sender, known, place, channelOnly, id) =>
        TimeOfAppend(chat.messages, Message(id, place, Some(sender), t.now, None), cursor.value);
      case Delete(id) =>
        var i := MessageIndex(chat.messages, id);
        if i >= 0 {
          TimeOfDelete(chat.messages, i, Some(t.now), cursor.value);
        }
      case MarkRead(who, place) =>
        LatestIsNewest(chat.messages, place);
        if Latest(chat.messages, place).Some? {
          ReadMovesCursor(chat, who, place, user, c);
          var n :| 0 <= n < |chat.messages| && chat.messages[n] == Latest(chat.messages, place).value;
          TimeOfMessage(chat.messages, n);
        }
    }
  }

  lemma StepKeepsSound(chat: Chat, t: Timed)
    requires Sound(chat) && Orderly(chat, t)
    ensures Sound(Step(chat, t.event, t.now))
  {
    match t.event
    case Send(sender, known, c, channelOnly, id) =>
      if SendError(chat, sender, known, c, channelOnly).None? {
        SendKeepsSound(chat, sender, c, id, t.now);
      }
    case Delete(id) => DeleteKeepsSound(chat, id, t.now);
    case MarkRead(user, c) => ReadKeepsSound(chat, user, c);
  }

  /** Over every run ids stay unique, cursors point to messages of their conversation and never move back. */
  lemma {:induction false} RunKeepsSound(chat: Chat, events: seq<Timed>, c: ConversationId, user: UserId)
    requires Sound(chat) && OrderlyRun(chat, events)
    ensures Sound(Run(chat, events))
    ensures NotBack(ReadUpTo(chat, c, user), ReadUpTo(Run(chat, events), c, user))
    decreases |events|
  {
    if events != [] {
      StepKeepsSound(chat, events[0]);
      StepKeepsCursor(chat, events[0], c, user);
      RunKeepsSound(Step(chat, events[0].event, events[0].now), events[1..], c, user);
    }
  }

  /** What one step changes in a user's count for a conversation. */
  function Delta(chat: Chat, t: Timed, user: UserId, c: ConversationId): int {
    match t.event
    case Send(sender, known, place, channelOnly, _) =>
      if SendError(chat, sender, known, place, channelOnly).None? && place == c && user != sender then 1 else 0
    case Delete(id) =>
      var i := MessageIndex(chat.messages, id);
      if i >= 0 && chat.messages[i].conversation == c && UnreadFor(chat, user, chat.messages[i]) then -1 else 0
    case MarkRead(who, place) => if who == user && place == c then 0 - UnreadIn(chat, user, c) else 0
  }

  function Ledger(chat: Chat, events: seq<Timed>, user: UserId, c: ConversationId): int
    decreases |events|
  {
    if events == [] then 0
    else Delta(chat, events[0], user, c) + Ledger(Step(chat, events[0].event, events[0].now), events[1..], user, c)
  }

  /** After every run each count is its start plus the sends by others, less the deletes and reads that hit it. */
  lemma {:induction false} UnreadConservation(chat: Chat, events: seq<Timed>, user: UserId, c: ConversationId)
    requires Sound(chat) && OrderlyRun(chat, events)
    ensures UnreadIn(Run(chat, events), user, c) == UnreadIn(chat, user, c) + Ledger(chat, events, user, c)
    decreases |events|
  {
    if events != [] {
      var t := events[0];
      match t.event {
        case Send(sender, known, place, channelOnly, id) =>
          if SendError(chat, sender, known, place, channelOnly).None? {
            SendAddsOne(chat, sender, place, id, t.now, user, c);
          }
        case Delete(id) => DeleteTakesOne(chat, id, t.now, user, c);
        case MarkRead(who, place) => ReadClears(chat, who, place, user, c);
      }
      StepKeepsSound(chat, t);
      UnreadConservation(Step(chat, t.event, t.now), events[1..], user, c);
    }
  }

  /** What one step changes in a user's total over their conversations. */
  function DeltaTotal(chat: Chat, t: Timed, user: UserId): int {
    match t.event
    case Send(sender, known, place, channelOnly, _) =>
      if SendError(chat, sender, known, place, channelOnly).None? && (place, user) in chat.members && user != sender
        then 1 else 0
    case Delete(id) =>
      var i := MessageIndex(chat.messages, id);
      if i >= 0 && Counted(chat, user, chat.messages[i]) then -1 else 0
    case MarkRead(who, place) =>
      if who == user && (place, user) in chat.members then 0 - UnreadIn(chat, user, place) else 0
  }

  function LedgerTotal(chat: Chat, events: seq<Timed>, user: UserId): int
    decreases |events|
  {
    if events == [] then 0
    else DeltaTotal(chat, events[0], user) + LedgerTotal(Step(chat, events[0].event, events[0].now), events[1..], user)
  }

  /** The same for the total, which counts the user's own conversations only. */
  lemma {:induction false} TotalConservation(chat: Chat, events: seq<Timed>, user: UserId)
    requires Sound(chat) && OrderlyRun(chat, events)
    ensures TotalUnread(Run(chat, events), user) == TotalUnread(chat, user) + LedgerTotal(chat, events, user)
    decreases |events|
  {
    if events != [] {
      var t := events[0];
      match t.event {
        case Send(sender, known, place, channelOnly, id) =>
          if SendError(chat, sender, known, place, channelOnly).None? {
            SendTotal(chat, sender, place, id, t.now, user);
          }
        case Delete(id) => DeleteTotal(chat, id, t.now, user);
        case MarkRead(who, place) => ReadTotal(chat, who, place, user);
      }
      StepKeepsSound(chat, t);
      TotalConservation(Step(chat, t.event, t.now), events[1..], user);
    }
  }
}
