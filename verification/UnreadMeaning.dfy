/** What the unread views mean by the messages and read rows themselves, and what sends, deletes and reads do. */
module UnreadMeaning {
  import opened Common
  import opened UnreadModel
  import opened UnreadProofs
  import opened UnreadRuns

  // ----- The views ----------------------------------------------------------------------------------------

  /** The user's read row stands at a message that is not older. */
  ghost predicate HasReadUpTo(chat: Chat, user: UserId, m: Message) {
    exists r, x :: r in chat.cursors && r.conversation == m.conversation && r.user == user &&
      x in chat.messages && r.lastRead == Some(x.id) && x.createdAt >= m.createdAt
  }

  /** Somebody else's message that is not deleted and not read up to. */
  ghost predicate Waits(chat: Chat, user: UserId, m: Message) {
    m.author.Some? && m.author.value != user && m.deletedAt == None && !HasReadUpTo(chat, user, m)
  }

  lemma ReadUpToByCursor(chat: Chat, user: UserId, m: Message)
    requires Sound(chat)
    ensures var cursor := Cursor(chat.cursors, m.conversation, user);
            HasReadUpTo(chat, user, m) <==>
              cursor.Some? && TimeOf(chat.messages, cursor.value).Some? &&
              TimeOf(chat.messages, cursor.value).value >= m.createdAt
  {
    var cursor := Cursor(chat.cursors, m.conversation, user);
    CursorFound(chat.cursors, m.conversation, user);
    if r, x :| r in chat.cursors && r.conversation == m.conversation && r.user == user &&
               x in chat.messages && r.lastRead == Some(x.id) && x.createdAt >= m.createdAt
    {
      var k :| 0 <= k < |chat.cursors| && chat.cursors[k] == r;
      CursorAt(chat.cursors, k);
      var i :| 0 <= i < |chat.messages| && chat.messages[i] == x;
      TimeOfMessage(chat.messages, i);
    }
    if cursor.Some? && TimeOf(chat.messages, cursor.value).Some? &&
      TimeOf(chat.messages, cursor.value).value >= m.createdAt
    {
      var r :| r in chat.cursors && r.conversation == m.conversation && r.user == user && r.lastRead == cursor;
      TimeOfFound(chat.messages, cursor.value);
      var i :| 0 <= i < |chat.messages| && chat.messages[i].id == cursor.value &&
        chat.messages[i].createdAt == TimeOf(chat.messages, cursor.value).value;
      assert chat.messages[i] in chat.messages;
    }
  }

  /** A message counts as unread exactly when it waits for the user. */
  lemma UnreadIsWaiting(chat: Chat, user: UserId, m: Message)
    requires Sound(chat)
    ensures UnreadFor(chat, user, m) <==> Waits(chat, user, m)
  {
    ReadUpToByCursor(chat, user, m);
    var cursor := Cursor(chat.cursors, m.conversation, user);
    CursorFound(chat.cursors, m.conversation, user);
    if cursor.Some? {
      var r :| r in chat.cursors && r.conversation == m.conversation && r.user == user && r.lastRead == cursor;
      assert Points(chat.messages, r);
      TimeOfFound(chat.messages, cursor.value);
    }
  }

  /** The count of a conversation is the number of its messages that wait. */
  lemma CountIsWaiting(chat: Chat, user: UserId, c: ConversationId)
    requires Sound(chat)
    ensures UnreadIn(chat, user, c) ==
            |set i | 0 <= i < |chat.messages| && chat.messages[i].conversation == c &&
                     Waits(chat, user, chat.messages[i])|
  {
    var positions := set i | 0 <= i < |chat.messages| && chat.messages[i].conversation == c &&
                             Waits(chat, user, chat.messages[i]);
    forall m ensures UnreadFor(chat, user, m) <==> Waits(chat, user, m) {
      UnreadIsWaiting(chat, user, m);
    }
    CountIsSize(chat.messages, (m: Message) => m.conversation == c && UnreadFor(chat, user, m), positions);
  }

  /** The total is the number of messages that wait in the conversations the user is a member of. */
  lemma TotalIsWaiting(chat: Chat, user: UserId)
    requires Sound(chat)
    ensures TotalUnread(chat, user) ==
            |set i | 0 <= i < |chat.messages| && (chat.messages[i].conversation, user) in chat.members &&
                     Waits(chat, user, chat.messages[i])|
  {
    var positions := set i | 0 <= i < |chat.messages| && (chat.messages[i].conversation, user) in chat.members &&
                             Waits(chat, user, chat.messages[i]);
    forall m ensures UnreadFor(chat, user, m) <==> Waits(chat, user, m) {
      UnreadIsWaiting(chat, user, m);
    }
    TotalIsCount(chat, user, chat.messages);
    CountIsSize(chat.messages, (m: Message) => Counted(chat, user, m), positions);
  }

  /** Message info divides the members other than the author into those who have read up to it and the rest. */
  lemma InfoIsReading(chat: Chat, m: Message, user: UserId)
    requires Sound(chat) && m in chat.messages
    ensures var heard := (m.conversation, user) in chat.members && m.author != Some(user);
            && (user in Audience(chat, m) * ReadUsers(chat, m) <==> heard && HasReadUpTo(chat, user, m))
            && (user in UnreadBy(chat, m) <==> heard && !HasReadUpTo(chat, user, m))
  {
    assert user in Audience(chat, m) <==> (m.conversation, user) in chat.members && m.author != Some(user) by {
      if (m.conversation, user) in chat.members && m.author != Some(user) {
        assert (m.conversation, user).1 in Audience(chat, m);
      }
    }
    assert user in ReadUsers(chat, m) <==> HasReadUpTo(chat, user, m) by {
      ReadersAreThose(chat, m, user);
    }
  }

  lemma ReadersAreThose(chat: Chat, m: Message, user: UserId)
    requires Sound(chat) && m in chat.messages
    ensures user in ReadUsers(chat, m) <==> HasReadUpTo(chat, user, m)
  {
    ReadUpToByCursor(chat, user, m);
    var n :| 0 <= n < |chat.messages| && chat.messages[n] == m;
    TimeOfMessage(chat.messages, n);
    forall r | r in chat.cursors && r.conversation == m.conversation && r.user == user
      ensures r.lastRead == Cursor(chat.cursors, m.conversation, user)
    {
      var k :| 0 <= k < |chat.cursors| && chat.cursors[k] == r;
      CursorAt(chat.cursors, k);
    }
    if HasReadUpTo(chat, user, m) {
      var r, x :| r in chat.cursors && r.conversation == m.conversation && r.user == user &&
        x in chat.messages && r.lastRead == Some(x.id) && x.createdAt >= m.createdAt;
      assert HasRead(chat.messages, m, r.lastRead);
    }
  }

  // ----- The steps ----------------------------------------------------------------------------------------

  ghost predicate HasKind(chat: Chat, c: ConversationId, kind: ConversationType) {
    Conversation(c, kind) in chat.conversations
  }

  lemma {:induction false} KindIsStored(cs: seq<Conversation>, c: ConversationId)
    requires UniqueConversations(cs)
    ensures forall kind :: KindOf(cs, c) == Some(kind) <==> Conversation(c, kind) in cs
  {
    if cs != [] {
      assert cs == [cs[0]] + cs[1..];
      if cs[0].id == c {
        assert cs[0] == Conversation(c, cs[0].kind);
        assert forall k | 0 < k < |cs| :: cs[k].id != cs[0].id;
        assert forall x | x in cs[1..] :: x.id != cs[0].id;
      } else {
        KindIsStored(cs[1..], c);
      }
    }
  }

  /** The refusals of a send, in their order; an accepted one appends the message as sent and touches nothing else. */
  lemma SendActs(chat: Chat, sender: UserId, known: bool, c: ConversationId, channelOnly: bool, id: MessageId, now: int)
    requires Sound(chat)
    ensures var error, after := SendError(chat, sender, known, c, channelOnly),
                                Step(chat, Send(sender, known, c, channelOnly, id), now);
            if !known then error == Some(NotFound) && after == chat
            else if forall kind :: HasKind(chat, c, kind) ==> channelOnly && kind != Channel
            then error == Some(NotFound) && after == chat
            else if (c, sender) !in chat.members then error == Some(BadRequest) && after == chat
            else
              && error == None && after.messages == chat.messages + [Message(id, c, Some(sender), now, None)]
              && after.(messages := chat.messages) == chat
  {
    KindIsStored(chat.conversations, c);
    var stored := KindOf(chat.conversations, c);
    if stored.Some? {
      assert HasKind(chat, c, stored.value);
    }
  }

  /** A delete marks that message and touches nothing else. */
  lemma DeleteActs(chat: Chat, id: MessageId, now: int)
    requires Sound(chat)
    ensures var after := Step(chat, Delete(id), now);
            && after.(messages := chat.messages) == chat && |after.messages| == |chat.messages|
            && forall i | 0 <= i < |chat.messages| ::
                 after.messages[i] ==
                 if chat.messages[i].id == id then chat.messages[i].(deletedAt := Some(now)) else chat.messages[i]
  {
    var i := MessageIndex(chat.messages, id);
    if i < 0 {
      assert forall k | 0 <= k < |chat.messages| :: chat.messages[k] in chat.messages;
    }
  }

  /** Reading moves the user's row of that conversation to its newest message and touches nothing else. */
  lemma ReadActs(chat: Chat, user: UserId, c: ConversationId, now: int)
    requires Sound(chat)
    ensures var after := Step(chat, MarkRead(user, c), now);
            && after.(cursors := chat.cursors) == chat
            && (forall r: ReadRow | !(r.conversation == c && r.user == user) ::
                  r in after.cursors <==> r in chat.cursors)
            && ((forall m | m in chat.messages :: m.conversation != c) ==> after == chat)
            && (forall m | m in chat.messages && m.conversation == c :: HasReadUpTo(after, user, m))
            && (forall r | r in after.cursors && r.conversation == c && r.user == user && r !in chat.cursors ::
                  exists m :: m in chat.messages && m.conversation == c && r.lastRead == Some(m.id))
  {
    var after := MarkedRead(chat, user, c);
    LatestIsNewest(chat.messages, c);
    if Latest(chat.messages, c).Some? {
      var newest := Latest(chat.messages, c).value;
      var row := ReadRow(c, user, Some(newest.id));
      var i := ReadIndex(chat.cursors, c, user);
      var at := if i < 0 then |chat.cursors| else i;
      assert after.cursors[at] == row;
      assert row in after.cursors;
      RowsAreKept(chat.cursors, row, i, after.cursors);
    }
  }

  lemma RowsAreKept(cursors: seq<ReadRow>, row: ReadRow, i: int, after: seq<ReadRow>)
    requires -1 <= i < |cursors|
    requires i >= 0 ==> cursors[i].conversation == row.conversation && cursors[i].user == row.user
    requires after == if i < 0 then cursors + [row] else cursors[i := row]
    ensures forall r: ReadRow | !(r.conversation == row.conversation && r.user == row.user) ::
              r in after <==> r in cursors
    ensures forall r | r in after :: r == row || r in cursors
  {
    forall r: ReadRow | r in cursors && !(r.conversation == row.conversation && r.user == row.user) ensures r in after {
      var k :| 0 <= k < |cursors| && cursors[k] == r;
      assert after[k] == r;
    }
  }

  // ----- Runs ---------------------------------------------------------------------------------------------

  /** Every message is by a member of its conversation. */
  ghost predicate ByMembers(chat: Chat) {
    forall m | m in chat.messages :: m.author.Some? && (m.conversation, m.author.value) in chat.members
  }

  /** In every run all messages are by members, and once sent a message stays, at most deleted softly. */
  lemma {:induction false} RunIsByMembers(chat: Chat, events: seq<Timed>)
    requires Sound(chat) && OrderlyRun(chat, events) && ByMembers(chat)
    ensures var after := Run(chat, events);
            && ByMembers(after) && after.members == chat.members && after.conversations == chat.conversations
            && |chat.messages| <= |after.messages|
            && forall i | 0 <= i < |chat.messages| ::
                 after.messages[i].(deletedAt := None) == chat.messages[i].(deletedAt := None)
    decreases |events|
  {
    if events != [] {
      var t := events[0];
      var next := Step(chat, t.event, t.now);
      StepKeepsSound(chat, t);
      match t.event {
        case Send(sender, known, c, channelOnly, id) => SendActs(chat, sender, known, c, channelOnly, id, t.now);
        case Delete(id) => DeleteActs(chat, id, t.now);
        case MarkRead(user, c) => ReadActs(chat, user, c, t.now);
      }
      assert forall i | 0 <= i < |chat.messages| ::
          next.messages[i].(deletedAt := None) == chat.messages[i].(deletedAt := None);
      assert ByMembers(next) by {
        assert forall i | 0 <= i < |chat.messages| :: chat.messages[i] in chat.messages;
      }
      RunIsByMembers(next, events[1..]);
    }
  }
}
