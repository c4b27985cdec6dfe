/** The views of "unread" agree, and sends, deletes and reads change them in exact ways. */
module UnreadProofs {
  import opened Common
  import opened UnreadModel

  ghost predicate UniqueMessages(ms: seq<Message>) {
    forall i, j | 0 <= i < j < |ms| :: ms[i].id != ms[j].id
  }

  ghost predicate UniqueCursors(cs: seq<ReadRow>) {
    forall i, j | 0 <= i < j < |cs| :: cs[i].conversation != cs[j].conversation || cs[i].user != cs[j].user
  }

  ghost predicate UniqueConversations(cs: seq<Conversation>) {
    forall i, j | 0 <= i < j < |cs| :: cs[i].id != cs[j].id
  }

  /** A cursor points to an existing message of its conversation. */
  ghost predicate Points(ms: seq<Message>, r: ReadRow) {
    r.lastRead.Some? ==>
      exists i :: 0 <= i < |ms| && ms[i].id == r.lastRead.value && ms[i].conversation == r.conversation
  }

  /** What every run keeps. */
  ghost predicate Sound(chat: Chat) {
    && UniqueConversations(chat.conversations)
    && UniqueMessages(chat.messages)
    && UniqueCursors(chat.cursors)
    && (forall r | r in chat.cursors :: Points(chat.messages, r))
    && (forall m | m in chat.messages :: KindOf(chat.conversations, m.conversation).Some?)
  }

  /** New messages get new ids and are later than every earlier message. */
  ghost predicate Orderly(chat: Chat, t: Timed) {
    t.event.Send? ==> forall m | m in chat.messages :: m.id != t.event.newId && m.createdAt < t.now
  }

  ghost predicate OrderlyRun(chat: Chat, events: seq<Timed>)
    decreases |events|
  {
    events == [] || (Orderly(chat, events[0]) && OrderlyRun(Step(chat, events[0].event, events[0].now), events[1..]))
  }

  // ----- Times and cursors ------------------------------------------------------------------------------

  lemma {:induction false} TimeOfMessage(ms: seq<Message>, i: nat)
    requires UniqueMessages(ms) && i < |ms|
    ensures TimeOf(ms, ms[i].id) == Some(ms[i].createdAt)
  {
    if i < |ms| - 1 {
      TimeOfMessage(ms[..|ms| - 1], i);
    }
  }

  lemma {:induction false} TimeOfFound(ms: seq<Message>, id: MessageId)
    ensures TimeOf(ms, id).Some? <==> exists i :: 0 <= i < |ms| && ms[i].id == id
    ensures TimeOf(ms, id).Some? ==>
              exists i :: 0 <= i < |ms| && ms[i].id == id && ms[i].createdAt == TimeOf(ms, id).value
  {
    if ms != [] && ms[|ms| - 1].id != id {
      var front := ms[..|ms| - 1];
      TimeOfFound(front, id);
      if i :| 0 <= i < |ms| && ms[i].id == id {
        assert front[i].id == id;
      }
      if TimeOf(front, id).Some? {
        var i :| 0 <= i < |front| && front[i].id == id && front[i].createdAt == TimeOf(front, id).value;
        assert ms[i] == front[i];
      }
    }
  }

  lemma TimeOfAppend(ms: seq<Message>, m: Message, id: MessageId)
    requires id != m.id
    ensures TimeOf(ms + [m], id) == TimeOf(ms, id)
  {
    assert (ms + [m])[..|ms|] == ms;
  }

  /** Soft deletion changes no time. */
  lemma {:induction false} TimeOfDelete(ms: seq<Message>, i: nat, at: Option<int>, id: MessageId)
    requires i < |ms|
    ensures TimeOf(ms[i := ms[i].(deletedAt := at)], id) == TimeOf(ms, id)
  {
    var last := |ms| - 1;
    var after := ms[i := ms[i].(deletedAt := at)];
    if i < last {
      TimeOfDelete(ms[..last], i, at, id);
      assert after[..last] == ms[..last][i := ms[i].(deletedAt := at)];
    } else {
      assert after[..last] == ms[..last];
    }
  }

  lemma {:induction false} CursorAt(cs: seq<ReadRow>, i: nat)
    requires UniqueCursors(cs) && i < |cs|
    ensures Cursor(cs, cs[i].conversation, cs[i].user) == cs[i].lastRead
  {
    if i < |cs| - 1 {
      CursorAt(cs[..|cs| - 1], i);
    }
  }

  lemma {:induction false} CursorFound(cs: seq<ReadRow>, c: ConversationId, user: UserId)
    ensures Cursor(cs, c, user).Some? ==>
              exists r :: r in cs && r.conversation == c && r.user == user && r.lastRead == Cursor(cs, c, user)
    ensures (forall r | r in cs :: !(r.conversation == c && r.user == user)) ==> Cursor(cs, c, user) == None
  {
    if cs != [] {
      var last := |cs| - 1;
      CursorFound(cs[..last], c, user);
      assert cs[last] in cs;
      assert forall r | r in cs[..last] :: r in cs;
    }
  }

  lemma {:induction false} CursorUpdateOther(cs: seq<ReadRow>, i: nat, row: ReadRow, c: ConversationId, user: UserId)
    requires i < |cs| && cs[i].conversation == row.conversation && cs[i].user == row.user
    requires c != row.conversation || user != row.user
    ensures Cursor(cs[i := row], c, user) == Cursor(cs, c, user)
  {
    var last := |cs| - 1;
    if i < last {
      CursorUpdateOther(cs[..last], i, row, c, user);
      assert cs[i := row][..last] == cs[..last][i := row];
    } else {
      assert cs[i := row][..last] == cs[..last];
    }
  }

  lemma {:induction false} LatestIsNewest(ms: seq<Message>, c: ConversationId)
    ensures Latest(ms, c).None? ==> forall m | m in ms :: m.conversation != c
    ensures Latest(ms, c).Some? ==>
              && Latest(ms, c).value in ms && Latest(ms, c).value.conversation == c
              && forall m | m in ms && m.conversation == c :: m.createdAt <= Latest(ms, c).value.createdAt
  {
    if ms != [] {
      var last := |ms| - 1;
      LatestIsNewest(ms[..last], c);
      assert ms == ms[..last] + [ms[last]];
    }
  }

  // ----- The views agree --------------------------------------------------------------------------------

  /**
   A member has a message in the per-conversation count exactly when the message is not deleted, has a
   known other author, and its message info lists the member as not having read it.
   */
  lemma InfoAgrees(chat: Chat, user: UserId, m: Message)
    requires Sound(chat) && m in chat.messages && (m.conversation, user) in chat.members
    ensures UnreadFor(chat, user, m) <==>
              m.deletedAt.None? && m.author.Some? && user in UnreadBy(chat, m)
  {
    var c := m.conversation;
    var cursor := Cursor(chat.cursors, c, user);
    CursorFound(chat.cursors, c, user);
    var i :| 0 <= i < |chat.messages| && chat.messages[i] == m;
    TimeOfMessage(chat.messages, i);
    assert user in Audience(chat, m) <==> m.author != Some(user) by {
      assert (c, user) in chat.members;
    }
    forall r | r in chat.cursors && r.conversation == c && r.user == user ensures r.lastRead == cursor {
      var k :| 0 <= k < |chat.cursors| && chat.cursors[k] == r;
      CursorAt(chat.cursors, k);
    }
    if cursor.Some? {
      var r :| r in chat.cursors && r.conversation == c && r.user == user && r.lastRead == cursor;
      assert Points(chat.messages, r);
      TimeOfFound(chat.messages, cursor.value);
      assert user in ReadUsers(chat, m) <==> HasRead(chat.messages, m, cursor);
    } else {
      assert user !in ReadUsers(chat, m);
    }
  }

  /** The per-conversation count is the number of such messages. */
  lemma CountAgreesWithInfo(chat: Chat, user: UserId, c: ConversationId)
    requires Sound(chat) && (c, user) in chat.members
    ensures UnreadIn(chat, user, c) ==
            Count(chat.messages, (m: Message) =>
              m.conversation == c && m.deletedAt.None? && m.author.Some? && user in UnreadBy(chat, m))
  {
    forall m | m in chat.messages && m.conversation == c
      ensures UnreadFor(chat, user, m) <==> m.deletedAt.None? && m.author.Some? && user in UnreadBy(chat, m)
    {
      InfoAgrees(chat, user, m);
    }
    CountSame(chat.messages, (m: Message) => m.conversation == c && UnreadFor(chat, user, m),
              (m: Message) => m.conversation == c && m.deletedAt.None? && m.author.Some? && user in UnreadBy(chat, m));
  }

  /** Because of the unique index a message joins with at most one cursor row: the join duplicates nothing. */
  lemma {:induction false} JoinIsUnique(cs: seq<ReadRow>, c: ConversationId, user: UserId)
    requires UniqueCursors(cs)
    ensures |JoinRows(cs, c, user)| <= 1
    ensures JoinRows(cs, c, user) == [] ==> Cursor(cs, c, user) == None
    ensures JoinRows(cs, c, user) != [] ==> JoinRows(cs, c, user)[0].lastRead == Cursor(cs, c, user)
    ensures forall r | r in JoinRows(cs, c, user) :: r in cs && r.conversation == c && r.user == user
  {
    if cs != [] {
      var last := |cs| - 1;
      JoinIsUnique(cs[..last], c, user);
      if JoinRows(cs[..last], c, user) != [] {
        var r := JoinRows(cs[..last], c, user)[0];
        assert r in cs[..last];
        var k :| 0 <= k < last && cs[..last][k] == r;
        assert cs[k] == r;
      }
    }
  }

  predicate Counted(chat: Chat, user: UserId, m: Message) {
    (m.conversation, user) in chat.members && UnreadFor(chat, user, m)
  }

  lemma JoinCountsOnce(chat: Chat, user: UserId, m: Message)
    requires UniqueCursors(chat.cursors)
    ensures JoinCount(chat, user, m) == if Counted(chat, user, m) then 1 else 0
  {
    JoinIsUnique(chat.cursors, m.conversation, user);
    var rows := JoinRows(chat.cursors, m.conversation, user);
    if rows != [] {
      assert rows == [] + [rows[0]];
      CountAppend([], rows[0], (r: ReadRow) => After(chat.messages, m, r.lastRead));
    }
  }

  lemma {:induction false} TotalIsCount(chat: Chat, user: UserId, ms: seq<Message>)
    requires UniqueCursors(chat.cursors)
    ensures TotalOver(chat, user, ms) == Count(ms, (m: Message) => Counted(chat, user, m))
  {
    var counted := (m: Message) => Counted(chat, user, m);
    if ms != [] {
      var last := |ms| - 1;
      TotalIsCount(chat, user, ms[..last]);
      JoinCountsOnce(chat, user, ms[last]);
      CountSame(ms[..last], counted, (m: Message) => Counted(chat, user, m));
    }
  }

  /** The sum of the per-conversation counts over a list of conversations. */
  function SumUnread(chat: Chat, user: UserId, ids: seq<ConversationId>): nat {
    if ids == [] then 0
    else SumUnread(chat, user, ids[..|ids| - 1]) + UnreadIn(chat, user, ids[|ids| - 1])
  }

  /** The messages of a list of conversations that are unread for a user. */
  predicate CountedIn(chat: Chat, user: UserId, ids: seq<ConversationId>, m: Message) {
    m.conversation in ids && UnreadFor(chat, user, m)
  }

  lemma {:induction false} CountSplit(ms: seq<Message>, p: Message -> bool, q: Message -> bool, both: Message -> bool)
    requires forall m | m in ms :: both(m) <==> p(m) || q(m)
    requires forall m | m in ms :: !(p(m) && q(m))
    ensures Count(ms, both) == Count(ms, p) + Count(ms, q)
  {
    if ms != [] {
      assert ms[|ms| - 1] in ms;
      assert forall m | m in ms[..|ms| - 1] :: m in ms;
      CountSplit(ms[..|ms| - 1], p, q, both);
    }
  }

  lemma {:induction false} SumIsCount(chat: Chat, user: UserId, ids: seq<ConversationId>)
    requires Distinct(ids)
    ensures SumUnread(chat, user, ids) == Count(chat.messages, (m: Message) => CountedIn(chat, user, ids, m))
  {
    var ms := chat.messages;
    if ids == [] {
      CountNone(ms, (m: Message) => CountedIn(chat, user, ids, m));
    } else {
      var last := |ids| - 1;
      var front, c := ids[..last], ids[last];
      SumIsCount(chat, user, front);
      assert ids == front + [c];
      assert c !in front;
      CountSplit(ms, (m: Message) => CountedIn(chat, user, front, m),
                 (m: Message) => m.conversation == c && UnreadFor(chat, user, m),
                 (m: Message) => CountedIn(chat, user, ids, m));
    }
  }

  lemma {:induction false} ListedConversations(cs: seq<Conversation>,
                                               members: set<(ConversationId, UserId)>, user: UserId,
                                               kind: Option<ConversationType>)
    requires UniqueConversations(cs)
    ensures Distinct(ConversationsOf(cs, members, user, kind))
    ensures forall id :: id in ConversationsOf(cs, members, user, kind) <==>
              exists i :: 0 <= i < |cs| && cs[i].id == id && ListedFor(cs[i], members, user, kind)
  {
    if cs != [] {
      var last := |cs| - 1;
      var front := cs[..last];
      ListedConversations(front, members, user, kind);
      var rest := ConversationsOf(front, members, user, kind);
      forall id | id in rest ensures id != cs[last].id {
        var i :| 0 <= i < |front| && front[i].id == id;
        assert front[i] == cs[i];
      }
      assert forall k | 0 <= k < |rest| :: rest[k] in rest;
      forall id ensures id in ConversationsOf(cs, members, user, kind) <==>
          exists i :: 0 <= i < |cs| && cs[i].id == id && ListedFor(cs[i], members, user, kind)
      {
        if i :| 0 <= i < |cs| && cs[i].id == id && ListedFor(cs[i], members, user, kind) {
          assert i < last ==> front[i] == cs[i];
        }
        if i :| 0 <= i < |front| && front[i].id == id && ListedFor(front[i], members, user, kind) {
          assert front[i] == cs[i];
        }
      }
    }
  }

  lemma {:induction false} KindOfListed(cs: seq<Conversation>, c: ConversationId)
    ensures KindOf(cs, c).Some? <==> exists i :: 0 <= i < |cs| && cs[i].id == c
  {
    if cs != [] && cs[0].id != c {
      KindOfListed(cs[1..], c);
      if i :| 0 <= i < |cs| && cs[i].id == c {
        assert cs[1..][i - 1].id == c;
      }
      if i :| 0 <= i < |cs[1..]| && cs[1..][i].id == c {
        assert cs[i + 1].id == c;
      }
    }
  }

  /** The joined total is the sum of the per-conversation counts over all of the user's conversations. */
  lemma TotalIsSum(chat: Chat, user: UserId)
    requires Sound(chat)
    ensures TotalUnread(chat, user) ==
            SumUnread(chat, user, ConversationsOf(chat.conversations, chat.members, user, None))
  {
    var ids := ConversationsOf(chat.conversations, chat.members, user, None);
    ListedConversations(chat.conversations, chat.members, user, None);
    TotalIsCount(chat, user, chat.messages);
    SumIsCount(chat, user, ids);
    forall m | m in chat.messages ensures Counted(chat, user, m) <==> CountedIn(chat, user, ids, m) {
      KindOfListed(chat.conversations, m.conversation);
      var i :| 0 <= i < |chat.conversations| && chat.conversations[i].id == m.conversation;
      if (m.conversation, user) in chat.members {
        assert ListedFor(chat.conversations[i], chat.members, user, None);
      }
    }
    CountSame(chat.messages, (m: Message) => Counted(chat, user, m), (m: Message) => CountedIn(chat, user, ids, m));
  }

  lemma SumAppend(chat: Chat, user: UserId, ids: seq<ConversationId>, c: ConversationId)
    ensures SumUnread(chat, user, ids + [c]) == SumUnread(chat, user, ids) + UnreadIn(chat, user, c)
  {
    assert (ids + [c])[..|ids|] == ids;
  }

  /** What one view shows: the sum over the user's conversations of a type, or of all types. */
  function Shown(chat: Chat, user: UserId, cs: seq<Conversation>, kind: Option<ConversationType>): nat {
    SumUnread(chat, user, ConversationsOf(cs, chat.members, user, kind))
  }

  lemma ShownStep(chat: Chat, user: UserId, cs: seq<Conversation>, kind: Option<ConversationType>)
    requires cs != []
    ensures var last := cs[|cs| - 1];
            Shown(chat, user, cs, kind) == Shown(chat, user, cs[..|cs| - 1], kind) +
                                           if ListedFor(last, chat.members, user, kind)
                                             then UnreadIn(chat, user, last.id) else 0
  {
    SumAppend(chat, user, ConversationsOf(cs[..|cs| - 1], chat.members, user, kind), cs[|cs| - 1].id);
  }

  /** The list of all conversations splits into the lists by type. */
  lemma {:induction false} ShownByKind(chat: Chat, user: UserId, cs: seq<Conversation>)
    ensures Shown(chat, user, cs, None) ==
            Shown(chat, user, cs, Some(Direct)) + Shown(chat, user, cs, Some(Channel)) +
            Shown(chat, user, cs, Some(PrivateChannel)) + Shown(chat, user, cs, Some(GroupDirect))
  {
    if cs != [] {
      ShownByKind(chat, user, cs[..|cs| - 1]);
      ShownStep(chat, user, cs, None);
      ShownStep(chat, user, cs, Some(Direct));
      ShownStep(chat, user, cs, Some(Channel));
      ShownStep(chat, user, cs, Some(PrivateChannel));
      ShownStep(chat, user, cs, Some(GroupDirect));
    }
  }

  /** The total is what the direct, channel, private channel and group views show together. */
  lemma TotalIsSumOfKinds(chat: Chat, user: UserId)
    requires Sound(chat)
    ensures var cs := chat.conversations;
            TotalUnread(chat, user) ==
            Shown(chat, user, cs, Some(Direct)) + Shown(chat, user, cs, Some(Channel)) +
            Shown(chat, user, cs, Some(PrivateChannel)) + Shown(chat, user, cs, Some(GroupDirect))
  {
    TotalIsSum(chat, user);
    ShownByKind(chat, user, chat.conversations);
  }
}
