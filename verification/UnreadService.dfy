/** The chat service's message and read-state operations. */
module UnreadService {
  import opened Common
  import opened UnreadModel

  class ChatService {
    var conversations: seq<Conversation>
    var members: set<(ConversationId, UserId)>
    var messages: seq<Message>
    var cursors: seq<ReadRow>

    ghost function State(): Chat
      reads this
    {
      Chat(conversations, members, messages, cursors)
    }

    constructor (conversations: seq<Conversation>, members: set<(ConversationId, UserId)>)
      ensures State() == Chat(conversations, members, [], [])
    {
      this.conversations, this.members, messages, cursors := conversations, members, [], [];
    }

    /** `known` says whether the staff table has the sender; `id` is a new uuid. */
    method SendMessage(senderId: UserId, known: bool, conversationId: ConversationId, id: MessageId, now: int)
      returns (r: Result<Message, ChatError>)
      modifies this`messages
      ensures State() == Step(old(State()), Send(senderId, known, conversationId, false, id), now)
      ensures r.Success? <==> SendError(old(State()), senderId, known, conversationId, false).None?
      ensures r.Failure? ==> SendError(old(State()), senderId, known, conversationId, false) == Some(r.error)
      ensures r.Success? ==> messages == old(messages) + [r.value]
    {
      if !known {
        return Failure(NotFound);
      }
      if KindOf(conversations, conversationId).None? {
        return Failure(NotFound);
      }
      if (conversationId, senderId) !in members {
        return Failure(BadRequest);
      }
      var message := Message(id, conversationId, Some(senderId), now, None);
      messages := messages + [message];
      r := Success(message);
    }

    method SendChannelMessage(senderId: UserId, known: bool, channelId: ConversationId, id: MessageId, now: int)
      returns (r: Result<Message, ChatError>)
      modifies this`messages
      ensures State() == Step(old(State()), Send(senderId, known, channelId, true, id), now)
      ensures r.Success? <==> SendError(old(State()), senderId, known, channelId, true).None?
      ensures r.Failure? ==> SendError(old(State()), senderId, known, channelId, true) == Some(r.error)
      ensures r.Success? ==> messages == old(messages) + [r.value]
    {
      if !known {
        return Failure(NotFound);
      }
      if KindOf(conversations, channelId) != Some(Channel) {
        return Failure(NotFound);
      }
      if (channelId, senderId) !in members {
        return Failure(BadRequest);
      }
      var message := Message(id, channelId, Some(senderId), now, None);
      messages := messages + [message];
      r := Success(message);
    }

    /** A soft delete; nobody is refused. */
    method DeleteMessage(messageId: MessageId, now: int) returns (found: bool)
      modifies this`messages
      ensures State() == Step(old(State()), Delete(messageId), now)
      ensures found <==> MessageIndex(old(messages), messageId) >= 0
    {
      var i := MessageIndex(messages, messageId);
      if i < 0 {
        return false;
      }
      messages := messages[i := messages[i].(deletedAt := Some(now))];
      found := true;
    }

    method MarkConversationAsRead(userId: UserId, conversationId: ConversationId)
      modifies this`cursors
      ensures State() == MarkedRead(old(State()), userId, conversationId)
    {
      var lastMessage := LatestMessage(conversationId);
      if lastMessage.None? {
        return;
      }
      var i := ReadIndex(cursors, conversationId, userId);
      if i < 0 {
        cursors := cursors + [ReadRow(conversationId, userId, Some(lastMessage.value.id))];
      } else {
        cursors := cursors[i := cursors[i].(lastRead := Some(lastMessage.value.id))];
      }
    }

    method LatestMessage(conversationId: ConversationId) returns (latest: Option<Message>)
      ensures latest == Latest(messages, conversationId)
    {
      latest := None;
      for i := 0 to |messages|
        invariant latest == Latest(messages[..i], conversationId)
      {
        assert messages[..i + 1][..i] == messages[..i];
        if messages[i].conversation == conversationId &&
          (latest.None? || latest.value.createdAt < messages[i].createdAt) {
          latest := Some(messages[i]);
        }
      }
      assert messages[..|messages|] == messages;
    }

    /** The unread counts of a user's conversations of one type: direct conversations, or channels. */
    method GetUnreadCounts(userId: UserId, kind: ConversationType) returns (counts: seq<(ConversationId, nat)>)
      ensures var ids := ConversationsOf(conversations, members, userId, Some(kind));
              && |counts| == |ids|
              && forall i | 0 <= i < |ids| :: counts[i] == (ids[i], UnreadIn(State(), userId, ids[i]))
    {
      var conversationIds := ConversationsOf(conversations, members, userId, Some(kind));
      var readMap := map[];
      for i := 0 to |cursors|
        invariant forall c | c in readMap :: c in conversationIds && readMap[c] == Cursor(cursors[..i], c, userId)
        invariant forall c | c in conversationIds && c !in readMap :: Cursor(cursors[..i], c, userId) == None
      {
        assert cursors[..i + 1][..i] == cursors[..i];
        if cursors[i].user == userId && cursors[i].conversation in conversationIds {
          readMap := readMap[cursors[i].conversation := cursors[i].lastRead];
        }
      }
      assert cursors[..|cursors|] == cursors;
      counts := [];
      for i := 0 to |conversationIds|
        invariant |counts| == i
        invariant forall k | 0 <= k < i ::
                  counts[k] == (conversationIds[k], UnreadIn(State(), userId, conversationIds[k]))
      {
        var c := conversationIds[i];
        var lastReadMessageId := if c in readMap then readMap[c] else None;
        var count := CountUnread(userId, c, lastReadMessageId);
        counts := counts + [(c, count)];
      }
    }

    /** The count query: messages of the conversation by somebody else, not deleted, after the cursor if any. */
    method CountUnread(userId: UserId, c: ConversationId, lastRead: Option<MessageId>) returns (n: nat)
      requires lastRead == Cursor(cursors, c, userId)
      ensures n == UnreadIn(State(), userId, c)
    {
      var msgs := messages;
      n := Count(msgs, (m: Message) => m.conversation == c && ByOther(m, userId) &&
                 m.deletedAt.None? && After(msgs, m, lastRead));
      ghost var chat := State();
      CountSame(msgs, (m: Message) => m.conversation == c && ByOther(m, userId) &&
                m.deletedAt.None? && After(msgs, m, lastRead),
                (m: Message) => m.conversation == c && UnreadFor(chat, userId, m));
    }

    /** Who has and who has not read a message, of the members other than its author. */
    method GetMessageInfo(messageId: MessageId) returns (r: Option<(set<UserId>, set<UserId>)>)
      ensures r.None? <==> MessageIndex(messages, messageId) < 0
      ensures r.Some? ==>
                var m := messages[MessageIndex(messages, messageId)];
                r.value == (Audience(State(), m) * ReadUsers(State(), m), UnreadBy(State(), m))
    {
      var i := MessageIndex(messages, messageId);
      if i < 0 {
        return None;
      }
      var message := messages[i];
      var readUserIds := {};
      for k := 0 to |cursors|
        invariant readUserIds == ReadUsers(Chat(conversations, members, messages, cursors[..k]), message)
      {
        var row := cursors[k];
        assert cursors[..k + 1] == cursors[..k] + [row];
        if row.conversation == message.conversation && row.lastRead.Some? {
          var lastReadTime := TimeOf(messages, row.lastRead.value);
          if row.lastRead.value == message.id || (lastReadTime.Some? && lastReadTime.value >= message.createdAt) {
            readUserIds := readUserIds + {row.user};
          }
        }
      }
      assert cursors[..|cursors|] == cursors;
      var readBy, unreadBy, rest := {}, {}, members;
      while rest != {}
        invariant rest <= members
        invariant readBy == Audience(Chat(conversations, members - rest, messages, cursors), message) * readUserIds
        invariant unreadBy == Audience(Chat(conversations, members - rest, messages, cursors), message) - readUserIds
        decreases rest
      {
        var member :| member in rest;
        rest := rest - {member};
        if member.0 == message.conversation && message.author != Some(member.1) {
          if member.1 in readUserIds {
            readBy := readBy + {member.1};
          } else {
            unreadBy := unreadBy + {member.1};
          }
        }
      }
      assert members - rest == members;
      r := Some((readBy, unreadBy));
    }
  }
}
