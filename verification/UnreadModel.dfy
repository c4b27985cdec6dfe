/**
 Messages, read cursors and the four ways the chat service computes what is unread: per direct
 conversation, per channel, in total over a join, and per message for all members.
 */
module UnreadModel {
  import opened Common

  type MessageId = string
  type ConversationId = string

  datatype Conversation = Conversation(id: ConversationId, kind: ConversationType)

  datatype Message = Message(
    id: MessageId, conversation: ConversationId, author: Option<UserId>, createdAt: int, deletedAt: Option<int>)

  /** How far a user has read in a conversation; the table has one row per conversation and user. */
  datatype ReadRow = ReadRow(conversation: ConversationId, user: UserId, lastRead: Option<MessageId>)

  datatype Chat = Chat(
    conversations: seq<Conversation>, members: set<(ConversationId, UserId)>,
      messages: seq<Message>, cursors: seq<ReadRow>)

  datatype ChatError = NotFound | BadRequest

  // ----- Queries ----------------------------------------------------------------------------------------

  /** The creation time of the message with this id. */
  function TimeOf(messages: seq<Message>, id: MessageId): Option<int> {
    if messages == [] then None
    else if messages[|messages| - 1].id == id then Some(messages[|messages| - 1].createdAt)
    else TimeOf(messages[..|messages| - 1], id)
  }

  /** SQL: a null cursor filters nothing; a comparison with the time of a missing message is not true. */
  predicate After(messages: seq<Message>, m: Message, cursor: Option<MessageId>) {
    cursor.None? || (TimeOf(messages, cursor.value).Some? && m.createdAt > TimeOf(messages, cursor.value).value)
  }

  /** The cursor of a user in a conversation, None without a row. */
  function Cursor(cursors: seq<ReadRow>, c: ConversationId, user: UserId): Option<MessageId> {
    if cursors == [] then None
    else
      var last := cursors[|cursors| - 1];
      if last.conversation == c && last.user == user then last.lastRead
      else Cursor(cursors[..|cursors| - 1], c, user)
  }

  /** SQL: `authorId != user` is not true of a message without an author. */
  predicate ByOther(m: Message, user: UserId) {
    m.author.Some? && m.author.value != user
  }

  predicate UnreadFor(chat: Chat, user: UserId, m: Message) {
    ByOther(m, user) && m.deletedAt.None? && After(chat.messages, m, Cursor(chat.cursors, m.conversation, user))
  }

  /** The per-conversation count. */
  function UnreadIn(chat: Chat, user: UserId, c: ConversationId): nat {
    Count(chat.messages, (m: Message) => m.conversation == c && UnreadFor(chat, user, m))
  }

  /** Whether a conversation is listed for a user: a member, and of the wanted type if one is wanted. */
  predicate ListedFor(c: Conversation, members: set<(ConversationId, UserId)>,
                      user: UserId, kind: Option<ConversationType>)
  {
    (c.id, user) in members && (kind.None? || c.kind == kind.value)
  }

  /** The conversations a user is a member of, all or of one type. */
  function ConversationsOf(cs: seq<Conversation>, members: set<(ConversationId, UserId)>, user: UserId,
                           kind: Option<ConversationType>): seq<ConversationId>
  {
    if cs == [] then []
    else
      var rest := ConversationsOf(cs[..|cs| - 1], members, user, kind);
      if ListedFor(cs[|cs| - 1], members, user, kind) then rest + [cs[|cs| - 1].id] else rest
  }

  /** The cursor rows a message joins with. */
  function JoinRows(cursors: seq<ReadRow>, c: ConversationId, user: UserId): seq<ReadRow> {
    if cursors == [] then []
    else
      var rest := JoinRows(cursors[..|cursors| - 1], c, user);
      var last := cursors[|cursors| - 1];
      if last.conversation == c && last.user == user then rest + [last] else rest
  }

  /** The joined rows of one message that pass the filter: one row with null cursor if nothing joins. */
  function JoinCount(chat: Chat, user: UserId, m: Message): nat {
    var rows := JoinRows(chat.cursors, m.conversation, user);
    if !ByOther(m, user) || m.deletedAt.Some? || (m.conversation, user) !in chat.members then 0
    else if rows == [] then 1
    else Count(rows, (r: ReadRow) => After(chat.messages, m, r.lastRead))
  }

  /** The total over all of a user's conversations: the number of rows of the left join. */
  function TotalUnread(chat: Chat, user: UserId): nat {
    TotalOver(chat, user, chat.messages)
  }

  function TotalOver(chat: Chat, user: UserId, messages: seq<Message>): nat {
    if messages == [] then 0
    else TotalOver(chat, user, messages[..|messages| - 1]) + JoinCount(chat, user, messages[|messages| - 1])
  }

  /** Message info: a cursor at the message, or at one not older, counts as having read it. */
  predicate HasRead(messages: seq<Message>, m: Message, cursor: Option<MessageId>) {
    cursor.Some? &&
    (cursor.value == m.id ||
     (TimeOf(messages, cursor.value).Some? && TimeOf(messages, cursor.value).value >= m.createdAt))
  }

  function ReadUsers(chat: Chat, m: Message): set<UserId> {
    set r | r in chat.cursors && r.conversation == m.conversation && HasRead(chat.messages, m, r.lastRead) :: r.user
  }

  function Audience(chat: Chat, m: Message): set<UserId> {
    set p | p in chat.members && p.0 == m.conversation && m.author != Some(p.1) :: p.1
  }

  function UnreadBy(chat: Chat, m: Message): set<UserId> {
    Audience(chat, m) - ReadUsers(chat, m)
  }

  // ----- Steps ------------------------------------------------------------------------------------------

  function KindOf(cs: seq<Conversation>, c: ConversationId): Option<ConversationType> {
    if cs == [] then None
    else if cs[0].id == c then Some(cs[0].kind)
    else KindOf(cs[1..], c)
  }

  /** Whether a send is accepted; channel sends also want the conversation to be a channel. */
  function SendError(chat: Chat, sender: UserId, known: bool, c: ConversationId, channelOnly: bool): Option<ChatError> {
    if !known then Some(NotFound)
    else if KindOf(chat.conversations, c).None? then Some(NotFound)
    else if channelOnly && KindOf(chat.conversations, c) != Some(Channel) then Some(NotFound)
    else if (c, sender) !in chat.members then Some(BadRequest)
    else None
  }

  function Sent(chat: Chat, sender: UserId, c: ConversationId, id: MessageId, now: int): Chat {
    chat.(messages := chat.messages + [Message(id, c, Some(sender), now, None)])
  }

  function MessageIndex(messages: seq<Message>, id: MessageId): (i: int)
    ensures -1 <= i < |messages|
    ensures i >= 0 ==> messages[i].id == id
    ensures i < 0 ==> forall m | m in messages :: m.id != id
  {
    if messages == [] then -1
    else if messages[0].id == id then 0
    else
      var rest := MessageIndex(messages[1..], id);
      if rest < 0 then -1 else rest + 1
  }

  function Deleted(chat: Chat, id: MessageId, now: int): Chat {
    var i := MessageIndex(chat.messages, id);
    if i < 0 then chat
    else chat.(messages := chat.messages[i := chat.messages[i].(deletedAt := Some(now))])
  }

  /** The newest message of a conversation, deleted or not. */
  function Latest(messages: seq<Message>, c: ConversationId): Option<Message> {
    if messages == [] then None
    else
      var before := Latest(messages[..|messages| - 1], c);
      var last := messages[|messages| - 1];
      if last.conversation == c && (before.None? || before.value.createdAt < last.createdAt) then Some(last) else before
  }

  function ReadIndex(cursors: seq<ReadRow>, c: ConversationId, user: UserId): (i: int)
    ensures -1 <= i < |cursors|
    ensures i >= 0 ==> cursors[i].conversation == c && cursors[i].user == user
    ensures i < 0 ==> forall r | r in cursors :: !(r.conversation == c && r.user == user)
  {
    if cursors == [] then -1
    else if cursors[0].conversation == c && cursors[0].user == user then 0
    else
      var rest := ReadIndex(cursors[1..], c, user);
      if rest < 0 then -1 else rest + 1
  }

  function MarkedRead(chat: Chat, user: UserId, c: ConversationId): Chat {
    var latest := Latest(chat.messages, c);
    if latest.None? then chat
    else
      var row := ReadRow(c, user, Some(latest.value.id));
      var i := ReadIndex(chat.cursors, c, user);
      chat.(cursors := if i < 0 then chat.cursors + [row] else chat.cursors[i := row])
  }

  datatype Event =
    | Send(sender: UserId, known: bool, conversation: ConversationId, channelOnly: bool, newId: MessageId)
    | Delete(message: MessageId)
    | MarkRead(user: UserId, conversation: ConversationId)

  function Step(chat: Chat, e: Event, now: int): Chat {
    match e
    case Send(sender, known, c, channelOnly, id) =>
      if SendError(chat, sender, known, c, channelOnly).None? then Sent(chat, sender, c, id, now) else chat
    case Delete(id) => Deleted(chat, id, now)
    case MarkRead(user, c) => MarkedRead(chat, user, c)
  }

  datatype Timed = At(event: Event, now: int)

  function Run(chat: Chat, events: seq<Timed>): Chat
    decreases |events|
  {
    if events == [] then chat else Run(Step(chat, events[0].event, events[0].now), events[1..])
  }
}
