/** The message handlers: send, list, delete, edit, mark as read, and per-message read
    statistics. */
module MessageController {
  import opened Documents
  import opened Sorting
  import opened ConversationModel
  import opened MessageModel
  import opened Store

  /** Length of the content preview in the read statistics, before the "..." marker. */
  const PreviewLength: nat := 50

  /** getMessages: exactly the messages of the conversation, oldest first. An unknown
      conversation simply has no messages. */
  function MessagesOf(msgs: seq<Doc<Message>>, conversation: Id): (r: seq<Doc<Message>>)
    ensures forall d :: d in r <==> d in msgs && d.body.conversation == conversation
    ensures forall i, j :: 0 <= i < j < |r| ==> r[i].body.timestamp <= r[j].body.timestamp
    ensures multiset(r) == multiset(Where(msgs, InConversation(conversation)))
    ensures forall d :: multiset(r)[d] == if d.body.conversation == conversation then multiset(msgs)[d] else 0
  {
    var w := Where(msgs, InConversation(conversation));
    WhereCounts(msgs, InConversation(conversation));
    var r := SortBy(w, Timestamp);
    assert forall d :: d in r <==> d in w by {
      forall d ensures d in r <==> d in w {
        assert d in r <==> d in multiset(r);
        assert d in w <==> d in multiset(w);
      }
    }
    r
  }

  /** sendMessage: the conversation must exist and the sender must be one of its
      participants; the new message is appended under a fresh id. */
  method SendMessage(db: Db, conversationId: Id, senderId: Id, content: string, now: nat)
    returns (r: Response<Doc<Message>>)
    requires db.Valid()
    modifies db
    ensures db.Valid()
    ensures db.conversations == old(db.conversations) && db.friendships == old(db.friendships)
    ensures db.users == old(db.users)
    ensures FindById(db.conversations, conversationId).None? ==> r == Fail(NotFound)
    ensures var k := FindById(db.conversations, conversationId);
      k.Some? && senderId !in db.conversations[k.value].body.participants ==> r == Fail(Forbidden)
    ensures var k := FindById(db.conversations, conversationId);
      k.Some? && senderId in db.conversations[k.value].body.participants ==>
        r == Ok(Doc(old(db.nextId), NewMessage(conversationId, senderId, content, now)))
    ensures r.Fail? ==> db.messages == old(db.messages)
    ensures r.Ok? ==> db.messages == old(db.messages) + [r.value]
  {
    var k := FindById(db.conversations, conversationId);
    if k.None? {
      return Fail(NotFound);
    }
    if senderId !in db.conversations[k.value].body.participants {
      return Fail(Forbidden);
    }
    var id := db.FreshId();
    var d := Doc(id, NewMessage(conversationId, senderId, content, now));
    db.messages := db.messages + [d];
    r := Ok(d);
  }

  /** deleteMessage: only the sender may delete; exactly that message goes. */
  method DeleteMessage(db: Db, messageId: Id, userId: Id) returns (r: Response<()>)
    requires db.Valid()
    modifies db`messages
    ensures db.Valid()
    ensures FindById(old(db.messages), messageId).None? ==> r == Fail(NotFound)
    ensures var k := FindById(old(db.messages), messageId);
      k.Some? && old(db.messages)[k.value].body.sender != userId ==> r == Fail(Forbidden)
    ensures var k := FindById(old(db.messages), messageId);
      k.Some? && old(db.messages)[k.value].body.sender == userId ==> r == Ok(())
    ensures r.Fail? ==> db.messages == old(db.messages)
    ensures r.Ok? ==> db.messages == Where(old(db.messages), Not(HasId(messageId)))
    ensures r.Ok? ==> forall d :: d in db.messages <==> d in old(db.messages) && d.id != messageId
  {
    var k := FindById(db.messages, messageId);
    if k.None? {
      return Fail(NotFound);
    }
    if db.messages[k.value].body.sender != userId {
      return Fail(Forbidden);
    }
    WhereKeepsUniqueIds(db.messages, Not(HasId(messageId)));
    db.messages := Where(db.messages, Not(HasId(messageId)));
    r := Ok(());
  }

  /** updateMessage: only the sender may edit; the content is overwritten and the message
      marked edited at `now`. Sender, conversation, timestamp and readers stay. */
  method UpdateMessage(db: Db, messageId: Id, userId: Id, content: string, now: nat)
    returns (r: Response<Doc<Message>>)
    requires db.Valid()
    modifies db`messages
    ensures db.Valid()
    ensures FindById(old(db.messages), messageId).None? ==> r == Fail(NotFound)
    ensures var k := FindById(old(db.messages), messageId);
      k.Some? && old(db.messages)[k.value].body.sender != userId ==> r == Fail(Forbidden)
    ensures var k := FindById(old(db.messages), messageId);
      k.Some? && old(db.messages)[k.value].body.sender == userId ==> r.Ok?
    ensures r.Fail? ==> db.messages == old(db.messages)
    ensures r.Ok? ==> var k := FindById(old(db.messages), messageId); var m := old(db.messages)[k.value].body;
      && k.Some? && m.sender == userId
      && r.value.id == messageId
      && r.value.body.content == content && r.value.body.edited && r.value.body.editedAt == Some(now)
      && r.value.body.sender == m.sender && r.value.body.conversation == m.conversation
      && r.value.body.timestamp == m.timestamp && r.value.body.readBy == m.readBy
      && db.messages == old(db.messages)[k.value := r.value]
  {
    var k := FindById(db.messages, messageId);
    if k.None? {
      return Fail(NotFound);
    }
    var m := db.messages[k.value].body;
    if m.sender != userId {
      return Fail(Forbidden);
    }
    var d := Doc(messageId, m.(content := content, edited := true, editedAt := Some(now)));
    db.messages := db.messages[k.value := d];
    r := Ok(d);
  }

  /** markMessageAsRead: a reader already recorded is answered alreadyRead = true and
      nothing changes; otherwise the reader is added and alreadyRead = false. */
  method MarkMessageAsRead(db: Db, messageId: Id, userId: Id)
    returns (r: Response<(Doc<Message>, bool)>)
    requires db.Valid()
    modifies db`messages
    ensures db.Valid()
    ensures FindById(old(db.messages), messageId).None? <==> r == Fail(NotFound)
    ensures FindById(old(db.messages), messageId).Some? <==> r.Ok?
    ensures r.Fail? ==> db.messages == old(db.messages)
    ensures r.Ok? ==> var k := FindById(old(db.messages), messageId); var m := old(db.messages)[k.value];
      && k.Some?
      && r.value.1 == IsReadBy(m.body, userId)
      && r.value.0 == Doc(messageId, MarkAsReadBy(m.body, userId))
      && (r.value.1 ==> db.messages == old(db.messages))
      && db.messages == old(db.messages)[k.value := r.value.0]
  {
    var k := FindById(db.messages, messageId);
    if k.None? {
      return Fail(NotFound);
    }
    var m := db.messages[k.value];
    if IsReadBy(m.body, userId) {
      return Ok((m, true));
    }
    var d := Doc(messageId, MarkAsReadBy(m.body, userId));
    db.messages := db.messages[k.value := d];
    r := Ok((d, false));
  }

  /** Marking the same message read twice: the second call reports alreadyRead and leaves
      the store as the first call left it. */
  method MarkAsReadTwice(db: Db, messageId: Id, userId: Id)
    returns (first: Response<(Doc<Message>, bool)>, second: Response<(Doc<Message>, bool)>)
    requires db.Valid()
    modifies db`messages
    ensures db.Valid()
    ensures first.Ok? <==> second.Ok?
    ensures second.Ok? ==> second.value.1 && second.value.0 == first.value.0
    ensures second.Ok? ==> userId in second.value.0.body.readBy
    ensures first.Fail? ==> db.messages == old(db.messages)
    ensures first.Ok? ==>
      && FindById(old(db.messages), messageId).Some?
      && db.messages == old(db.messages)[FindById(old(db.messages), messageId).value := first.value.0]
  {
    first := MarkMessageAsRead(db, messageId, userId);
    if first.Ok? {
      var k := FindById(old(db.messages), messageId).value;
      assert db.messages[k] == first.value.0;
      FindByIdFindsMember(db.messages, k);
      assert FindById(db.messages, messageId) == Some(k);
    }
    second := MarkMessageAsRead(db, messageId, userId);
  }

  /** The content preview of the read statistics: the first 50 characters, then "...",
      which is appended even to a shorter content. */
  function Preview(content: string): (p: string)
    ensures |p| == (if |content| < PreviewLength then |content| else PreviewLength) + 3
    ensures |p| <= PreviewLength + 3
    ensures p[..|p| - 3] == content[..|p| - 3] && p[|p| - 3..] == "..."
    ensures |content| <= PreviewLength ==> p == content + "..."
  {
    content[..if |content| < PreviewLength then |content| else PreviewLength] + "..."
  }

  datatype ReadStatsView = ReadStatsView(
    messageId: Id, preview: string, sender: Id, timestamp: nat, readers: set<Id>)

  /** getMessageReadStats (per message). */
  function ReadStats(msgs: seq<Doc<Message>>, messageId: Id): (r: Response<ReadStatsView>)
    ensures FindById(msgs, messageId).None? <==> r == Fail(NotFound)
    ensures r.Ok? ==> var m := msgs[FindById(msgs, messageId).value].body;
      && r.value.messageId == messageId && r.value.sender == m.sender
      && r.value.timestamp == m.timestamp && r.value.readers == m.readBy
      && r.value.preview == Preview(m.content)
  {
    match FindById(msgs, messageId)
    case None => Fail(NotFound)
    case Some(k) =>
      var m := msgs[k].body;
      Ok(ReadStatsView(messageId, Preview(m.content), m.sender, m.timestamp, m.readBy))
  }
}
