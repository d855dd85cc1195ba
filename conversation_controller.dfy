/** The conversation handlers: find-or-create by exact participant list, strict add and
    remove of a participant, the user's conversations, one conversation with its messages,
    the unread count, and the cascading delete. */
module ConversationController {
  import opened Documents
  import opened Sorting
  import opened ConversationModel
  import opened MessageModel
  import opened Store
  import MessageController

  /** The lookup `{ participants: { $all: requested, $size: |requested| } }`: the stored list
      holds every requested id and is exactly as long as the request. */
  predicate ExactMatch(stored: seq<Id>, requested: seq<Id>) {
    (forall x :: x in requested ==> x in stored) && |stored| == |requested|
  }

  function WithParticipants(requested: seq<Id>): Doc<Conversation> -> bool {
    (d: Doc<Conversation>) => ExactMatch(d.body.participants, requested)
  }

  ghost predicate NoDuplicates(s: seq<Id>) {
    forall i, j :: 0 <= i < j < |s| ==> s[i] != s[j]
  }

  ghost function Members(s: seq<Id>): set<Id> {
    set x | x in s
  }

  lemma {:induction false} DistinctMembers(s: seq<Id>)
    requires NoDuplicates(s)
    ensures |Members(s)| == |s|
  {
    if s != [] {
      var t := s[1..];
      assert NoDuplicates(t) by {
        forall i, j | 0 <= i < j < |t| ensures t[i] != t[j] {
          assert t[i] == s[i + 1] && t[j] == s[j + 1];
        }
      }
      DistinctMembers(t);
      assert Members(s) == {s[0]} + Members(t);
      assert s[0] !in Members(t);
    }
  }

  /** For lists without repeated ids the lookup is exactly set equality of participants. */
  lemma ExactMatchIsSetEquality(stored: seq<Id>, requested: seq<Id>)
    requires NoDuplicates(stored) && NoDuplicates(requested)
    ensures ExactMatch(stored, requested) <==> Members(stored) == Members(requested)
  {
    DistinctMembers(stored);
    DistinctMembers(requested);
    var a, b := Members(requested), Members(stored);
    if ExactMatch(stored, requested) {
      assert a <= b;
      assert b == a + (b - a);
      assert |b| == |a| + |b - a|;
      assert b - a == {};
    }
    if a == b {
      assert forall x :: x in requested ==> x in a;
    }
  }

  /** With a repeated id the lookup is not set equality: [a, a] finds the conversation of
      a and b. */
  lemma RepeatedIdMatchesOtherConversation(a: Id, b: Id)
    requires a != b
    ensures ExactMatch([a, b], [a, a]) && Members([a, b]) != Members([a, a])
  {
    assert b in Members([a, b]);
  }

  /** The document createConversation saves when no conversation matches: isGroup is the
      requested flag or false, and groupName is kept only for a group and only when
      non-empty. */
  function RequestedConversation(participants: seq<Id>, createdBy: Id, isGroup: Option<bool>,
                                 groupName: Option<string>, now: nat): (c: Conversation)
    ensures c.participants == participants && c.createdBy == createdBy
    ensures c.isGroup <==> isGroup == Some(true)
    ensures c.groupName.Some? <==> c.isGroup && groupName.Some? && groupName.value != ""
    ensures c.groupName.Some? ==> c.groupName == groupName
    ensures c.lastMessage.None? && c.createdAt == now && c.lastActivity == now
  {
    var flag := isGroup == Some(true);
    var name := if flag && groupName.Some? && groupName.value != "" then groupName else None;
    NewConversation(participants, createdBy, Some(flag), name, now)
  }

  /** createConversation. */
  method CreateConversation(db: Db, participants: seq<Id>, createdBy: Option<Id>,
                            isGroup: Option<bool>, groupName: Option<string>, now: nat)
    returns (r: Response<Doc<Conversation>>)
    requires db.Valid()
    modifies db
    ensures db.Valid()
    ensures db.messages == old(db.messages) && db.friendships == old(db.friendships)
    ensures db.users == old(db.users)
    ensures r.Fail? ==> db.conversations == old(db.conversations)
    // an exact match is returned and nothing is added
    ensures var k := FindFirst(old(db.conversations), WithParticipants(participants));
      k.Some? ==> r == Ok(old(db.conversations)[k.value]) && db.conversations == old(db.conversations)
    // no match: the count bounds, then createdBy
    ensures FindFirst(old(db.conversations), WithParticipants(participants)).None? ==>
      && (|participants| < MinParticipants ==> r == Fail(BadRequest))
      && (|participants| > MaxParticipants ==> r == Fail(BadRequest))
      && (createdBy.None? ==> r == Fail(BadRequest))
    // no match, request well formed: the schema decides
    ensures (FindFirst(old(db.conversations), WithParticipants(participants)).None? &&
      MinParticipants <= |participants| <= MaxParticipants && createdBy.Some?) ==>
      var c := RequestedConversation(participants, createdBy.value, isGroup, groupName, now);
      && (SchemaValid(c) ==> r == Ok(Doc(old(db.nextId), Stamped(c, now))))
      && (!SchemaValid(c) ==> r == Fail(ServerError))
    ensures r.Ok? && FindFirst(old(db.conversations), WithParticipants(participants)).None? ==>
      db.conversations == old(db.conversations) + [r.value]
  {
    var k := FindFirst(db.conversations, WithParticipants(participants));
    if k.Some? {
      return Ok(db.conversations[k.value]);
    }
    if |participants| < MinParticipants {
      return Fail(BadRequest);
    }
    if |participants| > MaxParticipants {
      return Fail(BadRequest);
    }
    if createdBy.None? {
      return Fail(BadRequest);
    }
    var c := RequestedConversation(participants, createdBy.value, isGroup, groupName, now);
    var saved := db.InsertConversation(c, now);
    if saved.None? {
      return Fail(ServerError);
    }
    r := Ok(saved.value);
  }

  /** Calling createConversation twice with the same request gives the same answer, and the
      second call changes nothing. */
  method CreateTwice(db: Db, participants: seq<Id>, createdBy: Option<Id>,
                     isGroup: Option<bool>, groupName: Option<string>, now: nat, later: nat)
    returns (first: Response<Doc<Conversation>>, second: Response<Doc<Conversation>>)
    requires db.Valid()
    modifies db
    ensures db.Valid()
    ensures second == first
    ensures |db.conversations| <= |old(db.conversations)| + 1
    ensures db.messages == old(db.messages) && db.friendships == old(db.friendships)
    ensures db.users == old(db.users)
    ensures db.conversations == old(db.conversations) ||
            (first.Ok? && db.conversations == old(db.conversations) + [first.value])
  {
    if createdBy.Some? {
      var c := RequestedConversation(participants, createdBy.value, isGroup, groupName, now);
      var c' := RequestedConversation(participants, createdBy.value, isGroup, groupName, later);
      assert SchemaValid(c) == SchemaValid(c');
    }
    first := CreateConversation(db, participants, createdBy, isGroup, groupName, now);
    ghost var between := db.conversations;
    if first.Ok? && between != old(db.conversations) {
      var p := WithParticipants(participants);
      assert p(between[|between| - 1]);
      assert FindFirst(between, p) == Some(|between| - 1);
    }
    second := CreateConversation(db, participants, createdBy, isGroup, groupName, later);
  }

  /** The participant list with every occurrence of x filtered out. */
  function Without(ps: seq<Id>, x: Id): (r: seq<Id>)
    ensures forall y :: y in r <==> y in ps && y != x
    ensures |r| <= |ps|
    ensures x in ps ==> |r| < |ps|
    ensures x !in ps ==> r == ps
  {
    if ps == [] then []
    else
      assert ps == [ps[0]] + ps[1..];
      (if ps[0] == x then [] else [ps[0]]) + Without(ps[1..], x)
  }

  /** Filtering keeps the order of the other participants: it distributes over
      concatenation. */
  lemma {:induction false} WithoutDistributes(a: seq<Id>, b: seq<Id>, x: Id)
    ensures Without(a + b, x) == Without(a, x) + Without(b, x)
  {
    if a == [] {
      assert a + b == b;
    } else {
      assert (a + b)[0] == a[0];
      assert (a + b)[1..] == a[1..] + b;
      WithoutDistributes(a[1..], b, x);
    }
  }

  /** addParticipantToConversation. */
  method AddParticipant(db: Db, conversationId: Id, participantId: Id, now: nat)
    returns (r: Response<()>)
    requires db.Valid()
    modifies db`conversations
    ensures db.Valid()
    ensures r.Fail? ==> db.conversations == old(db.conversations)
    ensures FindById(old(db.conversations), conversationId).None? ==> r == Fail(NotFound)
    ensures var k := FindById(old(db.conversations), conversationId);
      k.Some? && participantId in old(db.conversations)[k.value].body.participants ==>
        r == Fail(BadRequest)
    ensures var k := FindById(old(db.conversations), conversationId);
      k.Some? && participantId !in old(db.conversations)[k.value].body.participants ==>
        var c := old(db.conversations)[k.value].body;
        var c' := c.(participants := c.participants + [participantId]);
        && (r.Ok? <==> |c.participants| < MaxParticipants)
        && (r.Ok? ==> db.conversations == old(db.conversations)[k.value := Doc(conversationId, Stamped(c', now))])
        && (r.Fail? ==> r == Fail(ServerError))
  {
    var k := FindById(db.conversations, conversationId);
    if k.None? {
      return Fail(NotFound);
    }
    var c := db.conversations[k.value].body;
    if participantId in c.participants {
      return Fail(BadRequest);
    }
    assert SchemaValid(c);
    var c' := c.(participants := c.participants + [participantId]);
    var ok := db.UpdateConversation(k.value, c', now);
    if !ok {
      return Fail(ServerError);
    }
    r := Ok(());
  }

  /** removeParticipantFromConversation. */
  method RemoveParticipant(db: Db, conversationId: Id, participantId: Id, now: nat)
    returns (r: Response<()>)
    requires db.Valid()
    modifies db`conversations
    ensures db.Valid()
    ensures r.Fail? ==> db.conversations == old(db.conversations)
    ensures FindById(old(db.conversations), conversationId).None? ==> r == Fail(NotFound)
    ensures var k := FindById(old(db.conversations), conversationId);
      k.Some? && participantId !in old(db.conversations)[k.value].body.participants ==>
        r == Fail(BadRequest)
    ensures var k := FindById(old(db.conversations), conversationId);
      k.Some? && participantId in old(db.conversations)[k.value].body.participants ==>
        var c := old(db.conversations)[k.value].body;
        var c' := c.(participants := Without(c.participants, participantId));
        && (r.Ok? <==> |c'.participants| >= MinParticipants)
        // a two-person conversation cannot lose anyone: the save refuses it
        && (|c.participants| <= MinParticipants ==> r == Fail(ServerError))
        && (r.Ok? ==> db.conversations == old(db.conversations)[k.value := Doc(conversationId, Stamped(c', now))])
        && (r.Fail? ==> r == Fail(ServerError))
  {
    var k := FindById(db.conversations, conversationId);
    if k.None? {
      return Fail(NotFound);
    }
    var c := db.conversations[k.value].body;
    if participantId !in c.participants {
      return Fail(BadRequest);
    }
    assert SchemaValid(c);
    var c' := c.(participants := Without(c.participants, participantId));
    var ok := db.UpdateConversation(k.value, c', now);
    if !ok {
      return Fail(ServerError);
    }
    r := Ok(());
  }

  /** The sort key of `sort({ updatedAt: -1 })`. */
  function NewestFirst(d: Doc<Conversation>): int {
    -(d.body.updatedAt as int)
  }

  /** getUserConversations: the conversations the user takes part in, most recently
      updated first. */
  function UserConversations(convs: seq<Doc<Conversation>>, userId: Id)
    : (r: seq<Doc<Conversation>>)
    ensures forall d :: d in r <==> d in convs && userId in d.body.participants
    ensures forall i, j :: 0 <= i < j < |r| ==> r[i].body.updatedAt >= r[j].body.updatedAt
    ensures forall d :: multiset(r)[d] == if userId in d.body.participants then multiset(convs)[d] else 0
  {
    var p := (d: Doc<Conversation>) => userId in d.body.participants;
    var w := Where(convs, p);
    WhereCounts(convs, p);
    var r := SortBy(w, NewestFirst);
    assert forall d :: d in r <==> d in w by {
      forall d ensures d in r <==> d in w {
        assert d in r <==> d in multiset(r);
        assert d in w <==> d in multiset(w);
      }
    }
    assert forall i, j :: 0 <= i < j < |r| ==> NewestFirst(r[i]) <= NewestFirst(r[j]);
    r
  }

  /** getConversation: the conversation with its messages, oldest first. */
  function ConversationWithMessages(convs: seq<Doc<Conversation>>, msgs: seq<Doc<Message>>,
                                    conversationId: Id)
    : (r: Response<(Doc<Conversation>, seq<Doc<Message>>)>)
    ensures FindById(convs, conversationId).None? <==> r == Fail(NotFound)
    ensures r.Ok? ==> r.value.0 in convs && r.value.0.id == conversationId
    ensures r.Ok? ==> forall d :: d in r.value.1 <==> d in msgs && d.body.conversation == conversationId
    ensures r.Ok? ==> forall i, j :: 0 <= i < j < |r.value.1| ==>
      r.value.1[i].body.timestamp <= r.value.1[j].body.timestamp
    ensures r.Ok? ==> forall d ::
      multiset(r.value.1)[d] == if d.body.conversation == conversationId then multiset(msgs)[d] else 0
  {
    match FindById(convs, conversationId)
    case None => Fail(NotFound)
    case Some(k) => Ok((convs[k], MessageController.MessagesOf(msgs, conversationId)))
  }

  /** The filter of the unread count: in the conversation, not sent by the user, and not
      read by the user. */
  function UnreadBy(conversation: Id, user: Id): Doc<Message> -> bool {
    (d: Doc<Message>) =>
      d.body.conversation == conversation && d.body.sender != user && !IsReadBy(d.body, user)
  }

  function UnreadCount(msgs: seq<Doc<Message>>, conversation: Id, user: Id): nat {
    |Where(msgs, UnreadBy(conversation, user))|
  }

  /** The unread count never exceeds the number of messages getMessages lists. */
  lemma UnreadWithinConversation(msgs: seq<Doc<Message>>, conversation: Id, user: Id)
    ensures UnreadCount(msgs, conversation, user) <= |MessageController.MessagesOf(msgs, conversation)|
  {
    var listed := MessageController.MessagesOf(msgs, conversation);
    WhereMonotone(msgs, UnreadBy(conversation, user), InConversation(conversation));
    assert |listed| == |multiset(listed)| == |Where(msgs, InConversation(conversation))|;
  }

  datatype UnreadSummary = UnreadSummary(
    unreadCount: nat, conversationId: Id, isGroup: bool, groupName: Option<string>, lastUpdate: nat)

  /** getMessageReadStats (per conversation): only a participant may ask. */
  function UnreadStats(convs: seq<Doc<Conversation>>, msgs: seq<Doc<Message>>,
                       conversationId: Id, userId: Id, now: nat)
    : (r: Response<UnreadSummary>)
    ensures FindById(convs, conversationId).None? <==> r == Fail(NotFound)
    ensures var k := FindById(convs, conversationId);
      k.Some? ==> (userId !in convs[k.value].body.participants <==> r == Fail(Forbidden))
    ensures r.Ok? ==> var c := convs[FindById(convs, conversationId).value].body;
      && r.value.unreadCount == UnreadCount(msgs, conversationId, userId)
      && r.value.conversationId == conversationId && r.value.isGroup == c.isGroup
      && r.value.groupName == c.groupName && r.value.lastUpdate == now
  {
    match FindById(convs, conversationId)
    case None => Fail(NotFound)
    case Some(k) =>
      var c := convs[k].body;
      if userId !in c.participants then Fail(Forbidden)
      else Ok(UnreadSummary(UnreadCount(msgs, conversationId, userId), conversationId,
                            c.isGroup, c.groupName, now))
  }

  /** The count is zero exactly when the user has read every message of the conversation
      that someone else sent. */
  lemma UnreadZeroIffAllRead(msgs: seq<Doc<Message>>, conversation: Id, user: Id)
    ensures UnreadCount(msgs, conversation, user) == 0 <==>
      forall d :: d in msgs && d.body.conversation == conversation && d.body.sender != user ==>
        IsReadBy(d.body, user)
  {
    var w := Where(msgs, UnreadBy(conversation, user));
    if |w| != 0 {
      assert w[0] in w;
    }
  }

  /** A message sent to the conversation by someone else raises the user's count by one;
      the user's own message leaves it. */
  lemma SendChangesUnread(msgs: seq<Doc<Message>>, id: Id, conversation: Id, sender: Id,
                          content: string, now: nat, user: Id)
    ensures UnreadCount(msgs + [Doc(id, NewMessage(conversation, sender, content, now))], conversation, user)
         == UnreadCount(msgs, conversation, user) + (if sender != user then 1 else 0)
  {
    CountAppend(msgs, Doc(id, NewMessage(conversation, sender, content, now)), UnreadBy(conversation, user));
  }

  /** Marking message i read for the user lowers the user's count by one if it was unread
      for them, and leaves it otherwise. */
  lemma MarkReadChangesUnread(msgs: seq<Doc<Message>>, i: nat, conversation: Id, user: Id)
    requires i < |msgs|
    ensures UnreadCount(msgs[i := Doc(msgs[i].id, MarkAsReadBy(msgs[i].body, user))], conversation, user)
         == UnreadCount(msgs, conversation, user) - (if UnreadBy(conversation, user)(msgs[i]) then 1 else 0)
  {
    CountReplace(msgs, i, Doc(msgs[i].id, MarkAsReadBy(msgs[i].body, user)), UnreadBy(conversation, user));
  }

  /** Another user's read receipt does not change this user's count. */
  lemma OtherReaderKeepsUnread(msgs: seq<Doc<Message>>, i: nat, conversation: Id, user: Id, reader: Id)
    requires i < |msgs| && reader != user
    ensures UnreadCount(msgs[i := Doc(msgs[i].id, MarkAsReadBy(msgs[i].body, reader))], conversation, user)
         == UnreadCount(msgs, conversation, user)
  {
    CountReplace(msgs, i, Doc(msgs[i].id, MarkAsReadBy(msgs[i].body, reader)), UnreadBy(conversation, user));
  }

  /** Once no message refers to the conversation, listing its messages gives nothing. */
  lemma NoMessagesLeft(msgs: seq<Doc<Message>>, conversation: Id)
    requires forall d :: d in msgs ==> d.body.conversation != conversation
    ensures MessageController.MessagesOf(msgs, conversation) == []
  {
  }

  /** deleteConversation: the messages of the conversation go first, whether or not the
      conversation exists; then the conversation itself. */
  method DeleteConversation(db: Db, conversationId: Id) returns (r: Response<()>)
    requires db.Valid()
    modifies db`conversations, db`messages
    ensures db.Valid()
    ensures db.messages == Where(old(db.messages), Not(InConversation(conversationId)))
    ensures forall d :: d in db.messages <==> d in old(db.messages) && d.body.conversation != conversationId
    ensures MessageController.MessagesOf(db.messages, conversationId) == []
    ensures FindById(old(db.conversations), conversationId).None? ==>
      r == Fail(NotFound) && db.conversations == old(db.conversations)
    ensures FindById(old(db.conversations), conversationId).Some? ==>
      r == Ok(()) && db.conversations == Where(old(db.conversations), Not(HasId(conversationId)))
    ensures forall d :: d in db.conversations <==> d in old(db.conversations) && d.id != conversationId
  {
    WhereKeepsUniqueIds(db.messages, Not(InConversation(conversationId)));
    db.messages := Where(db.messages, Not(InConversation(conversationId)));
    NoMessagesLeft(db.messages, conversationId);
    var k := FindById(db.conversations, conversationId);
    if k.None? {
      return Fail(NotFound);
    }
    WhereKeepsUniqueIds(db.conversations, Not(HasId(conversationId)));
    db.conversations := Where(db.conversations, Not(HasId(conversationId)));
    r := Ok(());
  }
}
