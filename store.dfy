/** The document store the handlers share: the four collections, and the id counter that
    stands in for ObjectId generation. Saving a conversation goes through its schema
    (validators, then the pre-save hook); the other writes are plain. */
module Store {
  import opened Documents
  import opened ConversationModel
  import opened MessageModel
  import opened FriendshipModel
  import opened UserModel

  class Db {
    var conversations: seq<Doc<Conversation>>
    var messages: seq<Doc<Message>>
    var friendships: seq<Doc<Friendship>>
    var users: seq<Doc<User>>
    var nextId: Id

    /** What the store guarantees: unique ids drawn below the counter, every stored
        conversation passes its schema, and the unique indexes hold. */
    ghost predicate Valid()
      reads this
    {
      && UniqueIds(conversations) && IdsBelow(conversations, nextId)
      && UniqueIds(messages) && IdsBelow(messages, nextId)
      && UniqueIds(friendships) && IdsBelow(friendships, nextId)
      && UniqueIds(users) && IdsBelow(users, nextId)
      && (forall d :: d in conversations ==> SchemaValid(d.body))
      && UniqueOrderedPairs(friendships)
      && UniqueCredentials(users)
    }

    constructor ()
      ensures Valid()
      ensures conversations == [] && messages == [] && friendships == [] && users == []
    {
      conversations, messages, friendships, users := [], [], [], [];
      nextId := 0;
    }

    /** A fresh ObjectId, distinct from every id in the store. */
    method FreshId() returns (id: Id)
      requires Valid()
      modifies this`nextId
      ensures Valid()
      ensures id == old(nextId) && nextId == id + 1
      ensures forall d :: d in conversations ==> d.id != id
      ensures forall d :: d in messages ==> d.id != id
      ensures forall d :: d in friendships ==> d.id != id
      ensures forall d :: d in users ==> d.id != id
    {
      id := nextId;
      nextId := nextId + 1;
    }

    /** `new Conversation(...).save()`: validated first; on success the pre-save hook
        stamps the record and it is appended under a fresh id. */
    method InsertConversation(c: Conversation, now: nat) returns (r: Option<Doc<Conversation>>)
      requires Valid()
      modifies this
      ensures Valid()
      ensures messages == old(messages) && friendships == old(friendships) && users == old(users)
      ensures r.None? <==> !SchemaValid(c)
      ensures r.None? ==> conversations == old(conversations)
      ensures r.Some? ==> r.value == Doc(old(nextId), Stamped(c, now))
      ensures r.Some? ==> conversations == old(conversations) + [r.value]
    {
      if !SchemaValid(c) {
        return None;
      }
      var id := FreshId();
      var d := Doc(id, Stamped(c, now));
      conversations := conversations + [d];
      r := Some(d);
    }

    /** `conversation.save()` on a stored conversation at position i: validated first; on
        success the pre-save hook stamps the record and it replaces the stored one. */
    method UpdateConversation(i: nat, c: Conversation, now: nat) returns (ok: bool)
      requires Valid() && i < |conversations|
      modifies this`conversations
      ensures Valid()
      ensures ok <==> SchemaValid(c)
      ensures !ok ==> conversations == old(conversations)
      ensures ok ==> conversations == old(conversations)[i := Doc(old(conversations)[i].id, Stamped(c, now))]
    {
      ok := SchemaValid(c);
      if ok {
        conversations := conversations[i := Doc(conversations[i].id, Stamped(c, now))];
      }
    }
  }
}
