/** The friendship handlers: a directed request from sender to receiver that the receiver
    accepts (the record turns accepted) or rejects (the record is deleted), removal by
    record id, and the read-only queries over the ledger. */
module FriendshipController {
  import opened Documents
  import opened FriendshipModel
  import opened UserModel
  import opened Store

  /** Whether a record links two users does not depend on the order they are named in. */
  lemma BetweenIsSymmetric(f: Friendship, a: Id, b: Id)
    ensures Between(f, a, b) <==> Between(f, b, a)
  {
  }

  /** Appending a record for a pair that has none keeps one record per pair. */
  lemma LedgerAppend(fs: seq<Doc<Friendship>>, d: Doc<Friendship>)
    requires OneRecordPerPair(fs)
    requires forall e :: e in fs ==> !Between(e.body, d.body.sender, d.body.receiver)
    ensures OneRecordPerPair(fs + [d])
  {
  }

  /** Changing the status of record k keeps one record per pair. */
  lemma LedgerRestatus(fs: seq<Doc<Friendship>>, k: nat, status: FriendStatus)
    requires UniqueIds(fs) && OneRecordPerPair(fs) && k < |fs|
    ensures OneRecordPerPair(fs[k := Doc(fs[k].id, fs[k].body.(status := status))])
  {
    var x := Doc(fs[k].id, fs[k].body.(status := status));
    var fs' := fs[k := x];
    forall e, g | e in fs' && g in fs' && Between(g.body, e.body.sender, e.body.receiver)
      ensures e == g
    {
      var i :| 0 <= i < |fs'| && fs'[i] == e;
      var j :| 0 <= j < |fs'| && fs'[j] == g;
      if i != k && j != k {
        assert fs[i] == e && fs[j] == g;
      }
    }
  }

  /** Deleting records keeps one record per pair. */
  lemma LedgerWhere(fs: seq<Doc<Friendship>>, p: Doc<Friendship> -> bool)
    requires OneRecordPerPair(fs)
    ensures OneRecordPerPair(Where(fs, p))
  {
  }

  /** sendFriendRequest: refused when a record links the pair in either direction;
      otherwise exactly one pending record from sender to receiver is added. */
  method SendFriendRequest(db: Db, senderId: Id, receiverId: Id, now: nat)
    returns (r: Response<Doc<Friendship>>)
    requires db.Valid()
    modifies db
    ensures db.Valid()
    ensures db.conversations == old(db.conversations) && db.messages == old(db.messages)
    ensures db.users == old(db.users)
    ensures FindFirst(old(db.friendships), LinksPair(senderId, receiverId)).Some? ==>
      r == Fail(BadRequest) && db.friendships == old(db.friendships)
    ensures FindFirst(old(db.friendships), LinksPair(senderId, receiverId)).None? ==>
      && r == Ok(Doc(old(db.nextId), NewFriendship(senderId, receiverId, Some(Pending), now)))
      && db.friendships == old(db.friendships) + [r.value]
    ensures r.Ok? ==> r.value.body.status == Pending
    ensures OneRecordPerPair(old(db.friendships)) ==> OneRecordPerPair(db.friendships)
  {
    var k := FindFirst(db.friendships, LinksPair(senderId, receiverId));
    if k.Some? {
      return Fail(BadRequest);
    }
    var id := db.FreshId();
    var d := Doc(id, NewFriendship(senderId, receiverId, Some(Pending), now));
    assert forall e :: e in db.friendships ==> !Between(e.body, senderId, receiverId);
    if OneRecordPerPair(db.friendships) {
      LedgerAppend(db.friendships, d);
    }
    db.friendships := db.friendships + [d];
    r := Ok(d);
  }

  /** The lookup of accept and reject: a pending record from exactly this sender to
      exactly this receiver. */
  function PendingFrom(senderId: Id, receiverId: Id): Doc<Friendship> -> bool {
    (d: Doc<Friendship>) =>
      d.body.sender == senderId && d.body.receiver == receiverId && d.body.status == Pending
  }

  /** The record found by the lookup always has the caller as receiver, so the handlers'
      receiver check never answers Forbidden. This rests on ids being canonical: the
      lookup compares cast ObjectIds while the check compares strings, and the two agree
      only for the lowercase hexadecimal form (see the `Id` type). */
  lemma LookupMatchesReceiver(fs: seq<Doc<Friendship>>, senderId: Id, receiverId: Id)
    requires FindFirst(fs, PendingFrom(senderId, receiverId)).Some?
    ensures fs[FindFirst(fs, PendingFrom(senderId, receiverId)).value].body.receiver == receiverId
  {
  }

  /** acceptFriendRequest: only that record changes, and only its status. With canonical
      ids the 403 branch of the handler is unreachable. */
  method AcceptFriendRequest(db: Db, receiverId: Id, senderId: Id)
    returns (r: Response<Doc<Friendship>>)
    requires db.Valid()
    modifies db`friendships
    ensures db.Valid()
    ensures r != Fail(Forbidden)
    ensures FindFirst(old(db.friendships), PendingFrom(senderId, receiverId)).None? ==>
      r == Fail(NotFound) && db.friendships == old(db.friendships)
    ensures var k := FindFirst(old(db.friendships), PendingFrom(senderId, receiverId));
      k.Some? ==>
        var f := old(db.friendships)[k.value];
        && r == Ok(Doc(f.id, f.body.(status := Accepted)))
        && db.friendships == old(db.friendships)[k.value := r.value]
    ensures OneRecordPerPair(old(db.friendships)) ==> OneRecordPerPair(db.friendships)
  {
    var k := FindFirst(db.friendships, PendingFrom(senderId, receiverId));
    if k.None? {
      return Fail(NotFound);
    }
    var f := db.friendships[k.value];
    var d := Doc(f.id, f.body.(status := Accepted));
    if OneRecordPerPair(db.friendships) {
      LedgerRestatus(db.friendships, k.value, Accepted);
    }
    db.friendships := db.friendships[k.value := d];
    r := Ok(d);
  }

  /** rejectFriendRequest: the same lookup as accept, but the record is deleted; with
      canonical ids its 403 branch is unreachable too. */
  method RejectFriendRequest(db: Db, receiverId: Id, senderId: Id) returns (r: Response<()>)
    requires db.Valid()
    modifies db`friendships
    ensures db.Valid()
    ensures r != Fail(Forbidden)
    ensures FindFirst(old(db.friendships), PendingFrom(senderId, receiverId)).None? ==>
      r == Fail(NotFound) && db.friendships == old(db.friendships)
    ensures var k := FindFirst(old(db.friendships), PendingFrom(senderId, receiverId));
      k.Some? ==>
        && r == Ok(())
        && db.friendships == Where(old(db.friendships), Not(HasId(old(db.friendships)[k.value].id)))
    ensures OneRecordPerPair(old(db.friendships)) ==> OneRecordPerPair(db.friendships)
  {
    var k := FindFirst(db.friendships, PendingFrom(senderId, receiverId));
    if k.None? {
      return Fail(NotFound);
    }
    var id := db.friendships[k.value].id;
    WhereKeepsUniqueIds(db.friendships, Not(HasId(id)));
    db.friendships := Where(db.friendships, Not(HasId(id)));
    r := Ok(());
  }

  /** removeFriendship: delete the record with that id, whatever its status. */
  method RemoveFriendship(db: Db, friendshipId: Id) returns (r: Response<()>)
    requires db.Valid()
    modifies db`friendships
    ensures db.Valid()
    ensures FindById(old(db.friendships), friendshipId).None? ==>
      r == Fail(NotFound) && db.friendships == old(db.friendships)
    ensures FindById(old(db.friendships), friendshipId).Some? ==>
      r == Ok(()) && db.friendships == Where(old(db.friendships), Not(HasId(friendshipId)))
    ensures forall d :: d in db.friendships <==> d in old(db.friendships) && d.id != friendshipId
    ensures OneRecordPerPair(old(db.friendships)) ==> OneRecordPerPair(db.friendships)
  {
    var k := FindById(db.friendships, friendshipId);
    if k.None? {
      return Fail(NotFound);
    }
    WhereKeepsUniqueIds(db.friendships, Not(HasId(friendshipId)));
    db.friendships := Where(db.friendships, Not(HasId(friendshipId)));
    r := Ok(());
  }

  /** getFriendRequests: the pending records addressed to the user. */
  function FriendRequests(fs: seq<Doc<Friendship>>, userId: Id): (r: seq<Doc<Friendship>>)
    ensures forall d :: d in r <==> d in fs && d.body.receiver == userId && d.body.status == Pending
    ensures forall d :: multiset(r)[d] ==
                        if d.body.receiver == userId && d.body.status == Pending then multiset(fs)[d] else 0
  {
    var p := (d: Doc<Friendship>) => d.body.receiver == userId && d.body.status == Pending;
    WhereCounts(fs, p);
    Where(fs, p)
  }

  /** getFriendship: the record linking the two users in either direction. */
  function FriendshipBetween(fs: seq<Doc<Friendship>>, a: Id, b: Id): (r: Response<Doc<Friendship>>)
    ensures r == Fail(NotFound) <==> forall d :: d in fs ==> !Between(d.body, a, b)
    ensures r.Ok? ==> r.value in fs && Between(r.value.body, a, b)
  {
    match FindFirst(fs, LinksPair(a, b))
    case None => Fail(NotFound)
    case Some(k) => Ok(fs[k])
  }

  /** The other side of a record, seen from u. */
  function OtherEndpoint(f: Friendship, u: Id): Id {
    if f.sender == u then f.receiver else f.sender
  }

  /** The ids of u's friends: the other side of every accepted record u takes part in. */
  function FriendIds(fs: seq<Doc<Friendship>>, u: Id): (r: set<Id>)
    ensures forall v :: v in r <==> exists d :: d in fs && d.body.status == Accepted && Between(d.body, u, v)
  {
    var r := set d | d in fs && d.body.status == Accepted && Involves(u)(d) :: OtherEndpoint(d.body, u);
    assert forall v :: v in r ==> exists d :: d in fs && d.body.status == Accepted && Between(d.body, u, v);
    forall v | exists d :: d in fs && d.body.status == Accepted && Between(d.body, u, v)
      ensures v in r
    {
      var d :| d in fs && d.body.status == Accepted && Between(d.body, u, v);
      assert OtherEndpoint(d.body, u) == v;
    }
    r
  }

  /** Friendship is symmetric: v is among u's friends exactly when u is among v's. */
  lemma FriendsSymmetric(fs: seq<Doc<Friendship>>, u: Id, v: Id)
    ensures v in FriendIds(fs, u) <==> u in FriendIds(fs, v)
  {
    if v in FriendIds(fs, u) {
      var d :| d in fs && d.body.status == Accepted && Between(d.body, u, v);
      BetweenIsSymmetric(d.body, u, v);
    }
    if u in FriendIds(fs, v) {
      var d :| d in fs && d.body.status == Accepted && Between(d.body, v, u);
      BetweenIsSymmetric(d.body, v, u);
    }
  }

  /** Nothing stops a user from sending a request to themself; once such a record is
      accepted, the user is listed among their own friends. Without self records, never. */
  lemma SelfFriendOnlyThroughSelfRecord(fs: seq<Doc<Friendship>>, u: Id)
    ensures u in FriendIds(fs, u) <==>
      exists d :: d in fs && d.body.status == Accepted && d.body.sender == u && d.body.receiver == u
  {
    if u in FriendIds(fs, u) {
      var d :| d in fs && d.body.status == Accepted && Between(d.body, u, u);
      assert d.body.sender == u && d.body.receiver == u;
    }
  }

  /** getFriends: the stored users whose id is among the user's friends. */
  function Friends(fs: seq<Doc<Friendship>>, users: seq<Doc<User>>, userId: Id)
    : (r: seq<Doc<User>>)
    ensures forall d :: d in r <==> d in users && d.id in FriendIds(fs, userId)
    ensures forall d :: multiset(r)[d] == if d.id in FriendIds(fs, userId) then multiset(users)[d] else 0
  {
    var friends := FriendIds(fs, userId);
    var p := (d: Doc<User>) => d.id in friends;
    WhereCounts(users, p);
    Where(users, p)
  }

  /** The answer of getFriendshipStatus. */
  datatype StatusView = NotFriends | Status(status: FriendStatus)

  /** getFriendshipStatus: "not_friends" when no record links the pair (a normal answer,
      not an error), otherwise the status of the first record found. */
  function FriendshipStatus(fs: seq<Doc<Friendship>>, a: Id, b: Id): (r: StatusView)
    ensures r == NotFriends <==> forall d :: d in fs ==> !Between(d.body, a, b)
    ensures r.Status? ==> exists d :: d in fs && Between(d.body, a, b) && d.body.status == r.status
  {
    match FindFirst(fs, LinksPair(a, b))
    case None => NotFriends
    case Some(k) => Status(fs[k].body.status)
  }

  /** The status lookup does not depend on who asks about whom. */
  lemma StatusSymmetric(fs: seq<Doc<Friendship>>, a: Id, b: Id)
    ensures FriendshipStatus(fs, a, b) == FriendshipStatus(fs, b, a)
  {
    FindFirstAgrees(fs, LinksPair(a, b), LinksPair(b, a));
  }

  /** Under the ledger invariant the status is that of the one record linking the pair. */
  lemma StatusIsTheRecordsStatus(fs: seq<Doc<Friendship>>, d: Doc<Friendship>, a: Id, b: Id)
    requires OneRecordPerPair(fs) && d in fs && Between(d.body, a, b)
    ensures FriendshipStatus(fs, a, b) == Status(d.body.status)
  {
    var k := FindFirst(fs, LinksPair(a, b)).value;
    assert Between(fs[k].body, a, b);
    assert Between(d.body, fs[k].body.sender, fs[k].body.receiver);
  }

  /** A client run: A asks B twice (the second is refused), B accepts, A removes the
      record by its id; the status between them goes from accepted to not_friends. */
  method RequestAcceptRemove(db: Db, a: Id, b: Id, now: nat)
    returns (first: Response<Doc<Friendship>>, second: Response<Doc<Friendship>>,
             accepted: Response<Doc<Friendship>>, statusAfterAccept: StatusView,
             removed: Response<()>, statusAfterRemove: StatusView)
    requires db.Valid() && OneRecordPerPair(db.friendships)
    requires FriendshipStatus(db.friendships, a, b) == NotFriends
    modifies db
    ensures db.Valid() && OneRecordPerPair(db.friendships)
    ensures first.Ok? && second == Fail(BadRequest) && accepted.Ok?
    ensures statusAfterAccept == Status(Accepted)
    ensures removed == Ok(())
    ensures statusAfterRemove == NotFriends
  {
    first := SendFriendRequest(db, a, b, now);
    second := SendFriendRequest(db, a, b, now);
    assert PendingFrom(a, b)(first.value);
    ghost var sent := db.friendships;
    ghost var k := FindFirst(sent, PendingFrom(a, b)).value;
    accepted := AcceptFriendRequest(db, b, a);
    assert db.friendships[k] == accepted.value;
    assert Between(sent[k].body, a, b);
    StatusIsTheRecordsStatus(db.friendships, accepted.value, a, b);
    statusAfterAccept := FriendshipStatus(db.friendships, a, b);
    ghost var before := db.friendships;
    removed := RemoveFriendship(db, accepted.value.id);
    forall d | d in before && Between(d.body, a, b)
      ensures d == accepted.value
    {
      assert Between(accepted.value.body, d.body.sender, d.body.receiver);
    }
    statusAfterRemove := FriendshipStatus(db.friendships, a, b);
  }
}
