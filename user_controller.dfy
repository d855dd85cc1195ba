/** The user handlers in the core: the cascading account deletion, the username search
    that hides the caller and the caller's friends, and the batch registration loop. */
module UserController {
  import opened Documents
  import opened MessageModel
  import opened FriendshipModel
  import opened UserModel
  import opened Store
  import opened FriendshipController

  /** deleteUser: the user's messages and every friendship the user takes part in are
      deleted first; only then is the user looked up, so NotFound still leaves those
      deletions in place. Conversations are never touched. */
  method DeleteUser(db: Db, userId: Id, paramsValid: bool) returns (r: Response<()>)
    requires db.Valid()
    modifies db`messages, db`friendships, db`users
    ensures db.Valid()
    ensures !paramsValid ==>
      && r == Fail(BadRequest)
      && db.messages == old(db.messages) && db.friendships == old(db.friendships)
      && db.users == old(db.users)
    ensures paramsValid ==>
      && db.messages == Where(old(db.messages), Not(SentBy(userId)))
      && db.friendships == Where(old(db.friendships), Not(Involves(userId)))
    ensures paramsValid ==> forall d :: d in db.messages <==> d in old(db.messages) && d.body.sender != userId
    ensures paramsValid ==> forall d ::
      d in db.friendships <==> d in old(db.friendships) && d.body.sender != userId && d.body.receiver != userId
    ensures paramsValid && FindById(old(db.users), userId).None? ==>
      r == Fail(NotFound) && db.users == old(db.users)
    ensures paramsValid && FindById(old(db.users), userId).Some? ==>
      r == Ok(()) && db.users == Where(old(db.users), Not(HasId(userId)))
    ensures forall d :: d in db.users <==> d in old(db.users) && (paramsValid ==> d.id != userId)
    ensures OneRecordPerPair(old(db.friendships)) ==> OneRecordPerPair(db.friendships)
  {
    if !paramsValid {
      return Fail(BadRequest);
    }
    WhereKeepsUniqueIds(db.messages, Not(SentBy(userId)));
    db.messages := Where(db.messages, Not(SentBy(userId)));
    WhereKeepsUniqueIds(db.friendships, Not(Involves(userId)));
    db.friendships := Where(db.friendships, Not(Involves(userId)));
    var k := FindById(db.users, userId);
    if k.None? {
      return Fail(NotFound);
    }
    WhereKeepsUniqueIds(db.users, Not(HasId(userId)));
    db.users := Where(db.users, Not(HasId(userId)));
    r := Ok(());
  }

  /** After the cascade, the deleted user has vanished from everybody else's friends
      and nobody else has lost a friend. */
  lemma CascadeLeavesOtherFriends(fs: seq<Doc<Friendship>>, u: Id, v: Id)
    requires v != u
    ensures FriendIds(Where(fs, Not(Involves(u))), v) == FriendIds(fs, v) - {u}
  {
    var kept := Where(fs, Not(Involves(u)));
    forall w | w in FriendIds(fs, v) - {u}
      ensures w in FriendIds(kept, v)
    {
      var d :| d in fs && d.body.status == Accepted && Between(d.body, v, w);
      assert d in kept;
    }
  }

  /** The ids getUserByUsername never returns: the caller and everybody linked to the
      caller by an accepted record, in either direction. */
  function ExclusionSet(fs: seq<Doc<Friendship>>, caller: Id): (r: set<Id>)
    ensures forall v :: v in r <==>
      v == caller || exists d :: d in fs && d.body.status == Accepted && Between(d.body, caller, v)
  {
    FriendIds(fs, caller) + {caller}
  }

  /** Seen from the other side: v is hidden from the caller exactly when the caller is
      among v's friends. */
  lemma ExclusionIsMutual(fs: seq<Doc<Friendship>>, caller: Id, v: Id)
    requires v != caller
    ensures v in ExclusionSet(fs, caller) <==> caller in FriendIds(fs, v)
  {
    FriendsSymmetric(fs, caller, v);
  }

  /** The search filter: the username matches the prefix pattern (a parameter here) and
      the id is outside the exclusion set. */
  function Candidate(matches: string -> bool, excluded: set<Id>): Doc<User> -> bool {
    (d: Doc<User>) => matches(d.body.username) && d.id !in excluded
  }

  /** getUserByUsername: the matching users who are neither the caller nor a friend of
      the caller; NotFound when there are none. */
  function SearchUsers(users: seq<Doc<User>>, fs: seq<Doc<Friendship>>, caller: Id,
                       matches: string -> bool): (r: Response<seq<Doc<User>>>)
    ensures r.Fail? ==> r == Fail(NotFound)
    ensures r == Fail(NotFound) <==>
      forall d :: d in users && matches(d.body.username) ==> d.id == caller || d.id in FriendIds(fs, caller)
    ensures r.Ok? ==> r.value != [] && forall d :: d in r.value <==>
      (d in users && matches(d.body.username) && d.id != caller && d.id !in FriendIds(fs, caller))
    ensures r.Ok? ==> forall d :: multiset(r.value)[d] ==
                                 if matches(d.body.username) && d.id != caller && d.id !in FriendIds(fs, caller)
                                 then multiset(users)[d] else 0
  {
    var excluded := ExclusionSet(fs, caller);
    assert forall v :: v in excluded <==> v == caller || v in FriendIds(fs, caller);
    var found := Where(users, Candidate(matches, excluded));
    WhereCounts(users, Candidate(matches, excluded));
    assert |found| > 0 ==> found[0] in found;
    if |found| == 0 then Fail(NotFound) else Ok(found)
  }

  /** One entry of `createdUsers`. */
  datatype Created = Created(username: string, email: string)

  /** The state the registration loop carries: the stored users, the id counter, and the
      two reports it builds. An error entry is the username of the rejected input. */
  datatype Batch = Batch(users: seq<Doc<User>>, nextId: nat, created: seq<Created>, errors: seq<string>)

  /** One iteration: the input is saved when the schema and the unique indexes accept it,
      and reported as an error otherwise. */
  function RegisterStep(b: Batch, u: User): Batch {
    if Insertable(b.users, u) then
      Batch(b.users + [Doc(b.nextId, u)], b.nextId + 1, b.created + [Created(u.username, u.email)], b.errors)
    else
      Batch(b.users, b.nextId, b.created, b.errors + [u.username])
  }

  /** The whole loop over the inputs, in order. */
  function RegisterAll(b: Batch, inputs: seq<User>): Batch
    decreases |inputs|
  {
    if inputs == [] then b
    else RegisterStep(RegisterAll(b, inputs[..|inputs| - 1]), inputs[|inputs| - 1])
  }

  /** Every input lands in exactly one of the two reports, every created entry is a user
      appended to the collection under the next id, and the unique indexes still hold. */
  lemma {:induction false} RegisterPartition(b: Batch, inputs: seq<User>)
    requires UniqueCredentials(b.users)
    ensures var r := RegisterAll(b, inputs);
      && |r.created| + |r.errors| == |b.created| + |b.errors| + |inputs|
      && |r.created| >= |b.created| && |r.errors| >= |b.errors|
      && r.created[..|b.created|] == b.created && r.errors[..|b.errors|] == b.errors
      && |r.users| == |b.users| + (|r.created| - |b.created|)
      && r.users[..|b.users|] == b.users
      && r.nextId == b.nextId + (|r.created| - |b.created|)
      && (forall j :: |b.users| <= j < |r.users| ==>
            && r.users[j].id == b.nextId + (j - |b.users|)
            && r.created[|b.created| + (j - |b.users|)]
               == Created(r.users[j].body.username, r.users[j].body.email))
      && UniqueCredentials(r.users)
    decreases |inputs|
  {
    if inputs != [] {
      var prefix := inputs[..|inputs| - 1];
      var u := inputs[|inputs| - 1];
      RegisterPartition(b, prefix);
      var m := RegisterAll(b, prefix);
      if Insertable(m.users, u) {
        InsertKeepsCredentialsUnique(m.users, Doc(m.nextId, u));
      }
    }
  }

  /** The body of a successful answer. */
  datatype Report = Report(created: seq<Created>, errors: seq<string>)

  /** registerMultiple: each input is saved on its own; the call fails BadRequest when
      the body is invalid or when nothing at all was created. */
  method RegisterMultiple(db: Db, inputs: seq<User>, bodyValid: bool) returns (r: Response<Report>)
    requires db.Valid()
    modifies db`users, db`nextId
    ensures db.Valid()
    ensures !bodyValid ==> r == Fail(BadRequest) && db.users == old(db.users)
    ensures bodyValid ==>
      var b := RegisterAll(Batch(old(db.users), old(db.nextId), [], []), inputs);
      && db.users == b.users && db.nextId == b.nextId
      && (b.created == [] ==> r == Fail(BadRequest) && db.users == old(db.users))
      && (b.created != [] ==> r == Ok(Report(b.created, b.errors)))
    ensures r.Ok? ==> |r.value.created| + |r.value.errors| == |inputs| && r.value.created != []
  {
    if !bodyValid {
      return Fail(BadRequest);
    }
    ghost var start := Batch(db.users, db.nextId, [], []);
    var created: seq<Created> := [];
    var errors: seq<string> := [];
    var i := 0;
    while i < |inputs|
      invariant 0 <= i <= |inputs|
      invariant db.Valid()
      invariant Batch(db.users, db.nextId, created, errors) == RegisterAll(start, inputs[..i])
    {
      var u := inputs[i];
      if Insertable(db.users, u) {
        var id := db.FreshId();
        InsertKeepsCredentialsUnique(db.users, Doc(id, u));
        db.users := db.users + [Doc(id, u)];
        created := created + [Created(u.username, u.email)];
      } else {
        errors := errors + [u.username];
      }
      assert inputs[..i + 1][..i] == inputs[..i];
      i := i + 1;
    }
    assert inputs[..i] == inputs;
    RegisterPartition(start, inputs);
    if |created| == 0 {
      return Fail(BadRequest);
    }
    r := Ok(Report(created, errors));
  }
}
