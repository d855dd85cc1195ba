/** The Friendship schema: a directed record from sender to receiver with a status, and the
    unique index on (sender, receiver). */
module FriendshipModel {
  import opened Documents

  /** The status enum. `Rejected` is admitted by the schema but no handler ever stores it. */
  datatype FriendStatus = Pending | Accepted | Rejected

  /** sender and receiver are required: here they are plain ids, never absent. */
  datatype Friendship = Friendship(sender: Id, receiver: Id, status: FriendStatus, createdAt: nat)

  /** `new Friendship({ sender, receiver, status })`: the status defaults to pending. */
  function NewFriendship(sender: Id, receiver: Id, status: Option<FriendStatus>, now: nat)
    : (f: Friendship)
    ensures f.sender == sender && f.receiver == receiver && f.createdAt == now
    ensures status.None? ==> f.status == Pending
    ensures status.Some? ==> f.status == status.value
  {
    Friendship(sender, receiver, if status.Some? then status.value else Pending, now)
  }

  /** The unique index `{ sender: 1, receiver: 1 }`: at most one record per ordered pair. */
  ghost predicate UniqueOrderedPairs(fs: seq<Doc<Friendship>>) {
    forall d, e ::
      (d in fs && e in fs && d.body.sender == e.body.sender && d.body.receiver == e.body.receiver)
      ==> d == e
  }

  /** The record links a and b, in either direction. */
  predicate Between(f: Friendship, a: Id, b: Id) {
    (f.sender == a && f.receiver == b) || (f.sender == b && f.receiver == a)
  }

  /** The filter `{ $or: [{ sender: a, receiver: b }, { sender: b, receiver: a }] }`. */
  function LinksPair(a: Id, b: Id): Doc<Friendship> -> bool {
    (d: Doc<Friendship>) => Between(d.body, a, b)
  }

  /** The filter `{ $or: [{ sender: u }, { receiver: u }] }`. */
  function Involves(u: Id): Doc<Friendship> -> bool {
    (d: Doc<Friendship>) => d.body.sender == u || d.body.receiver == u
  }

  /** The ledger invariant the friendship handlers keep: at most one record per unordered pair. */
  ghost predicate OneRecordPerPair(fs: seq<Doc<Friendship>>) {
    forall d, e :: d in fs && e in fs && Between(e.body, d.body.sender, d.body.receiver) ==> d == e
  }

  /** The ledger invariant is stronger than the unique index. */
  lemma LedgerImpliesIndex(fs: seq<Doc<Friendship>>)
    requires OneRecordPerPair(fs)
    ensures UniqueOrderedPairs(fs)
  {
  }
}
