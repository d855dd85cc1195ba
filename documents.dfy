/** A collection of the document store, seen as the sequence of its documents in natural
    (insertion) order. Each handler of the back end is a short sequence of `find`, `findOne`,
    `countDocuments`, `deleteMany` and `save` calls over such collections; this module gives
    those calls their meaning once, for every kind of document. */
module Documents {

  /** An ObjectId. Only equality is ever used on ids; the store draws fresh ones from a counter.
      The handlers compare ids both as cast ObjectIds (in queries and array membership) and
      as strings (`toString() === id`); one equality stands for both, which holds when
      every id arrives in canonical lowercase hexadecimal form. */
  type Id = nat

  datatype Option<+T> = None | Some(value: T)

  /** A stored document: its `_id` and its fields. */
  datatype Doc<+T> = Doc(id: Id, body: T)

  /** How a handler refuses a request (the HTTP layer maps these to 400, 404, 403 and 500). */
  datatype Failure = BadRequest | NotFound | Forbidden | ServerError

  /** What a handler answers: a payload, or a classified failure. */
  datatype Response<+T> = Ok(value: T) | Fail(failure: Failure)

  /** No two documents of the collection share an `_id`. */
  ghost predicate UniqueIds<T>(s: seq<Doc<T>>) {
    forall i, j :: 0 <= i < j < |s| ==> s[i].id != s[j].id
  }

  /** Every id in the collection was handed out before `bound`. */
  ghost predicate IdsBelow<T(!new)>(s: seq<Doc<T>>, bound: Id) {
    forall d :: d in s ==> d.id < bound
  }

  /** The filter `{ _id: id }`. */
  function HasId<T>(id: Id): Doc<T> -> bool {
    (d: Doc<T>) => d.id == id
  }

  /** The complement of a filter, as `deleteMany(filter)` leaves it behind. */
  function Not<T>(p: Doc<T> -> bool): Doc<T> -> bool {
    (d: Doc<T>) => !p(d)
  }

  /** `find(filter)`: the documents that satisfy the filter, in natural order. */
  function Where<T(!new)>(s: seq<Doc<T>>, p: Doc<T> -> bool): (r: seq<Doc<T>>)
    ensures forall d :: d in r <==> d in s && p(d)
    ensures |r| <= |s|
  {
    if s == [] then []
    else (if p(s[0]) then [s[0]] else []) + Where(s[1..], p)
  }

  /** `find` lists every matching document as often as the collection holds it, and
      nothing else: its result is the collection's sub-multiset selected by the filter. */
  lemma {:induction false} WhereCounts<T(!new)>(s: seq<Doc<T>>, p: Doc<T> -> bool)
    ensures forall d :: multiset(Where(s, p))[d] == if p(d) then multiset(s)[d] else 0
  {
    if s != [] {
      WhereCounts(s[1..], p);
      assert s == [s[0]] + s[1..];
    }
  }

  /** A stronger filter finds no more documents. */
  lemma {:induction false} WhereMonotone<T(!new)>(s: seq<Doc<T>>, p: Doc<T> -> bool, q: Doc<T> -> bool)
    requires forall d :: p(d) ==> q(d)
    ensures |Where(s, p)| <= |Where(s, q)|
  {
    if s != [] {
      WhereMonotone(s[1..], p, q);
    }
  }

  /** `findOne(filter)`: the position of the first document, in natural order, that
      satisfies the filter; None when no document does. */
  function FindFirst<T(!new)>(s: seq<Doc<T>>, p: Doc<T> -> bool): (r: Option<nat>)
    ensures r.Some? ==> r.value < |s| && p(s[r.value])
    ensures r.Some? ==> forall j :: 0 <= j < r.value ==> !p(s[j])
    ensures r.None? <==> forall d :: d in s ==> !p(d)
  {
    if s == [] then None
    else if p(s[0]) then Some(0)
    else
      match FindFirst(s[1..], p)
      case None => None
      case Some(k) => Some(k + 1)
  }

  /** `findById(id)`. */
  function FindById<T(!new)>(s: seq<Doc<T>>, id: Id): (r: Option<nat>)
    ensures r.Some? ==> r.value < |s| && s[r.value].id == id
    ensures r.None? <==> forall d :: d in s ==> d.id != id
  {
    FindFirst(s, HasId(id))
  }

  /** With unique ids, `findById` finds the one document that carries the id. */
  lemma FindByIdFindsMember<T(!new)>(s: seq<Doc<T>>, i: nat)
    requires UniqueIds(s) && i < |s|
    ensures FindById(s, s[i].id) == Some(i)
  {
  }

  /** A filtered collection still has unique ids. */
  lemma {:induction false} WhereKeepsUniqueIds<T(!new)>(s: seq<Doc<T>>, p: Doc<T> -> bool)
    requires UniqueIds(s)
    ensures UniqueIds(Where(s, p))
  {
    if s != [] {
      var tail := s[1..];
      assert UniqueIds(tail) by {
        forall i, j | 0 <= i < j < |tail| ensures tail[i].id != tail[j].id {
          assert tail[i] == s[i + 1] && tail[j] == s[j + 1];
        }
      }
      WhereKeepsUniqueIds(tail, p);
      var rest := Where(tail, p);
      forall d | d in rest ensures d.id != s[0].id {
        var k :| 0 <= k < |tail| && tail[k] == d;
        assert d == s[k + 1];
      }
      if p(s[0]) {
        assert Where(s, p) == [s[0]] + rest;
        ConsKeepsUniqueIds(s[0], rest);
      } else {
        assert Where(s, p) == rest;
      }
    }
  }

  /** A document whose id the rest lacks can go in front. */
  lemma ConsKeepsUniqueIds<T>(x: Doc<T>, rest: seq<Doc<T>>)
    requires UniqueIds(rest) && forall d :: d in rest ==> d.id != x.id
    ensures UniqueIds([x] + rest)
  {
    forall i, j | 0 <= i < j < |[x] + rest|
      ensures ([x] + rest)[i].id != ([x] + rest)[j].id
    {
      assert ([x] + rest)[j] == rest[j - 1];
      if i > 0 {
        assert ([x] + rest)[i] == rest[i - 1];
      }
    }
  }

  /** `findOne` answers alike for two filters that accept the same documents. */
  lemma {:induction false} FindFirstAgrees<T(!new)>(s: seq<Doc<T>>, p: Doc<T> -> bool, q: Doc<T> -> bool)
    requires forall d :: d in s ==> (p(d) <==> q(d))
    ensures FindFirst(s, p) == FindFirst(s, q)
  {
    if s != [] {
      FindFirstAgrees(s[1..], p, q);
    }
  }

  /** `countDocuments` after a document is appended. */
  lemma {:induction false} CountAppend<T(!new)>(s: seq<Doc<T>>, x: Doc<T>, p: Doc<T> -> bool)
    ensures |Where(s + [x], p)| == |Where(s, p)| + (if p(x) then 1 else 0)
  {
    if s == [] {
      assert Where([x], p) == (if p(x) then [x] else []) + Where([], p);
    } else {
      assert (s + [x])[1..] == s[1..] + [x];
      CountAppend(s[1..], x, p);
    }
  }

  /** `countDocuments` after the document at position i is replaced by x. */
  lemma {:induction false} CountReplace<T(!new)>(s: seq<Doc<T>>, i: nat, x: Doc<T>, p: Doc<T> -> bool)
    requires i < |s|
    ensures |Where(s[i := x], p)| + (if p(s[i]) then 1 else 0)
         == |Where(s, p)| + (if p(x) then 1 else 0)
  {
    if i == 0 {
      assert s[i := x][1..] == s[1..];
    } else {
      assert s[i := x][1..] == s[1..][i - 1 := x];
      CountReplace(s[1..], i - 1, x, p);
    }
  }
}
