/** The conversation log: the `Conversation` collection, the queries the
    service runs on it (`find().sort({ createdAt: ±1 })`, `countDocuments`,
    `deleteMany({ _id: { $in: ids } })`, `save`), and the retention rule
    that the cleanup jobs apply to it. */
module ConversationLog {

  /** A stored document: `_id`, `question`, `answer` and `createdAt` (the
      `Date.now` default, as an integer). */
  datatype Conversation = Conversation(id: nat, question: string, answer: string, createdAt: int)

  /** The sort specification `{ createdAt: 1 }` or `{ createdAt: -1 }`. */
  datatype Direction = Ascending | Descending

  predicate InOrder(a: Conversation, b: Conversation, dir: Direction) {
    match dir
    case Ascending => a.createdAt <= b.createdAt
    case Descending => a.createdAt >= b.createdAt
  }

  predicate SortedBy(s: seq<Conversation>, dir: Direction) {
    forall i, j :: 0 <= i < j < |s| ==> InOrder(s[i], s[j], dir)
  }

  function Insert(x: Conversation, s: seq<Conversation>, dir: Direction): (r: seq<Conversation>)
    requires SortedBy(s, dir)
    ensures |r| == |s| + 1
    ensures SortedBy(r, dir)
    ensures multiset(r) == multiset(s) + multiset{x}
  {
    if s == [] || InOrder(x, s[0], dir) then [x] + s
    else
      var rest := Insert(x, s[1..], dir);
      assert s == [s[0]] + s[1..];
      HeadPrecedesInsert(s[0], s[1..], x, rest, dir);
      [s[0]] + rest
  }

  /** What a document precedes in a sort, it still precedes after one more
      document that it also precedes is inserted. */
  lemma HeadPrecedesInsert(h: Conversation, s: seq<Conversation>, x: Conversation, rest: seq<Conversation>, dir: Direction)
    requires forall k :: 0 <= k < |s| ==> InOrder(h, s[k], dir)
    requires InOrder(h, x, dir)
    requires multiset(rest) == multiset(s) + multiset{x}
    ensures forall k :: 0 <= k < |rest| ==> InOrder(h, rest[k], dir)
  {
    forall k | 0 <= k < |rest|
      ensures InOrder(h, rest[k], dir)
    {
      var y := rest[k];
      assert y in multiset(rest);
      if y != x {
        assert y in multiset(s);
        var m :| 0 <= m < |s| && s[m] == y;
      }
    }
  }

  /** The order the store returns documents in for a sort on `createdAt`.
      Documents with equal `createdAt` keep their insertion order. */
  function Sort(s: seq<Conversation>, dir: Direction): (r: seq<Conversation>)
    ensures |r| == |s|
    ensures SortedBy(r, dir)
    ensures multiset(r) == multiset(s)
  {
    if s == [] then []
    else
      assert s == [s[0]] + s[1..];
      Insert(s[0], Sort(s[1..], dir), dir)
  }

  /** No two documents share an `_id`. */
  predicate UniqueIds(s: seq<Conversation>) {
    forall i, j :: 0 <= i < j < |s| ==> s[i].id != s[j].id
  }

  /** `docs.map(doc => doc._id)`, as the set the `$in` filter tests. */
  function IdsOf(s: seq<Conversation>): (ids: set<nat>)
    ensures forall x :: x in s ==> x.id in ids
    ensures forall id :: id in ids ==> exists x :: x in s && x.id == id
  {
    set x | x in s :: x.id
  }

  /** `deleteMany({ _id: { $in: ids } })`: the documents left, in order. */
  function RemoveIds(s: seq<Conversation>, ids: set<nat>): (r: seq<Conversation>)
    ensures |r| <= |s|
    ensures forall x :: x in r <==> x in s && x.id !in ids
  {
    if s == [] then []
    else
      assert s == [s[0]] + s[1..];
      if s[0].id in ids then RemoveIds(s[1..], ids)
      else [s[0]] + RemoveIds(s[1..], ids)
  }

  /** Deleting documents keeps the `_id`s of the rest unique. */
  lemma {:induction false} RemoveIdsKeepsUnique(s: seq<Conversation>, ids: set<nat>)
    requires UniqueIds(s)
    ensures UniqueIds(RemoveIds(s, ids))
  {
    if s != [] {
      var tail := s[1..];
      assert UniqueIds(tail) by {
        forall i, j | 0 <= i < j < |tail| ensures tail[i].id != tail[j].id {
          assert tail[i] == s[i + 1] && tail[j] == s[j + 1];
        }
      }
      RemoveIdsKeepsUnique(tail, ids);
      var rest := RemoveIds(tail, ids);
      if s[0].id !in ids {
        forall y | y in rest ensures y.id != s[0].id {
          var k :| 0 <= k < |tail| && tail[k] == y;
          assert s[k + 1] == y;
        }
        assert RemoveIds(s, ids) == [s[0]] + rest;
      }
    }
  }

  /** `find().sort({ createdAt: 1 }).limit(n)`: the `n` oldest documents. */
  function Oldest(docs: seq<Conversation>, n: nat): (r: seq<Conversation>)
    requires n <= |docs|
    ensures |r| == n && SortedBy(r, Ascending)
    ensures multiset(r) <= multiset(docs)
  {
    var sorted := Sort(docs, Ascending);
    assert sorted == sorted[..n] + sorted[n..];
    sorted[..n]
  }

  /** The number of documents a cleanup run removes. */
  function Excess(count: nat, threshold: nat): nat {
    if count > threshold then count - threshold else 0
  }

  /** The documents a cleanup run deletes. */
  function Evicted(docs: seq<Conversation>, threshold: nat): seq<Conversation> {
    Oldest(docs, Excess(|docs|, threshold))
  }

  /** The log after one cleanup run with the given threshold: when it holds
      more than `threshold` documents, the ids of the `count - threshold`
      oldest are looked up and those documents deleted. */
  function Cleaned(docs: seq<Conversation>, threshold: nat): (r: seq<Conversation>)
    ensures |r| <= |docs|
    ensures forall x :: x in r ==> x in docs
  {
    if |docs| <= threshold then docs
    else RemoveIds(docs, IdsOf(Oldest(docs, |docs| - threshold)))
  }

  // ---------------------------------------------------------------------
  // Lemmas about ids and multiplicities

  lemma {:induction false} RemoveIdsCount(s: seq<Conversation>, ids: set<nat>, x: Conversation)
    ensures multiset(RemoveIds(s, ids))[x] == if x.id in ids then 0 else multiset(s)[x]
  {
    if s != [] {
      var rest := RemoveIds(s[1..], ids);
      RemoveIdsCount(s[1..], ids, x);
      assert multiset(s) == multiset{s[0]} + multiset(s[1..]) by {
        assert s == [s[0]] + s[1..];
      }
      if s[0].id !in ids {
        assert multiset(RemoveIds(s, ids)) == multiset{s[0]} + multiset(rest) by {
          assert RemoveIds(s, ids) == [s[0]] + rest;
        }
      }
    }
  }

  lemma {:induction false} UniqueIdsOnce(s: seq<Conversation>, x: Conversation)
    requires UniqueIds(s)
    ensures multiset(s)[x] <= 1
  {
    if s != [] {
      assert s == [s[0]] + s[1..];
      assert UniqueIds(s[1..]) by {
        forall i, j | 0 <= i < j < |s[1..]| ensures s[1..][i].id != s[1..][j].id {
          assert s[1..][i] == s[i + 1] && s[1..][j] == s[j + 1];
        }
      }
      UniqueIdsOnce(s[1..], x);
    }
  }

  lemma SameIdSameDoc(s: seq<Conversation>, x: Conversation, y: Conversation)
    requires UniqueIds(s) && x in s && y in s && x.id == y.id
    ensures x == y
  {
    var i :| 0 <= i < |s| && s[i] == x;
    var j :| 0 <= j < |s| && s[j] == y;
  }

  // ---------------------------------------------------------------------
  // The retention rule

  /** Splitting a log with unique ids into `evicted` and `kept` and deleting
      the ids of `evicted` leaves each document as often as `kept` holds it. */
  lemma RemoveSplitCount(docs: seq<Conversation>, evicted: seq<Conversation>, kept: seq<Conversation>, x: Conversation)
    requires UniqueIds(docs)
    requires multiset(evicted) + multiset(kept) == multiset(docs)
    ensures multiset(RemoveIds(docs, IdsOf(evicted)))[x] == multiset(kept)[x]
  {
    RemoveIdsCount(docs, IdsOf(evicted), x);
    if x.id in IdsOf(evicted) {
      var p :| p in evicted && p.id == x.id;
      if x in docs {
        assert p in multiset(docs);
        SameIdSameDoc(docs, x, p);
        UniqueIdsOnce(docs, x);
        assert multiset(evicted)[x] >= 1;
      } else {
        assert multiset(docs)[x] == 0;
      }
    } else {
      assert x !in multiset(evicted);
    }
  }

  lemma RemoveSplit(docs: seq<Conversation>, evicted: seq<Conversation>, kept: seq<Conversation>)
    requires UniqueIds(docs)
    requires multiset(evicted) + multiset(kept) == multiset(docs)
    ensures multiset(RemoveIds(docs, IdsOf(evicted))) == multiset(kept)
  {
    var r := RemoveIds(docs, IdsOf(evicted));
    forall x
      ensures multiset(r)[x] == multiset(kept)[x]
    {
      RemoveSplitCount(docs, evicted, kept, x);
    }
  }

  /** Whatever holds the documents from position `n` of an ascending
      sequence is no older than anything before position `n`. */
  lemma SortedSplit(sorted: seq<Conversation>, n: nat, r: seq<Conversation>)
    requires SortedBy(sorted, Ascending) && n <= |sorted|
    requires multiset(r) == multiset(sorted[n..])
    ensures forall x, y :: x in sorted[..n] && y in r ==> x.createdAt <= y.createdAt
  {
    forall x, y | x in sorted[..n] && y in r
      ensures x.createdAt <= y.createdAt
    {
      assert y in multiset(sorted[n..]);
      var i :| 0 <= i < n && sorted[..n][i] == x;
      var j :| 0 <= j < |sorted| - n && sorted[n..][j] == y;
      assert sorted[i] == x && sorted[n + j] == y;
    }
  }

  /** Deleting the ids of the first `n` documents of an arrangement of
      `docs` leaves exactly the rest of that arrangement. */
  lemma RemovePrefix(docs: seq<Conversation>, sorted: seq<Conversation>, n: nat)
    requires UniqueIds(docs) && multiset(sorted) == multiset(docs) && n <= |sorted|
    ensures multiset(RemoveIds(docs, IdsOf(sorted[..n]))) == multiset(sorted[n..])
  {
    var evicted, kept := sorted[..n], sorted[n..];
    assert multiset(evicted) + multiset(kept) == multiset(docs) by {
      assert sorted == evicted + kept;
    }
    RemoveSplit(docs, evicted, kept);
  }

  /** Whatever holds exactly the documents from position `n` of an
      ascending arrangement of `docs` has `|docs| - n` documents, makes up
      `docs` together with the first `n`, and is no older than any of them. */
  lemma KeptSuffixOfSorted(docs: seq<Conversation>, sorted: seq<Conversation>, n: nat, r: seq<Conversation>)
    requires SortedBy(sorted, Ascending) && multiset(sorted) == multiset(docs) && n <= |sorted|
    requires multiset(r) == multiset(sorted[n..])
    ensures |r| == |docs| - n
    ensures multiset(r) + multiset(sorted[..n]) == multiset(docs)
    ensures forall x, y :: x in sorted[..n] && y in r ==> x.createdAt <= y.createdAt
  {
    assert multiset(sorted[..n]) + multiset(sorted[n..]) == multiset(docs) by {
      assert sorted == sorted[..n] + sorted[n..];
    }
    assert |r| == |multiset(r)| == |sorted[n..]|;
    assert |sorted| == |multiset(sorted)| == |multiset(docs)| == |docs|;
    SortedSplit(sorted, n, r);
  }

  lemma CleanedOverThreshold(docs: seq<Conversation>, threshold: nat)
    requires UniqueIds(docs) && |docs| > threshold
    ensures |Cleaned(docs, threshold)| == threshold
    ensures |Evicted(docs, threshold)| == |docs| - threshold
    ensures multiset(Cleaned(docs, threshold)) + multiset(Evicted(docs, threshold)) == multiset(docs)
    ensures forall x, y :: x in Evicted(docs, threshold) && y in Cleaned(docs, threshold) ==> x.createdAt <= y.createdAt
  {
    var n := |docs| - threshold;
    var sorted := Sort(docs, Ascending);
    assert Evicted(docs, threshold) == sorted[..n];
    assert Cleaned(docs, threshold) == RemoveIds(docs, IdsOf(sorted[..n]));
    RemovePrefix(docs, sorted, n);
    KeptSuffixOfSorted(docs, sorted, n, Cleaned(docs, threshold));
  }

  /** A cleanup run keeps the log unchanged when it is within the threshold,
      and otherwise leaves exactly `threshold` documents; the documents it
      keeps and the ones it evicts together make up the old log; every
      evicted document is at least as old as every kept one. */
  lemma CleanedKeepsNewest(docs: seq<Conversation>, threshold: nat)
    requires UniqueIds(docs)
    ensures |docs| <= threshold ==> Cleaned(docs, threshold) == docs && Evicted(docs, threshold) == []
    ensures |docs| > threshold ==> |Cleaned(docs, threshold)| == threshold
    ensures |Evicted(docs, threshold)| == Excess(|docs|, threshold)
    ensures multiset(Cleaned(docs, threshold)) + multiset(Evicted(docs, threshold)) == multiset(docs)
    ensures forall x, y :: x in Evicted(docs, threshold) && y in Cleaned(docs, threshold) ==> x.createdAt <= y.createdAt
    ensures UniqueIds(Cleaned(docs, threshold))
  {
    if |docs| > threshold {
      CleanedOverThreshold(docs, threshold);
      RemoveIdsKeepsUnique(docs, IdsOf(Evicted(docs, threshold)));
    } else {
      assert Evicted(docs, threshold) == [];
    }
  }

  // ---------------------------------------------------------------------
  // The store

  /** The `Conversation` collection. `nextId` stands for the driver's
      generation of fresh `_id`s. */
  class ConversationStore {
    var docs: seq<Conversation>
    var nextId: nat

    ghost predicate Valid()
      reads this
    {
      UniqueIds(docs) && forall i :: 0 <= i < |docs| ==> docs[i].id < nextId
    }

    constructor ()
      ensures Valid() && docs == []
    {
      docs := [];
      nextId := 0;
    }

    /** `new Conversation({ question, answer }).save()`: appends one
        document stamped `createdAt`, or, when the store is unavailable,
        fails and stores nothing. */
    method Save(question: string, answer: string, createdAt: int, available: bool) returns (saved: bool)
      requires Valid()
      modifies this
      ensures Valid()
      ensures saved == available
      ensures saved ==> docs == old(docs) + [Conversation(old(nextId), question, answer, createdAt)]
      ensures !saved ==> docs == old(docs)
    {
      saved := available;
      if available {
        docs := docs + [Conversation(nextId, question, answer, createdAt)];
        nextId := nextId + 1;
      }
    }

    /** `find().sort({ createdAt: ±1 })`: every document, ordered. */
    function Find(dir: Direction): (r: seq<Conversation>)
      reads this
      ensures SortedBy(r, dir)
      ensures multiset(r) == multiset(docs)
    {
      Sort(docs, dir)
    }

    /** `deleteMany({ _id: { $in: ids } })`, reporting `deletedCount`. */
    method DeleteMany(ids: set<nat>) returns (deletedCount: nat)
      requires Valid()
      modifies this
      ensures Valid() && nextId == old(nextId)
      ensures docs == RemoveIds(old(docs), ids)
      ensures deletedCount == |old(docs)| - |docs|
    {
      var remaining := RemoveIds(docs, ids);
      RemoveIdsKeepsUnique(docs, ids);
      deletedCount := |docs| - |remaining|;
      docs := remaining;
    }
  }

  /** `GET /api/conversation`, the same handler in both services:
      `find().sort({ createdAt: -1 })` over the whole store. */
  function NewestFirst(store: ConversationStore): (r: seq<Conversation>)
    reads store
    ensures forall i, j :: 0 <= i < j < |r| ==> r[i].createdAt >= r[j].createdAt
    ensures multiset(r) == multiset(store.docs)
  {
    store.Find(Descending)
  }
}
