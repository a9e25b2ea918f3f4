/** The new-value computations behind the store's queue actions:
    enqueueing (`addToQueue`), the batch of a processing cycle, the
    per-item status writes and the purge of completed items. */
module StoreQueue {
  import opened Base
  import opened Types
  import opened StoreGroups

  /** `BATCH_SIZE` in `processQueue`. */
  const BatchSize: nat := 5

  predicate HasPair(q: seq<CheckQueueItem>, userId: string, groupId: string) {
    exists i :: 0 <= i < |q| && q[i].userId == userId && q[i].groupId == groupId
  }

  /** Every item's key carries the item's own user and group. */
  predicate WellKeyed(q: seq<CheckQueueItem>) {
    forall i :: 0 <= i < |q| ==> q[i].id.userId == q[i].userId && q[i].id.groupId == q[i].groupId
  }

  /** No two items are queued for the same (user, group) pair. */
  predicate PairsDistinct(q: seq<CheckQueueItem>) {
    forall i, j :: 0 <= i < j < |q| ==> q[i].userId != q[j].userId || q[i].groupId != q[j].groupId
  }

  predicate UniqueKeys(q: seq<CheckQueueItem>) {
    forall i, j :: 0 <= i < j < |q| ==> q[i].id != q[j].id
  }

  lemma DistinctPairsGiveUniqueKeys(q: seq<CheckQueueItem>)
    requires WellKeyed(q) && PairsDistinct(q)
    ensures UniqueKeys(q)
  {
  }

  /** The item `addToQueue` creates for one group. */
  function FreshItem(user: UserInfo, groupId: string, now: int): CheckQueueItem {
    CheckQueueItem(ItemKey(user.id, groupId, now), user.id, groupId, 0, now, Pending, Some(user))
  }

  /** One new PENDING item, priority 0, per group in group order, skipping a
      group for which the queue already holds an item of this user, whatever
      its status. Only the existing queue is consulted. */
  function NewItems(q: seq<CheckQueueItem>, user: UserInfo, gs: seq<GroupInfo>, now: int): seq<CheckQueueItem> {
    if gs == [] then []
    else
      (if HasPair(q, user.id, gs[0].id) then [] else [FreshItem(user, gs[0].id, now)])
      + NewItems(q, user, gs[1..], now)
  }

  /** Every new item is a fresh PENDING item for a group of `gs` that the
      queue lacks for this user, and every such group gets one. */
  lemma {:induction false} NewItemsSpec(q: seq<CheckQueueItem>, user: UserInfo, gs: seq<GroupInfo>, now: int)
    ensures var items := NewItems(q, user, gs, now);
      && |items| <= |gs|
      && (forall k :: 0 <= k < |items| ==>
            && items[k] == FreshItem(user, items[k].groupId, now)
            && HasId(gs, items[k].groupId)
            && !HasPair(q, user.id, items[k].groupId))
      && (forall i :: 0 <= i < |gs| && !HasPair(q, user.id, gs[i].id) ==>
            exists k :: 0 <= k < |items| && items[k].groupId == gs[i].id)
  {
    if gs != [] {
      NewItemsSpec(q, user, gs[1..], now);
      var head := if HasPair(q, user.id, gs[0].id) then [] else [FreshItem(user, gs[0].id, now)];
      var rest := NewItems(q, user, gs[1..], now);
      var r := head + rest;
      assert r == NewItems(q, user, gs, now);
      forall k | 0 <= k < |r|
        ensures r[k] == FreshItem(user, r[k].groupId, now) && HasId(gs, r[k].groupId) && !HasPair(q, user.id, r[k].groupId)
      {
        if k >= |head| {
          assert r[k] == rest[k - |head|];
          var i :| 0 <= i < |gs[1..]| && gs[1..][i].id == rest[k - |head|].groupId;
          assert gs[i + 1].id == r[k].groupId;
        }
      }
      forall i | 0 <= i < |gs| && !HasPair(q, user.id, gs[i].id)
        ensures exists k :: 0 <= k < |r| && r[k].groupId == gs[i].id
      {
        if i == 0 {
          assert r[0].groupId == gs[0].id;
        } else {
          assert gs[i] == gs[1..][i - 1];
          var k :| 0 <= k < |rest| && rest[k].groupId == gs[i].id;
          assert r[|head| + k] == rest[k];
        }
      }
    }
  }

  /** With unique group ids, no two new items share a group. */
  lemma {:induction false} NewItemsDistinct(q: seq<CheckQueueItem>, user: UserInfo, gs: seq<GroupInfo>, now: int)
    requires UniqueIds(gs)
    ensures PairsDistinct(NewItems(q, user, gs, now))
  {
    if gs != [] {
      assert UniqueIds(gs[1..]) by {
        forall i, j | 0 <= i < j < |gs[1..]| ensures gs[1..][i].id != gs[1..][j].id {
          assert gs[1..][i] == gs[i + 1] && gs[1..][j] == gs[j + 1];
        }
      }
      NewItemsDistinct(q, user, gs[1..], now);
      NewItemsSpec(q, user, gs[1..], now);
      var rest := NewItems(q, user, gs[1..], now);
      forall k | 0 <= k < |rest| ensures rest[k].groupId != gs[0].id {
        var i :| 0 <= i < |gs[1..]| && gs[1..][i].id == rest[k].groupId;
        assert gs[i + 1].id == rest[k].groupId;
      }
    }
  }

  /** Enqueueing for groups with unique ids keeps one item per pair and keeps items well keyed. */
  lemma EnqueueKeepsPairsDistinct(q: seq<CheckQueueItem>, user: UserInfo, gs: seq<GroupInfo>, now: int)
    requires UniqueIds(gs) && PairsDistinct(q) && WellKeyed(q)
    ensures PairsDistinct(q + NewItems(q, user, gs, now))
    ensures WellKeyed(q + NewItems(q, user, gs, now))
  {
    NewItemsDistinct(q, user, gs, now);
    NewItemsSpec(q, user, gs, now);
    var items := NewItems(q, user, gs, now);
    var r := q + items;
    forall i, j | 0 <= i < j < |r| ensures r[i].userId != r[j].userId || r[i].groupId != r[j].groupId {
      if i < |q| && j >= |q| {
        assert r[j] == items[j - |q|];
        assert !HasPair(q, user.id, r[j].groupId);
      } else if i >= |q| {
        assert r[i] == items[i - |q|] && r[j] == items[j - |q|];
      }
    }
  }

  /** `queue.filter(item => item.status === "PENDING")`. */
  function PendingItems(q: seq<CheckQueueItem>): (p: seq<CheckQueueItem>)
    ensures |p| <= |q|
    ensures forall x :: x in p <==> x in q && x.status == Pending
  {
    if q == [] then []
    else (if q[0].status == Pending then [q[0]] else []) + PendingItems(q[1..])
  }

  /** `pendingItems.slice(0, BATCH_SIZE)`. */
  function Batch(q: seq<CheckQueueItem>): (b: seq<CheckQueueItem>)
    ensures |b| == if |PendingItems(q)| < BatchSize then |PendingItems(q)| else BatchSize
    ensures b <= PendingItems(q)
  {
    var p := PendingItems(q);
    p[..if |p| < BatchSize then |p| else BatchSize]
  }

  function KeysOf(items: seq<CheckQueueItem>): set<ItemKey> {
    set x | x in items :: x.id
  }

  /** `queue.map(q => <key selected> ? { ...q, status } : q)`. */
  function SetStatus(q: seq<CheckQueueItem>, keys: set<ItemKey>, s: QueueStatus): (r: seq<CheckQueueItem>)
    ensures |r| == |q|
    ensures forall i :: 0 <= i < |q| ==> r[i] == if q[i].id in keys then q[i].(status := s) else q[i]
  {
    if q == [] then []
    else [if q[0].id in keys then q[0].(status := s) else q[0]] + SetStatus(q[1..], keys, s)
  }

  /** Two writes of the same status compose into one. */
  lemma SetStatusTwice(q: seq<CheckQueueItem>, a: set<ItemKey>, b: set<ItemKey>, s: QueueStatus)
    ensures SetStatus(SetStatus(q, a, s), b, s) == SetStatus(q, a + b, s)
  {
  }

  lemma UniqueKeysTail(q: seq<CheckQueueItem>)
    requires q != [] && UniqueKeys(q)
    ensures UniqueKeys(q[1..])
    ensures forall x :: x in q[1..] ==> x.id != q[0].id
  {
    forall i, j | 0 <= i < j < |q[1..]| ensures q[1..][i].id != q[1..][j].id {
      assert q[1..][i] == q[i + 1] && q[1..][j] == q[j + 1];
    }
    forall x | x in q[1..] ensures x.id != q[0].id {
      var j :| 0 <= j < |q[1..]| && q[1..][j] == x;
      assert q[j + 1] == x;
    }
  }

  /** Only the keys that items actually carry matter to `SetStatus`. */
  lemma SetStatusFrame(q: seq<CheckQueueItem>, a: set<ItemKey>, b: set<ItemKey>, s: QueueStatus)
    requires forall x :: x in q ==> (x.id in a <==> x.id in b)
    ensures SetStatus(q, a, s) == SetStatus(q, b, s)
  {
    forall i | 0 <= i < |q| ensures SetStatus(q, a, s)[i] == SetStatus(q, b, s)[i] {
      assert q[i] in q;
    }
  }

  lemma PendingCons(q: seq<CheckQueueItem>)
    requires q != []
    ensures PendingItems(q) == (if q[0].status == Pending then [q[0]] else []) + PendingItems(q[1..])
  {
  }

  lemma KeysOfCons(x: CheckQueueItem, items: seq<CheckQueueItem>)
    ensures KeysOf([x] + items) == {x.id} + KeysOf(items)
  {
    forall y | y in [x] + items ensures y == x || y in items { }
  }

  /** The step of `MarkPrefixProcessing` when the head is pending and inside the batch. */
  lemma MarkPrefixHeadInBatch(q: seq<CheckQueueItem>, n: nat)
    requires q != [] && UniqueKeys(q) && q[0].status == Pending
    requires 0 < n <= |PendingItems(q)|
    requires PendingItems(SetStatus(q[1..], KeysOf(PendingItems(q[1..])[..n - 1]), Processing))
             == PendingItems(q[1..])[n - 1..]
    ensures PendingItems(SetStatus(q, KeysOf(PendingItems(q)[..n]), Processing)) == PendingItems(q)[n..]
  {
    var p, p' := PendingItems(q), PendingItems(q[1..]);
    assert p == [q[0]] + p' by {
      PendingCons(q);
    }
    assert p[..n] == [q[0]] + p'[..n - 1] by {
      assert ([q[0]] + p')[..n] == [q[0]] + p'[..n - 1];
    }
    var keys, keys' := KeysOf(p[..n]), KeysOf(p'[..n - 1]);
    KeysOfCons(q[0], p'[..n - 1]);
    var r := SetStatus(q, keys, Processing);
    assert r[1..] == SetStatus(q[1..], keys', Processing) by {
      UniqueKeysTail(q);
      SetStatusFrame(q[1..], keys, keys', Processing);
      assert r[1..] == SetStatus(q[1..], keys, Processing);
    }
    assert PendingItems(r) == PendingItems(r[1..]) by {
      PendingCons(r);
      assert r[0].status == Processing;
      assert [] + PendingItems(r[1..]) == PendingItems(r[1..]);
    }
    assert p[n..] == p'[n - 1..] by {
      assert ([q[0]] + p')[n..] == p'[n - 1..];
    }
  }

  /** The step of `MarkPrefixProcessing` when the head is not pending. */
  lemma MarkPrefixHeadNotPending(q: seq<CheckQueueItem>, n: nat)
    requires q != [] && UniqueKeys(q) && q[0].status != Pending
    requires n <= |PendingItems(q)|
    requires PendingItems(SetStatus(q[1..], KeysOf(PendingItems(q[1..])[..n]), Processing))
             == PendingItems(q[1..])[n..]
    ensures PendingItems(SetStatus(q, KeysOf(PendingItems(q)[..n]), Processing)) == PendingItems(q)[n..]
  {
    var p' := PendingItems(q[1..]);
    assert PendingItems(q) == p' by {
      PendingCons(q);
      assert [] + p' == p';
    }
    var keys := KeysOf(p'[..n]);
    assert q[0].id !in keys by {
      UniqueKeysTail(q);
      forall x | x in p'[..n] ensures x.id != q[0].id {
        assert x in p';
      }
    }
    var r := SetStatus(q, keys, Processing);
    assert r[1..] == SetStatus(q[1..], keys, Processing);
    assert PendingItems(r) == PendingItems(r[1..]) by {
      PendingCons(r);
      assert r[0] == q[0];
      assert [] + PendingItems(r[1..]) == PendingItems(r[1..]);
    }
  }

  /** Marking the batch PROCESSING takes exactly the first `n` pending items
      out of the pending sequence and leaves the others pending, in order. */
  lemma {:induction false} MarkPrefixProcessing(q: seq<CheckQueueItem>, n: nat)
    requires UniqueKeys(q)
    requires n <= |PendingItems(q)|
    ensures PendingItems(SetStatus(q, KeysOf(PendingItems(q)[..n]), Processing)) == PendingItems(q)[n..]
  {
    if q == [] {
    } else if n == 0 {
      assert KeysOf(PendingItems(q)[..0]) == {};
      SetStatusFrame(q, {}, {}, Processing);
      assert SetStatus(q, {}, Processing) == q;
    } else {
      UniqueKeysTail(q);
      if q[0].status == Pending {
        MarkPrefixProcessing(q[1..], n - 1);
        MarkPrefixHeadInBatch(q, n);
      } else {
        PendingCons(q);
        MarkPrefixProcessing(q[1..], n);
        MarkPrefixHeadNotPending(q, n);
      }
    }
  }

  /** The state change at the start of a cycle: exactly the first
      min(5, #PENDING) pending items become PROCESSING. */
  function StartBatch(q: seq<CheckQueueItem>): seq<CheckQueueItem> {
    SetStatus(q, KeysOf(Batch(q)), Processing)
  }

  /** Starting a cycle on a queue with unique keys leaves the pending items
      after the batch pending, in order, and changes only the batch's statuses. */
  lemma StartBatchSpec(q: seq<CheckQueueItem>)
    requires UniqueKeys(q)
    ensures PendingItems(StartBatch(q)) == PendingItems(q)[|Batch(q)|..]
    ensures |StartBatch(q)| == |q|
    ensures forall i :: 0 <= i < |q| ==> StartBatch(q)[i] == if q[i] in Batch(q) then q[i].(status := Processing) else q[i]
  {
    var b := Batch(q);
    assert PendingItems(StartBatch(q)) == PendingItems(q)[|b|..] by {
      MarkPrefixProcessing(q, |b|);
    }
    forall i | 0 <= i < |q| ensures (q[i].id in KeysOf(b)) == (q[i] in b) {
      if q[i].id in KeysOf(b) {
        var x :| x in b && x.id == q[i].id;
        assert x in PendingItems(q);
        var j :| 0 <= j < |q| && q[j] == x;
        assert i == j;
      }
    }
  }

  /** `queue.filter(q => q.status !== "COMPLETED")`. */
  function Purge(q: seq<CheckQueueItem>): (r: seq<CheckQueueItem>)
    ensures forall x :: x in r <==> x in q && x.status != Completed
  {
    if q == [] then []
    else (if q[0].status == Completed then [] else [q[0]]) + Purge(q[1..])
  }

  /** Items that survive a cycle that settled `keys`: neither settled nor completed, in queue order. */
  function Remaining(q: seq<CheckQueueItem>, keys: set<ItemKey>): (r: seq<CheckQueueItem>)
    ensures forall x :: x in r <==> x in q && x.id !in keys && x.status != Completed
  {
    if q == [] then []
    else (if q[0].id in keys || q[0].status == Completed then [] else [q[0]]) + Remaining(q[1..], keys)
  }

  /** Marking the settled items COMPLETED and purging leaves exactly the remaining items. */
  lemma {:induction false} PurgeAfterSettle(q: seq<CheckQueueItem>, keys: set<ItemKey>)
    ensures Purge(SetStatus(q, keys, Completed)) == Remaining(q, keys)
  {
    if q != [] {
      var r := SetStatus(q, keys, Completed);
      assert r[1..] == SetStatus(q[1..], keys, Completed);
      PurgeAfterSettle(q[1..], keys);
    }
  }

  /** `queue.filter(item => item.id !== id)`. */
  function WithoutItem(q: seq<CheckQueueItem>, key: ItemKey): (r: seq<CheckQueueItem>)
    ensures |r| <= |q|
    ensures forall x :: x in r <==> x in q && x.id != key
  {
    if q == [] then []
    else (if q[0].id == key then [] else [q[0]]) + WithoutItem(q[1..], key)
  }

  /** Removing an item keeps the other items one per pair. */
  lemma {:induction false} WithoutItemKeepsInvariant(q: seq<CheckQueueItem>, key: ItemKey)
    requires PairsDistinct(q) && WellKeyed(q)
    ensures PairsDistinct(WithoutItem(q, key)) && WellKeyed(WithoutItem(q, key))
  {
    if q != [] {
      assert PairsDistinct(q[1..]) && WellKeyed(q[1..]) by {
        forall i, j | 0 <= i < j < |q[1..]|
          ensures q[1..][i].userId != q[1..][j].userId || q[1..][i].groupId != q[1..][j].groupId
        {
          assert q[1..][i] == q[i + 1] && q[1..][j] == q[j + 1];
        }
        forall i | 0 <= i < |q[1..]| ensures q[1..][i] == q[i + 1] { }
      }
      WithoutItemKeepsInvariant(q[1..], key);
      var rest := WithoutItem(q[1..], key);
      forall k | 0 <= k < |rest| ensures rest[k].userId != q[0].userId || rest[k].groupId != q[0].groupId {
        var j :| 0 <= j < |q[1..]| && q[1..][j] == rest[k];
        assert q[j + 1] == rest[k];
      }
    }
  }

  predicate NoneCompleted(q: seq<CheckQueueItem>) {
    forall i :: 0 <= i < |q| ==> q[i].status != Completed
  }

  predicate SomePending(q: seq<CheckQueueItem>) {
    exists i :: 0 <= i < |q| && q[i].status == Pending
  }

  /** A status write keeps keys, pairs and users; it adds no COMPLETED item unless it writes COMPLETED. */
  lemma SetStatusKeeps(q: seq<CheckQueueItem>, keys: set<ItemKey>, s: QueueStatus)
    ensures WellKeyed(q) ==> WellKeyed(SetStatus(q, keys, s))
    ensures PairsDistinct(q) ==> PairsDistinct(SetStatus(q, keys, s))
    ensures NoneCompleted(q) && s != Completed ==> NoneCompleted(SetStatus(q, keys, s))
  {
    var r := SetStatus(q, keys, s);
    assert forall i :: 0 <= i < |q| ==> r[i].id == q[i].id && r[i].userId == q[i].userId && r[i].groupId == q[i].groupId;
  }

  /** Items outside `keys` keep their relative order and their invariants when the others are dropped. */
  lemma {:induction false} RemainingKeepsInvariant(q: seq<CheckQueueItem>, keys: set<ItemKey>)
    requires PairsDistinct(q) && WellKeyed(q)
    ensures PairsDistinct(Remaining(q, keys)) && WellKeyed(Remaining(q, keys)) && NoneCompleted(Remaining(q, keys))
  {
    if q != [] {
      assert PairsDistinct(q[1..]) && WellKeyed(q[1..]) by {
        forall i, j | 0 <= i < j < |q[1..]|
          ensures q[1..][i].userId != q[1..][j].userId || q[1..][i].groupId != q[1..][j].groupId
        {
          assert q[1..][i] == q[i + 1] && q[1..][j] == q[j + 1];
        }
        forall i | 0 <= i < |q[1..]| ensures q[1..][i] == q[i + 1] { }
      }
      RemainingKeepsInvariant(q[1..], keys);
      var rest := Remaining(q[1..], keys);
      forall k | 0 <= k < |rest| ensures rest[k].userId != q[0].userId || rest[k].groupId != q[0].groupId {
        var j :| 0 <= j < |q[1..]| && q[1..][j] == rest[k];
        assert q[j + 1] == rest[k];
      }
      var r := Remaining(q, keys);
      forall i | 0 <= i < |r| ensures r[i].status != Completed {
        assert r[i] in r;
      }
    }
  }

  /** Writing a non-COMPLETED status to the items a cycle will drop does not change what remains. */
  lemma {:induction false} RemainingIgnoresMarked(q: seq<CheckQueueItem>, keys: set<ItemKey>, s: QueueStatus)
    requires s != Completed
    ensures Remaining(SetStatus(q, keys, s), keys) == Remaining(q, keys)
  {
    if q != [] {
      var r := SetStatus(q, keys, s);
      assert r[1..] == SetStatus(q[1..], keys, s);
      RemainingIgnoresMarked(q[1..], keys, s);
    }
  }

  /** `b` is `a` with some items switched to PROCESSING and items for new pairs appended. */
  predicate Extends(a: seq<CheckQueueItem>, b: seq<CheckQueueItem>) {
    && |a| <= |b|
    && (forall i :: 0 <= i < |a| ==> b[i] == a[i] || b[i] == a[i].(status := Processing))
    && (forall i :: |a| <= i < |b| ==> !HasPair(a, b[i].userId, b[i].groupId))
  }

  lemma ExtendsTrans(a: seq<CheckQueueItem>, b: seq<CheckQueueItem>, c: seq<CheckQueueItem>)
    requires Extends(a, b) && Extends(b, c)
    ensures Extends(a, c)
  {
    forall i | 0 <= i < |a| ensures c[i] == a[i] || c[i] == a[i].(status := Processing) {
      assert c[i] == b[i] || c[i] == b[i].(status := Processing);
    }
    forall i | |a| <= i < |c| ensures !HasPair(a, c[i].userId, c[i].groupId) {
      if i < |b| {
        assert c[i].userId == b[i].userId && c[i].groupId == b[i].groupId;
      }
    }
  }

  /** Enqueueing extends the queue. */
  lemma EnqueueExtends(q: seq<CheckQueueItem>, user: UserInfo, gs: seq<GroupInfo>, now: int)
    ensures Extends(q, q + NewItems(q, user, gs, now))
  {
    NewItemsSpec(q, user, gs, now);
    var items := NewItems(q, user, gs, now);
    forall i | |q| <= i < |q + items| ensures !HasPair(q, (q + items)[i].userId, (q + items)[i].groupId) {
      assert (q + items)[i] == items[i - |q|];
    }
  }

  /** A status write to PROCESSING extends the queue. */
  lemma MarkProcessingExtends(q: seq<CheckQueueItem>, keys: set<ItemKey>)
    ensures Extends(q, SetStatus(q, keys, Processing))
  {
  }
}
