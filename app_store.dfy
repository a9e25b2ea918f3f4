/** The application store: one object whose actions replace its fields
    `groups`, `queue`, `recentChecks`, `isProcessing` and `maxRecentChecks`.
    What the network answers, the clock, and the order in which the items of
    a batch settle are parameters of the actions. */
module AppStore {
  import opened Base
  import opened Types
  import opened StoreGroups
  import opened StoreQueue
  import opened StoreRecent

  const InitialMaxRecentChecks: int := 200

  /** What one `checkSingleMembership` call got back: the role
      `getMembershipRole` resolved to (`None` when it rejected), the profile
      `findFacebookInfo(userId)` gave (`None` for null or a caught rejection),
      and the time the status was made. */
  datatype Lookup = Lookup(role: Option<MembershipRole>, profile: Option<UserInfo>, now: int)

  /** `groups.find(g => g.id === groupId)`: the first group with that id. */
  function FindGroup(gs: seq<GroupInfo>, id: string): (r: Option<GroupInfo>)
    ensures r.Some? ==> exists k :: 0 <= k < |gs| && gs[k] == r.value && r.value.id == id
                                   && forall j :: 0 <= j < k ==> gs[j].id != id
    ensures r.None? <==> !HasId(gs, id)
  {
    match IndexOfId(gs, id)
    case Some(k) => Some(gs[k])
    case None => None
  }

  /** `order[..k + 1]` settles one more item than `order[..k]`. */
  lemma SettledOneMore(batch: seq<CheckQueueItem>, lookups: seq<Lookup>, order: seq<nat>, k: nat, gs: seq<GroupInfo>)
    requires |lookups| == |batch| && k < |order|
    requires forall j :: 0 <= j < |order| ==> order[j] < |batch|
    ensures Settled(batch, lookups, order[..k + 1], gs)
            == Settled(batch, lookups, order[..k], gs)
               + [SingleStatus(batch[order[k]].userId, batch[order[k]].groupId, batch[order[k]].userInfo, gs, lookups[order[k]])]
  {
  }

  /** Recording the statuses of `order[..k + 1]` is recording those of
      `order[..k]` and then the status of item `order[k]`. */
  lemma RecordSettledOneMore(list: seq<MembershipStatus>, batch: seq<CheckQueueItem>, lookups: seq<Lookup>,
                             order: seq<nat>, k: nat, gs: seq<GroupInfo>, max: int)
    requires |lookups| == |batch| && k < |order|
    requires forall j :: 0 <= j < |order| ==> order[j] < |batch|
    ensures RecordAll(list, Settled(batch, lookups, order[..k + 1], gs), max)
            == AddRecent(RecordAll(list, Settled(batch, lookups, order[..k], gs), max),
                         SingleStatus(batch[order[k]].userId, batch[order[k]].groupId, batch[order[k]].userInfo, gs, lookups[order[k]]),
                         max)
  {
    SettledOneMore(batch, lookups, order, k, gs);
    var s := Settled(batch, lookups, order[..k + 1], gs);
    assert s[..|s| - 1] == Settled(batch, lookups, order[..k], gs);
  }

  /** Settling in an order that lists every index settles every item of the batch. */
  lemma OrderCoversBatch(batch: seq<CheckQueueItem>, order: seq<nat>)
    requires IsOrder(order, |batch|)
    ensures (set j | 0 <= j < |order| :: batch[order[j]].id) == KeysOf(batch)
  {
    forall x | x in batch ensures x.id in (set j | 0 <= j < |order| :: batch[order[j]].id) {
      var i :| 0 <= i < |batch| && batch[i] == x;
      assert i in order;
      var j :| 0 <= j < |order| && order[j] == i;
    }
  }

  /** The status `checkSingleMembership` records: the role when the
      classification resolved, and ERROR with the queued profile and no group
      when it rejected. */
  function SingleStatus(userId: string, groupId: string, cached: Option<UserInfo>, gs: seq<GroupInfo>, l: Lookup): MembershipStatus {
    match l.role
    case Some(role) =>
      MembershipStatus(userId, groupId, Role(role), l.now, if cached.Some? then cached else l.profile, FindGroup(gs, groupId))
    case None =>
      MembershipStatus(userId, groupId, Error, l.now, cached, None)
  }

  /** The CHECKING placeholders `checkUserMembership` records, one per group. */
  function Placeholders(u: UserInfo, gs: seq<GroupInfo>, now: int): seq<MembershipStatus> {
    seq(|gs|, i requires 0 <= i < |gs| => MembershipStatus(u.id, gs[i].id, Checking, now, Some(u), Some(gs[i])))
  }

  /** The final status of one group: its role, or ERROR when its classification rejected. */
  function FinalStatus(u: UserInfo, g: GroupInfo, role: Option<MembershipRole>, now: int): MembershipStatus {
    MembershipStatus(u.id, g.id, if role.Some? then Role(role.value) else Error, now, Some(u), Some(g))
  }

  function Finals(u: UserInfo, gs: seq<GroupInfo>, roles: seq<Option<MembershipRole>>, now: int): seq<MembershipStatus>
    requires |roles| == |gs|
  {
    seq(|gs|, i requires 0 <= i < |gs| => FinalStatus(u, gs[i], roles[i], now))
  }

  /** `order` lists every index below `n` once: the order in which the items of a batch settle. */
  predicate IsOrder(order: seq<nat>, n: nat) {
    && |order| == n
    && (forall j :: 0 <= j < n ==> order[j] < n)
    && (forall i :: 0 <= i < n ==> i in order)
  }

  /** The statuses a batch records, in settlement order. */
  function Settled(batch: seq<CheckQueueItem>, lookups: seq<Lookup>, order: seq<nat>, gs: seq<GroupInfo>): seq<MembershipStatus>
    requires |lookups| == |batch|
    requires forall j :: 0 <= j < |order| ==> order[j] < |batch|
  {
    seq(|order|, j requires 0 <= j < |order| =>
      SingleStatus(batch[order[j]].userId, batch[order[j]].groupId, batch[order[j]].userInfo, gs, lookups[order[j]]))
  }

  /** After the placeholders and then the finals are recorded, no entry for
      one of the groups' pairs is CHECKING any more, whatever the cap. */
  lemma FinalsSupersedePlaceholders(list: seq<MembershipStatus>, u: UserInfo, gs: seq<GroupInfo>,
                                    roles: seq<Option<MembershipRole>>, started: int, finished: int, max: int)
    requires |roles| == |gs|
    ensures var r := RecordAll(RecordAll(list, Placeholders(u, gs, started), max), Finals(u, gs, roles, finished), max);
      forall e, i :: e in r && 0 <= i < |gs| && e.userId == u.id && e.groupId == gs[i].id ==> e.status != Checking
  {
    var fs := Finals(u, gs, roles, finished);
    var r := RecordAll(RecordAll(list, Placeholders(u, gs, started), max), fs, max);
    RecordAllSupersedes(RecordAll(list, Placeholders(u, gs, started), max), fs, max);
    forall e, i | e in r && 0 <= i < |gs| && e.userId == u.id && e.groupId == gs[i].id ensures e.status != Checking {
      assert SamePair(e, fs[i]);
      var k :| 0 <= k < |fs| && fs[k] == e;
      assert fs[k].status != Checking;
    }
  }

  /** With unique group ids and a cap at least the number of groups, the
      final statuses lead the list, the last group's first. */
  lemma FinalsInFront(list: seq<MembershipStatus>, u: UserInfo, gs: seq<GroupInfo>,
                      roles: seq<Option<MembershipRole>>, finished: int, max: int)
    requires |roles| == |gs| && UniqueIds(gs) && max >= |gs|
    ensures var r := RecordAll(list, Finals(u, gs, roles, finished), max);
      && |r| >= |gs|
      && forall i :: 0 <= i < |gs| ==> r[|gs| - 1 - i] == FinalStatus(u, gs[i], roles[i], finished)
  {
    var fs := Finals(u, gs, roles, finished);
    assert DistinctPairs(fs);
    RecordAllFront(list, fs, max);
    var r := RecordAll(list, fs, max);
    forall i | 0 <= i < |gs| ensures r[|gs| - 1 - i] == FinalStatus(u, gs[i], roles[i], finished) {
      assert r[|gs| - 1 - i] == fs[|gs| - 1 - (|gs| - 1 - i)];
    }
  }

  lemma RecordOneMore(list: seq<MembershipStatus>, cs: seq<MembershipStatus>, k: nat, max: int)
    requires k < |cs|
    ensures RecordAll(list, cs[..k + 1], max) == AddRecent(RecordAll(list, cs[..k], max), cs[k], max)
  {
    assert cs[..k + 1][..k] == cs[..k];
  }

  lemma MulStep(i: nat, j: nat, n: nat, m: nat)
    requires i < n && j < m
    ensures i * m + j < n * m
  {
    assert (i + 1) * m <= n * m by {
      assert i + 1 <= n;
    }
  }

  class Store {
    var groups: seq<GroupInfo>
    var queue: seq<CheckQueueItem>
    var recentChecks: seq<MembershipStatus>
    var isProcessing: bool
    var maxRecentChecks: int

    /** Group ids are unique; each queue item is keyed by its own pair, one
        item per pair, and none is COMPLETED between actions; recent checks
        hold one entry per pair. */
    ghost predicate Consistent()
      reads this
    {
      && UniqueIds(groups)
      && WellKeyed(queue) && PairsDistinct(queue) && NoneCompleted(queue)
      && DistinctPairs(recentChecks)
    }

    /** The batch `processQueue` would take now. */
    function PlannedBatch(): seq<CheckQueueItem>
      reads this
    {
      if isProcessing then [] else Batch(queue)
    }

    constructor()
      ensures groups == [] && queue == [] && recentChecks == [] && !isProcessing
      ensures maxRecentChecks == InitialMaxRecentChecks
      ensures Consistent()
    {
      groups := [];
      queue := [];
      recentChecks := [];
      isProcessing := false;
      maxRecentChecks := InitialMaxRecentChecks;
    }

    method AddGroup(g: GroupInfo)
      modifies this`groups
      ensures |groups| >= 1 && groups[|groups| - 1] == g
      ensures groups[..|groups| - 1] == WithoutGroup(old(groups), g.id)
      ensures old(Consistent()) ==> Consistent()
    {
      if UniqueIds(groups) {
        WithGroupUnique(groups, g);
      }
      groups := WithGroup(groups, g);
    }

    method RemoveGroup(id: string)
      modifies this`groups
      ensures groups == WithoutGroup(old(groups), id)
      ensures forall g :: g in groups <==> g in old(groups) && g.id != id
      ensures old(Consistent()) ==> Consistent()
    {
      if UniqueIds(groups) {
        WithoutGroupUnique(groups, id);
      }
      groups := WithoutGroup(groups, id);
    }

    method ClearGroups()
      modifies this`groups
      ensures groups == []
      ensures old(Consistent()) ==> Consistent()
    {
      groups := [];
    }

    method ImportGroups(imported: seq<GroupInfo>)
      modifies this`groups
      ensures groups == StoreGroups.ImportGroups(old(groups), imported)
      ensures old(UniqueIds(groups)) ==> UniqueIds(groups) && Ids(groups) == Ids(old(groups)) + NewIds(old(groups), imported)
      ensures old(Consistent()) ==> Consistent()
    {
      if UniqueIds(groups) {
        ImportGroupsSpec(groups, imported);
      }
      groups := StoreGroups.ImportGroups(groups, imported);
    }

    method UpdateGroup(id: string, patch: GroupPatch)
      modifies this`groups
      ensures groups == StoreGroups.UpdateGroup(old(groups), id, patch)
      ensures old(Consistent()) && (patch.id.None? || patch.id.value == id || !HasId(old(groups), patch.id.value))
              ==> Consistent()
    {
      if UniqueIds(groups) && (patch.id.None? || patch.id.value == id || !HasId(groups, patch.id.value)) {
        UpdateGroupUnique(groups, id, patch);
      }
      groups := StoreGroups.UpdateGroup(groups, id, patch);
    }

    /** The synchronous start of `processQueue`: nothing when a cycle is
        running or nothing is pending; otherwise the flag is raised and the
        batch is marked PROCESSING. */
    method StartCycle() returns (batch: seq<CheckQueueItem>)
      modifies this`queue, this`isProcessing
      ensures batch == old(PlannedBatch())
      ensures batch == [] ==> queue == old(queue) && isProcessing == old(isProcessing)
      ensures batch != [] ==> isProcessing && queue == StartBatch(old(queue))
      ensures old(Consistent()) ==> Consistent() && PendingItems(queue) == PendingItems(old(queue))[|batch|..]
      ensures Extends(old(queue), queue)
    {
      if isProcessing || PendingItems(queue) == [] {
        batch := [];
        return;
      }
      isProcessing := true;
      batch := Batch(queue);
      SetStatusKeeps(queue, KeysOf(batch), Processing);
      MarkProcessingExtends(queue, KeysOf(batch));
      if Consistent() {
        DistinctPairsGiveUniqueKeys(queue);
        StartBatchSpec(queue);
      }
      queue := StartBatch(queue);
    }

    /** The append step of `addToQueue`: the items for the groups the queue
        lacks for this user go to the end. */
    method Enqueue(user: UserInfo, now: int) returns (added: bool)
      modifies this`queue
      ensures queue == old(queue) + NewItems(old(queue), user, groups, now)
      ensures added == (NewItems(old(queue), user, groups, now) != [])
      ensures added ==> PendingItems(queue) != []
      ensures Extends(old(queue), queue)
      ensures old(Consistent()) ==> Consistent()
    {
      var items := NewItems(queue, user, groups, now);
      NewItemsSpec(queue, user, groups, now);
      EnqueueExtends(queue, user, groups, now);
      if Consistent() {
        EnqueueKeepsPairsDistinct(queue, user, groups, now);
        assert forall k :: 0 <= k < |items| ==> items[k].status == Pending;
      }
      ghost var q0 := queue;
      queue := queue + items;
      added := items != [];
      if added {
        assert queue[|q0|] == items[0];
        assert items[0] in PendingItems(queue);
      }
    }

    /** `addToQueue` after `findFacebookInfo` answered `resolved`. New items
        are appended; when some were and no cycle was running, a cycle is
        started, and the batch it took is returned (it settles later, in
        `CompleteCycle`). */
    method AddToQueue(resolved: Option<UserInfo>, now: int) returns (started: seq<CheckQueueItem>)
      modifies this`queue, this`isProcessing
      ensures resolved.None? ==> queue == old(queue) && isProcessing == old(isProcessing) && started == []
      ensures resolved.Some? && old(isProcessing) ==>
        queue == old(queue) + NewItems(old(queue), resolved.value, groups, now) && isProcessing && started == []
      ensures resolved.Some? && !old(isProcessing) && NewItems(old(queue), resolved.value, groups, now) == [] ==>
        queue == old(queue) && !isProcessing && started == []
      ensures resolved.Some? && !old(isProcessing) && NewItems(old(queue), resolved.value, groups, now) != [] ==>
        && isProcessing && started != []
        && started == Batch(old(queue) + NewItems(old(queue), resolved.value, groups, now))
        && queue == StartBatch(old(queue) + NewItems(old(queue), resolved.value, groups, now))
      ensures old(Consistent()) ==> Consistent()
      ensures Extends(old(queue), queue)
      ensures isProcessing == (old(isProcessing) || |queue| > |old(queue)|)
    {
      started := [];
      if resolved.None? {
        return;
      }
      ghost var q0 := queue;
      var added := Enqueue(resolved.value, now);
      if added && !isProcessing {
        ghost var q1 := queue;
        started := StartCycle();
        ExtendsTrans(q0, q1, queue);
      }
    }

    method RemoveFromQueue(key: ItemKey)
      modifies this`queue
      ensures queue == WithoutItem(old(queue), key)
      ensures forall x :: x in queue <==> x in old(queue) && x.id != key
      ensures old(Consistent()) ==> Consistent()
    {
      if Consistent() {
        WithoutItemKeepsInvariant(queue, key);
      }
      queue := WithoutItem(queue, key);
    }

    method AddRecentCheck(c: MembershipStatus)
      modifies this`recentChecks
      ensures recentChecks == AddRecent(old(recentChecks), c, maxRecentChecks)
      ensures maxRecentChecks >= 1 ==> recentChecks[0] == c
      ensures forall i :: 1 <= i < |recentChecks| ==> !SamePair(recentChecks[i], c) && recentChecks[i] in old(recentChecks)
      ensures maxRecentChecks >= 0 ==> |recentChecks| <= maxRecentChecks
      ensures old(Consistent()) ==> Consistent()
    {
      AddRecentSpec(recentChecks, c, maxRecentChecks);
      if DistinctPairs(recentChecks) {
        AddRecentDistinct(recentChecks, c, maxRecentChecks);
      }
      recentChecks := AddRecent(recentChecks, c, maxRecentChecks);
    }

    /** Only the cap changes: the list is not trimmed until the next check is recorded. */
    method SetMaxRecentChecks(max: int)
      modifies this`maxRecentChecks
      ensures maxRecentChecks == max
      ensures recentChecks == old(recentChecks)
      ensures old(Consistent()) ==> Consistent()
    {
      maxRecentChecks := max;
    }

    /** `checkSingleMembership`: every failure is caught and recorded as ERROR;
        exactly one recent check is recorded either way. */
    method CheckSingleMembership(userId: string, groupId: string, cached: Option<UserInfo>, l: Lookup)
      returns (status: MembershipStatus)
      modifies this`recentChecks
      ensures status == SingleStatus(userId, groupId, cached, groups, l)
      ensures status.userId == userId && status.groupId == groupId && status.checkedAt == l.now
      ensures l.role.Some? ==> && status.status == Role(l.role.value)
                               && status.userInfo == (if cached.Some? then cached else l.profile)
                               && status.groupInfo == FindGroup(groups, groupId)
      ensures l.role.None? ==> status.status == Error && status.userInfo == cached && status.groupInfo.None?
      ensures recentChecks == AddRecent(old(recentChecks), status, maxRecentChecks)
      ensures old(Consistent()) ==> Consistent()
    {
      status := SingleStatus(userId, groupId, cached, groups, l);
      AddRecentCheck(status);
    }

    /** One batch item settles: its check is recorded and it is marked COMPLETED. */
    method SettleItem(item: CheckQueueItem, l: Lookup) returns (status: MembershipStatus)
      modifies this`recentChecks, this`queue
      ensures status == SingleStatus(item.userId, item.groupId, item.userInfo, groups, l)
      ensures recentChecks == AddRecent(old(recentChecks), status, maxRecentChecks)
      ensures queue == SetStatus(old(queue), {item.id}, Completed)
      ensures old(DistinctPairs(recentChecks)) ==> DistinctPairs(recentChecks)
    {
      if DistinctPairs(recentChecks) {
        AddRecentDistinct(recentChecks, SingleStatus(item.userId, item.groupId, item.userInfo, groups, l), maxRecentChecks);
      }
      status := CheckSingleMembership(item.userId, item.groupId, item.userInfo, l);
      queue := SetStatus(queue, {item.id}, Completed);
    }

    /** The `Promise.all` of `processQueue`: the batch items settle in
        `order`, each recording its check and becoming COMPLETED. */
    method SettleBatch(batch: seq<CheckQueueItem>, lookups: seq<Lookup>, order: seq<nat>)
      requires |lookups| == |batch| && IsOrder(order, |batch|)
      modifies this`recentChecks, this`queue
      ensures queue == SetStatus(old(queue), KeysOf(batch), Completed)
      ensures recentChecks == RecordAll(old(recentChecks), Settled(batch, lookups, order, groups), maxRecentChecks)
      ensures old(DistinctPairs(recentChecks)) ==> DistinctPairs(recentChecks)
    {
      ghost var q0, r0 := queue, recentChecks;
      ghost var done: set<ItemKey> := {};
      var k := 0;
      while k < |order|
        invariant 0 <= k <= |order|
        invariant done == set j | 0 <= j < k :: batch[order[j]].id
        invariant queue == SetStatus(q0, done, Completed)
        invariant recentChecks == RecordAll(r0, Settled(batch, lookups, order[..k], groups), maxRecentChecks)
        invariant old(DistinctPairs(recentChecks)) ==> DistinctPairs(recentChecks)
      {
        var item := batch[order[k]];
        RecordSettledOneMore(r0, batch, lookups, order, k, groups, maxRecentChecks);
        ghost var next := RecordAll(r0, Settled(batch, lookups, order[..k + 1], groups), maxRecentChecks);
        var st := SettleItem(item, lookups[order[k]]);
        assert recentChecks == next;
        SetStatusTwice(q0, done, {item.id}, Completed);
        done := done + {item.id};
        assert (set j | 0 <= j < k + 1 :: batch[order[j]].id) == (set j | 0 <= j < k :: batch[order[j]].id) + {item.id};
        k := k + 1;
      }
      assert order[..k] == order;
      OrderCoversBatch(batch, order);
    }

    /** The awaited part of `processQueue`: the batch items settle in `order`,
        then the flag is lowered and COMPLETED items are purged; the result
        says whether a follow-up cycle is scheduled. */
    method CompleteCycle(batch: seq<CheckQueueItem>, lookups: seq<Lookup>, order: seq<nat>) returns (reschedule: bool)
      requires |lookups| == |batch| && IsOrder(order, |batch|)
      modifies this`recentChecks, this`queue, this`isProcessing
      ensures !isProcessing
      ensures queue == Remaining(old(queue), KeysOf(batch))
      ensures recentChecks == RecordAll(old(recentChecks), Settled(batch, lookups, order, groups), maxRecentChecks)
      ensures reschedule == SomePending(queue)
      ensures NoneCompleted(queue)
      ensures old(Consistent()) ==> Consistent()
    {
      ghost var q0 := queue;
      ghost var wasConsistent := Consistent();
      SettleBatch(batch, lookups, order);
      PurgeAfterSettle(q0, KeysOf(batch));
      if wasConsistent {
        RemainingKeepsInvariant(q0, KeysOf(batch));
      }
      isProcessing := false;
      queue := Purge(queue);
      reschedule := SomePending(queue);
    }

    /** `processQueue` run to its end: a no-op when a cycle is running or
        nothing is pending; otherwise the batch is taken, every batch item
        settles (and, its check never throwing, is COMPLETED and purged), and
        the follow-up is scheduled exactly when something is still pending. */
    method ProcessQueue(lookups: seq<Lookup>, order: seq<nat>) returns (reschedule: bool)
      requires |lookups| == |PlannedBatch()| && IsOrder(order, |PlannedBatch()|)
      modifies this`recentChecks, this`queue, this`isProcessing
      ensures old(PlannedBatch()) == [] ==>
        && !reschedule && queue == old(queue)
        && recentChecks == old(recentChecks) && isProcessing == old(isProcessing)
      ensures old(PlannedBatch()) != [] ==>
        && !isProcessing
        && queue == Remaining(old(queue), KeysOf(old(PlannedBatch())))
        && recentChecks == RecordAll(old(recentChecks), Settled(old(PlannedBatch()), lookups, order, groups), maxRecentChecks)
        && reschedule == SomePending(queue)
        && forall x :: x in queue ==> x in old(queue) && x.status != Completed && x.id !in KeysOf(old(PlannedBatch()))
      ensures old(Consistent()) ==> Consistent()
    {
      ghost var q0 := queue;
      var batch := StartCycle();
      if batch == [] {
        reschedule := false;
        return;
      }
      RemainingIgnoresMarked(q0, KeysOf(batch), Processing);
      reschedule := CompleteCycle(batch, lookups, order);
    }

    /** `addMultipleUsersToQueue`: one `addToQueue(userId)` per (user, group
        id) combination. The group ids themselves are never read; only their
        number matters. `resolved` holds what each call's lookup answered, in
        call order. */
    method AddMultipleUsersToQueue(userIds: seq<string>, groupIds: seq<string>, resolved: seq<Option<UserInfo>>, now: int)
      requires |resolved| == |userIds| * |groupIds|
      modifies this`queue, this`isProcessing
      ensures Extends(old(queue), queue)
      ensures isProcessing == (old(isProcessing) || |queue| > |old(queue)|)
      ensures old(Consistent()) ==> Consistent()
    {
      ghost var q0 := queue;
      ghost var wasConsistent := Consistent();
      var i := 0;
      while i < |userIds|
        invariant 0 <= i <= |userIds|
        invariant Extends(q0, queue)
        invariant isProcessing == (old(isProcessing) || |queue| > |q0|)
        invariant wasConsistent ==> Consistent()
        invariant groups == old(groups) && recentChecks == old(recentChecks)
      {
        var j := 0;
        while j < |groupIds|
          invariant 0 <= j <= |groupIds|
          invariant Extends(q0, queue)
          invariant isProcessing == (old(isProcessing) || |queue| > |q0|)
          invariant wasConsistent ==> Consistent()
          invariant groups == old(groups) && recentChecks == old(recentChecks)
        {
          MulStep(i, j, |userIds|, |groupIds|);
          ghost var before := queue;
          var _ := AddToQueue(resolved[i * |groupIds| + j], now);
          ExtendsTrans(q0, before, queue);
          j := j + 1;
        }
        i := i + 1;
      }
    }

    /** `checkUserMembership` after `findFacebookInfo(userName)` answered
        `resolved` (`None` for null or a caught rejection) and each group's
        classification answered `roles[i]` (`None` for a rejection). */
    method CheckUserMembership(resolved: Option<UserInfo>, roles: seq<Option<MembershipRole>>, started: int, finished: int)
      returns (r: Option<UserInfo>)
      requires |roles| == |groups|
      modifies this`recentChecks, this`isProcessing
      ensures groups == [] ==> r.None? && recentChecks == old(recentChecks) && isProcessing == old(isProcessing)
      ensures groups != [] ==> !isProcessing && r == resolved
      ensures groups != [] && resolved.None? ==> recentChecks == old(recentChecks)
      ensures groups != [] && resolved.Some? ==>
        recentChecks == RecordAll(RecordAll(old(recentChecks), Placeholders(resolved.value, groups, started), maxRecentChecks),
                                  Finals(resolved.value, groups, roles, finished), maxRecentChecks)
      ensures resolved.Some? ==>
        forall e, i :: (e in recentChecks && 0 <= i < |groups| && e.userId == resolved.value.id && e.groupId == groups[i].id)
          ==> e.status != Checking
      ensures resolved.Some? && UniqueIds(groups) && maxRecentChecks >= |groups| ==>
        && |recentChecks| >= |groups|
        && forall i :: 0 <= i < |groups| ==> recentChecks[|groups| - 1 - i] == FinalStatus(resolved.value, groups[i], roles[i], finished)
      ensures old(Consistent()) ==> Consistent()
    {
      if groups == [] {
        r := None;
        return;
      }
      isProcessing := true;
      if resolved.None? {
        r := None;
        isProcessing := false;
        return;
      }
      var u := resolved.value;
      ghost var wasConsistent := Consistent();
      ghost var r0 := recentChecks;
      var ps := Placeholders(u, groups, started);
      var k := 0;
      while k < |groups|
        invariant 0 <= k <= |groups|
        invariant recentChecks == RecordAll(r0, ps[..k], maxRecentChecks)
        invariant wasConsistent ==> Consistent()
      {
        RecordOneMore(r0, ps, k, maxRecentChecks);
        AddRecentCheck(ps[k]);
        k := k + 1;
      }
      assert ps[..k] == ps;
      ghost var r1 := recentChecks;
      var fs := Finals(u, groups, roles, finished);
      k := 0;
      while k < |groups|
        invariant 0 <= k <= |groups|
        invariant recentChecks == RecordAll(r1, fs[..k], maxRecentChecks)
        invariant wasConsistent ==> Consistent()
      {
        RecordOneMore(r1, fs, k, maxRecentChecks);
        AddRecentCheck(fs[k]);
        k := k + 1;
      }
      assert fs[..k] == fs;
      FinalsSupersedePlaceholders(r0, u, groups, roles, started, finished, maxRecentChecks);
      if UniqueIds(groups) && maxRecentChecks >= |groups| {
        FinalsInFront(r1, u, groups, roles, finished, maxRecentChecks);
      }
      r := Some(u);
      isProcessing := false;
    }
  }
}
