/** The new-value computation behind `addRecentCheck`: newest first, one
    entry per (user, group) pair, cut to `maxRecentChecks` with the
    semantics of JavaScript's `slice(0, end)`. */
module StoreRecent {
  import opened Types

  predicate SamePair(a: MembershipStatus, b: MembershipStatus) {
    a.userId == b.userId && a.groupId == b.groupId
  }

  /** No two entries share a (user, group) pair. */
  predicate DistinctPairs(list: seq<MembershipStatus>) {
    forall i, j :: 0 <= i < j < |list| ==> !SamePair(list[i], list[j])
  }

  /** `recentChecks.filter(c => !(same user and group as check))`. */
  function WithoutPair(list: seq<MembershipStatus>, c: MembershipStatus): (r: seq<MembershipStatus>)
    ensures |r| <= |list|
    ensures forall e :: e in r <==> e in list && !SamePair(e, c)
  {
    if list == [] then []
    else if SamePair(list[0], c) then WithoutPair(list[1..], c)
    else [list[0]] + WithoutPair(list[1..], c)
  }

  lemma {:induction false} WithoutPairConcat(a: seq<MembershipStatus>, b: seq<MembershipStatus>, c: MembershipStatus)
    ensures WithoutPair(a + b, c) == WithoutPair(a, c) + WithoutPair(b, c)
  {
    if a != [] {
      assert (a + b)[1..] == a[1..] + b;
      WithoutPairConcat(a[1..], b, c);
    } else {
      assert a + b == b;
    }
  }

  /** Entries that do not share the pair are all kept, in order. */
  lemma {:induction false} WithoutPairKeepsOthers(list: seq<MembershipStatus>, c: MembershipStatus)
    requires forall e :: e in list ==> !SamePair(e, c)
    ensures WithoutPair(list, c) == list
  {
    if list != [] {
      WithoutPairKeepsOthers(list[1..], c);
      assert list == [list[0]] + list[1..];
    }
  }

  lemma {:induction false} WithoutPairDistinct(list: seq<MembershipStatus>, c: MembershipStatus)
    requires DistinctPairs(list)
    ensures DistinctPairs(WithoutPair(list, c))
  {
    if list != [] {
      assert DistinctPairs(list[1..]) by {
        forall i, j | 0 <= i < j < |list[1..]| ensures !SamePair(list[1..][i], list[1..][j]) {
          assert list[1..][i] == list[i + 1] && list[1..][j] == list[j + 1];
        }
      }
      WithoutPairDistinct(list[1..], c);
      var rest := WithoutPair(list[1..], c);
      forall k | 0 <= k < |rest| ensures !SamePair(list[0], rest[k]) {
        assert rest[k] in list[1..];
        var j :| 0 <= j < |list[1..]| && list[1..][j] == rest[k];
        assert list[j + 1] == rest[k];
      }
    }
  }

  /** The end index `slice(0, end)` uses on a list of length `n`: a negative
      end counts back from the length. */
  function SliceEnd(n: nat, end: int): (k: nat)
    ensures k <= n
  {
    if end < 0 then (if n + end < 0 then 0 else n + end)
    else if end < n then end
    else n
  }

  /** `[check, ...filtered].slice(0, maxRecentChecks)`. */
  function AddRecent(list: seq<MembershipStatus>, c: MembershipStatus, max: int): seq<MembershipStatus> {
    var all := [c] + WithoutPair(list, c);
    all[..SliceEnd(|all|, max)]
  }

  /** The new check comes first, no other entry keeps its pair, the rest keep
      their relative order, nothing new appears, and a non-negative cap bounds
      the length. */
  lemma AddRecentSpec(list: seq<MembershipStatus>, c: MembershipStatus, max: int)
    ensures var r := AddRecent(list, c, max);
      && r <= [c] + WithoutPair(list, c)
      && (max >= 1 ==> |r| >= 1 && r[0] == c)
      && (forall i :: 1 <= i < |r| ==> !SamePair(r[i], c) && r[i] in list)
      && (max >= 0 ==> |r| == if max < 1 + |WithoutPair(list, c)| then max else 1 + |WithoutPair(list, c)|)
      && (forall e :: e in r ==> e == c || e in list)
  {
    var all := [c] + WithoutPair(list, c);
    var r := AddRecent(list, c, max);
    forall i | 1 <= i < |r| ensures !SamePair(r[i], c) && r[i] in list {
      assert r[i] == all[i] == WithoutPair(list, c)[i - 1];
    }
    forall e | e in r ensures e == c || e in list {
      var i :| 0 <= i < |r| && r[i] == e;
      if i > 0 {
        assert r[i] == WithoutPair(list, c)[i - 1];
      }
    }
  }

  /** One entry per pair is kept up. */
  lemma AddRecentDistinct(list: seq<MembershipStatus>, c: MembershipStatus, max: int)
    requires DistinctPairs(list)
    ensures DistinctPairs(AddRecent(list, c, max))
  {
    WithoutPairDistinct(list, c);
    var w := WithoutPair(list, c);
    var r := AddRecent(list, c, max);
    forall i, j | 0 <= i < j < |r| ensures !SamePair(r[i], r[j]) {
      assert r[j] == w[j - 1] && w[j - 1] in w;
      if i > 0 {
        assert r[i] == w[i - 1];
      }
    }
  }

  /** Recording several checks one after the other, as successive `addRecentCheck` calls. */
  function RecordAll(list: seq<MembershipStatus>, cs: seq<MembershipStatus>, max: int): seq<MembershipStatus>
    decreases |cs|
  {
    if cs == [] then list
    else AddRecent(RecordAll(list, cs[..|cs| - 1], max), cs[|cs| - 1], max)
  }

  /** After recording `cs`, every entry that shares a pair with one of `cs` is
      itself one of `cs`: older entries for those pairs are gone. */
  lemma {:induction false} RecordAllSupersedes(list: seq<MembershipStatus>, cs: seq<MembershipStatus>, max: int)
    ensures forall e, j :: e in RecordAll(list, cs, max) && 0 <= j < |cs| && SamePair(e, cs[j]) ==> e in cs
    decreases |cs|
  {
    if cs != [] {
      var init, c := cs[..|cs| - 1], cs[|cs| - 1];
      RecordAllSupersedes(list, init, max);
      var r' := RecordAll(list, init, max);
      AddRecentSpec(r', c, max);
      forall e, j | e in RecordAll(list, cs, max) && 0 <= j < |cs| && SamePair(e, cs[j]) ensures e in cs {
        if e != c {
          assert e in r' && !SamePair(e, c);
          assert j < |init| && cs[j] == init[j];
          assert e in init;
        }
      }
    }
  }

  /** Adding a check whose pair none of the first `m` entries has shifts
      those entries back by one. */
  lemma AddRecentShifts(list: seq<MembershipStatus>, c: MembershipStatus, max: int, m: nat)
    requires m <= |list| && max >= m + 1
    requires forall k :: 0 <= k < m ==> !SamePair(list[k], c)
    ensures |AddRecent(list, c, max)| >= m + 1 && AddRecent(list, c, max)[0] == c
    ensures forall k :: 0 <= k < m ==> AddRecent(list, c, max)[k + 1] == list[k]
  {
    var front, back := list[..m], list[m..];
    assert list == front + back;
    WithoutPairConcat(front, back, c);
    WithoutPairKeepsOthers(front, c);
    var w := WithoutPair(list, c);
    assert w[..m] == front;
  }

  lemma DistinctPairsPrefix(cs: seq<MembershipStatus>, m: nat)
    requires DistinctPairs(cs) && m <= |cs|
    ensures DistinctPairs(cs[..m])
  {
    forall i, j | 0 <= i < j < m ensures !SamePair(cs[..m][i], cs[..m][j]) {
      assert cs[..m][i] == cs[i] && cs[..m][j] == cs[j];
    }
  }

  /** One more check in front of a list that starts with the earlier checks
      newest first keeps that shape. */
  lemma PushFront(r': seq<MembershipStatus>, cs: seq<MembershipStatus>, c: MembershipStatus, max: int)
    requires cs != [] && DistinctPairs(cs) && max >= |cs| && c == cs[|cs| - 1]
    requires |r'| >= |cs| - 1 && forall k :: 0 <= k < |cs| - 1 ==> r'[k] == cs[|cs| - 2 - k]
    ensures |AddRecent(r', c, max)| >= |cs|
    ensures forall k :: 0 <= k < |cs| ==> AddRecent(r', c, max)[k] == cs[|cs| - 1 - k]
  {
    var n := |cs|;
    forall k | 0 <= k < n - 1 ensures !SamePair(r'[k], c) {
      assert r'[k] == cs[n - 2 - k];
    }
    AddRecentShifts(r', c, max, n - 1);
    var r := AddRecent(r', c, max);
    forall k | 0 <= k < n ensures r[k] == cs[n - 1 - k] {
      if k > 0 {
        assert r[k] == r'[k - 1];
      }
    }
  }

  /** Recording checks for distinct pairs under a cap at least their number
      leaves them at the front, newest first. */
  lemma {:induction false} RecordAllFront(list: seq<MembershipStatus>, cs: seq<MembershipStatus>, max: int)
    requires DistinctPairs(cs)
    requires max >= |cs|
    ensures |RecordAll(list, cs, max)| >= |cs|
    ensures forall k :: 0 <= k < |cs| ==> RecordAll(list, cs, max)[k] == cs[|cs| - 1 - k]
    decreases |cs|
  {
    if cs != [] {
      var init := cs[..|cs| - 1];
      DistinctPairsPrefix(cs, |cs| - 1);
      RecordAllFront(list, init, max);
      var r' := RecordAll(list, init, max);
      assert forall k :: 0 <= k < |cs| - 1 ==> r'[k] == cs[|cs| - 2 - k] by {
        forall k | 0 <= k < |cs| - 1 ensures r'[k] == cs[|cs| - 2 - k] {
          assert r'[k] == init[|init| - 1 - k];
        }
      }
      PushFront(r', cs, cs[|cs| - 1], max);
    }
  }

  /** Recording keeps one entry per pair. */
  lemma {:induction false} RecordAllDistinct(list: seq<MembershipStatus>, cs: seq<MembershipStatus>, max: int)
    requires DistinctPairs(list)
    ensures DistinctPairs(RecordAll(list, cs, max))
    decreases |cs|
  {
    if cs != [] {
      RecordAllDistinct(list, cs[..|cs| - 1], max);
      AddRecentDistinct(RecordAll(list, cs[..|cs| - 1], max), cs[|cs| - 1], max);
    }
  }
}
