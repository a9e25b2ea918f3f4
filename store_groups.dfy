/** The new-value computations behind the store's group actions
    (`addGroup`, `removeGroup`, `updateGroup`, `importGroups`). */
module StoreGroups {
  import opened Base
  import opened Types

  function Ids(gs: seq<GroupInfo>): seq<string> {
    seq(|gs|, i requires 0 <= i < |gs| => gs[i].id)
  }

  predicate HasId(gs: seq<GroupInfo>, id: string) {
    exists i :: 0 <= i < |gs| && gs[i].id == id
  }

  predicate UniqueIds(gs: seq<GroupInfo>) {
    forall i, j :: 0 <= i < j < |gs| ==> gs[i].id != gs[j].id
  }

  lemma HasIdIffInIds(gs: seq<GroupInfo>, id: string)
    ensures HasId(gs, id) <==> id in Ids(gs)
  {
    if id in Ids(gs) {
      var i :| 0 <= i < |Ids(gs)| && Ids(gs)[i] == id;
      assert gs[i].id == id;
    }
    if HasId(gs, id) {
      var i :| 0 <= i < |gs| && gs[i].id == id;
      assert Ids(gs)[i] == id;
    }
  }

  /** `groups.filter(g => g.id !== id)`. */
  function WithoutGroup(gs: seq<GroupInfo>, id: string): (r: seq<GroupInfo>)
    ensures |r| <= |gs|
    ensures forall g :: g in r <==> g in gs && g.id != id
  {
    if gs == [] then []
    else if gs[0].id == id then WithoutGroup(gs[1..], id)
    else [gs[0]] + WithoutGroup(gs[1..], id)
  }

  /** Removing keeps the relative order of what stays: it distributes over concatenation. */
  lemma {:induction false} WithoutGroupConcat(a: seq<GroupInfo>, b: seq<GroupInfo>, id: string)
    ensures WithoutGroup(a + b, id) == WithoutGroup(a, id) + WithoutGroup(b, id)
  {
    if a != [] {
      assert (a + b)[1..] == a[1..] + b;
      WithoutGroupConcat(a[1..], b, id);
    } else {
      assert a + b == b;
    }
  }

  /** Removing an id that no group has changes nothing. */
  lemma {:induction false} WithoutAbsentId(gs: seq<GroupInfo>, id: string)
    requires !HasId(gs, id)
    ensures WithoutGroup(gs, id) == gs
  {
    if gs != [] {
      assert gs[0].id != id;
      assert !HasId(gs[1..], id) by {
        forall i | 0 <= i < |gs[1..]| ensures gs[1..][i].id != id {
          assert gs[1..][i] == gs[i + 1];
        }
      }
      WithoutAbsentId(gs[1..], id);
      assert gs == [gs[0]] + gs[1..];
    }
  }

  lemma {:induction false} WithoutGroupUnique(gs: seq<GroupInfo>, id: string)
    requires UniqueIds(gs)
    ensures UniqueIds(WithoutGroup(gs, id))
  {
    if gs != [] {
      assert UniqueIds(gs[1..]) by {
        forall i, j | 0 <= i < j < |gs[1..]| ensures gs[1..][i].id != gs[1..][j].id {
          assert gs[1..][i] == gs[i + 1] && gs[1..][j] == gs[j + 1];
        }
      }
      WithoutGroupUnique(gs[1..], id);
      var rest := WithoutGroup(gs[1..], id);
      forall k | 0 <= k < |rest| ensures rest[k].id != gs[0].id {
        assert rest[k] in gs[1..];
        var j :| 0 <= j < |gs[1..]| && gs[1..][j] == rest[k];
        assert gs[j + 1] == rest[k];
      }
    }
  }

  /** `[...groups.filter(g => g.id !== group.id), group]`. */
  function WithGroup(gs: seq<GroupInfo>, g: GroupInfo): (r: seq<GroupInfo>)
    ensures |r| >= 1 && r[|r| - 1] == g
    ensures r[..|r| - 1] == WithoutGroup(gs, g.id)
    ensures forall i :: 0 <= i < |r| - 1 ==> r[i].id != g.id
  {
    var r := WithoutGroup(gs, g.id) + [g];
    assert forall i :: 0 <= i < |r| - 1 ==> r[i] in WithoutGroup(gs, g.id);
    r
  }

  /** After adding, exactly one group carries the new id, so unique ids stay unique. */
  lemma WithGroupUnique(gs: seq<GroupInfo>, g: GroupInfo)
    requires UniqueIds(gs)
    ensures UniqueIds(WithGroup(gs, g))
  {
    WithoutGroupUnique(gs, g.id);
    var r := WithGroup(gs, g);
    assert r == WithoutGroup(gs, g.id) + [g];
  }

  /** `Partial<GroupInfo>`: a field that is `Some` overrides; `avatar` can be set to absent. */
  datatype GroupPatch = GroupPatch(id: Option<string>, name: Option<string>, url: Option<string>, avatar: Option<Option<string>>)

  /** `{ ...g, ...updates }`. */
  function Patched(g: GroupInfo, p: GroupPatch): GroupInfo {
    GroupInfo(
      if p.id.Some? then p.id.value else g.id,
      if p.name.Some? then p.name.value else g.name,
      if p.url.Some? then p.url.value else g.url,
      if p.avatar.Some? then p.avatar.value else g.avatar)
  }

  /** An empty patch is the identity. */
  lemma EmptyPatchIsIdentity(g: GroupInfo)
    ensures Patched(g, GroupPatch(None, None, None, None)) == g
  {
  }

  /** `groups.map(g => g.id === groupId ? { ...g, ...updates } : g)`. */
  function UpdateGroup(gs: seq<GroupInfo>, id: string, p: GroupPatch): seq<GroupInfo> {
    seq(|gs|, i requires 0 <= i < |gs| => if gs[i].id == id then Patched(gs[i], p) else gs[i])
  }

  /** A patch that leaves the id alone, or renames to an id no other group has,
      keeps the ids unique; a group with another id is never touched. */
  lemma UpdateGroupUnique(gs: seq<GroupInfo>, id: string, p: GroupPatch)
    requires UniqueIds(gs)
    requires p.id.None? || p.id.value == id || !HasId(gs, p.id.value)
    ensures UniqueIds(UpdateGroup(gs, id, p))
  {
    var r := UpdateGroup(gs, id, p);
    forall i, j | 0 <= i < j < |r| ensures r[i].id != r[j].id {
      if p.id.Some? && p.id.value != id && gs[i].id == id {
        assert r[j].id == gs[j].id;
      } else if p.id.Some? && p.id.value != id && gs[j].id == id {
        assert r[i].id == gs[i].id;
      }
    }
  }

  /** Updating an id that no group has changes nothing. */
  lemma UpdateAbsentId(gs: seq<GroupInfo>, id: string, p: GroupPatch)
    requires !HasId(gs, id)
    ensures UpdateGroup(gs, id, p) == gs
  {
  }

  /** The first position holding `id`, as `Map` keeps it for a key set more than once. */
  function IndexOfId(gs: seq<GroupInfo>, id: string): (r: Option<nat>)
    ensures r.Some? ==> r.value < |gs| && gs[r.value].id == id
    ensures r.Some? ==> forall j :: 0 <= j < r.value ==> gs[j].id != id
    ensures r.None? <==> !HasId(gs, id)
  {
    if gs == [] then None
    else if gs[0].id == id then Some(0)
    else match IndexOfId(gs[1..], id)
      case None => None
      case Some(k) => Some(k + 1)
  }

  /** `groupMap.set(g.id, g)` on the insertion-ordered map, as a sequence. */
  function Upsert(gs: seq<GroupInfo>, g: GroupInfo): seq<GroupInfo> {
    match IndexOfId(gs, g.id)
    case Some(k) => gs[k := g]
    case None => gs + [g]
  }

  /** Setting every entry of `xs` in order. */
  function UpsertAll(acc: seq<GroupInfo>, xs: seq<GroupInfo>): seq<GroupInfo>
    decreases |xs|
  {
    if xs == [] then acc
    else Upsert(UpsertAll(acc, xs[..|xs| - 1]), xs[|xs| - 1])
  }

  /** `importGroups`: the map is built from the current groups, then each imported group is set. */
  function ImportGroups(gs: seq<GroupInfo>, imported: seq<GroupInfo>): seq<GroupInfo> {
    UpsertAll(UpsertAll([], gs), imported)
  }

  /** Ids of `xs` that `acc` lacks, each once, in order of first appearance. */
  function NewIds(acc: seq<GroupInfo>, xs: seq<GroupInfo>): seq<string>
    decreases |xs|
  {
    if xs == [] then []
    else
      var prev := NewIds(acc, xs[..|xs| - 1]);
      var id := xs[|xs| - 1].id;
      if HasId(acc, id) || id in prev then prev else prev + [id]
  }

  lemma UpsertIds(gs: seq<GroupInfo>, g: GroupInfo)
    ensures Ids(Upsert(gs, g)) == if HasId(gs, g.id) then Ids(gs) else Ids(gs) + [g.id]
    ensures g in Upsert(gs, g)
    ensures forall h :: h in gs && h.id != g.id ==> h in Upsert(gs, g)
    ensures forall h :: h in Upsert(gs, g) ==> h == g || h in gs
  {
    match IndexOfId(gs, g.id)
    case Some(k) =>
      forall h | h in gs && h.id != g.id ensures h in Upsert(gs, g) {
        var i :| 0 <= i < |gs| && gs[i] == h;
        assert Upsert(gs, g)[i] == h;
      }
    case None =>
  }

  /** Existing ids keep their positions and new ids are appended in order of
      first appearance: the id sequence of an import is the old one followed by
      the new ids. */
  lemma {:induction false} UpsertAllIds(acc: seq<GroupInfo>, xs: seq<GroupInfo>)
    ensures Ids(UpsertAll(acc, xs)) == Ids(acc) + NewIds(acc, xs)
    decreases |xs|
  {
    if xs == [] {
      assert Ids(acc) + [] == Ids(acc);
    } else {
      var init, g := xs[..|xs| - 1], xs[|xs| - 1];
      var r' := UpsertAll(acc, init);
      UpsertAllIds(acc, init);
      UpsertIds(r', g);
      HasIdIffInIds(r', g.id);
      HasIdIffInIds(acc, g.id);
    }
  }

  /** Unique ids stay unique under `Upsert`. */
  lemma UpsertUnique(gs: seq<GroupInfo>, g: GroupInfo)
    requires UniqueIds(gs)
    ensures UniqueIds(Upsert(gs, g))
  {
    var r := Upsert(gs, g);
    UpsertIds(gs, g);
    forall i, j | 0 <= i < j < |r| ensures r[i].id != r[j].id {
      assert Ids(r)[i] == r[i].id && Ids(r)[j] == r[j].id;
      if !HasId(gs, g.id) && j == |gs| {
        assert Ids(gs)[i] == gs[i].id;
      } else {
        assert Ids(gs)[i] == gs[i].id && Ids(gs)[j] == gs[j].id;
      }
    }
  }

  /** An import never produces two groups with the same id. */
  lemma {:induction false} UpsertAllUnique(acc: seq<GroupInfo>, xs: seq<GroupInfo>)
    requires UniqueIds(acc)
    ensures UniqueIds(UpsertAll(acc, xs))
    decreases |xs|
  {
    if xs != [] {
      UpsertAllUnique(acc, xs[..|xs| - 1]);
      UpsertUnique(UpsertAll(acc, xs[..|xs| - 1]), xs[|xs| - 1]);
    }
  }

  /** The last imported group with a given id is the one kept. */
  lemma {:induction false} LastDuplicateWins(acc: seq<GroupInfo>, xs: seq<GroupInfo>, j: nat)
    requires j < |xs|
    requires forall k :: j < k < |xs| ==> xs[k].id != xs[j].id
    ensures xs[j] in UpsertAll(acc, xs)
    decreases |xs|
  {
    var init, g := xs[..|xs| - 1], xs[|xs| - 1];
    UpsertIds(UpsertAll(acc, init), g);
    if j < |xs| - 1 {
      LastDuplicateWins(acc, init, j);
    }
  }

  /** Every group of an import result is either an existing or an imported group. */
  lemma {:induction false} UpsertAllFrom(acc: seq<GroupInfo>, xs: seq<GroupInfo>, h: GroupInfo)
    requires h in UpsertAll(acc, xs)
    ensures h in acc || h in xs
    decreases |xs|
  {
    if xs != [] {
      var init, g := xs[..|xs| - 1], xs[|xs| - 1];
      UpsertIds(UpsertAll(acc, init), g);
      if h != g {
        UpsertAllFrom(acc, init, h);
      }
    }
  }

  /** Building the map from groups with unique ids gives those groups back, so
      importing into a consistent collection is setting each imported group. */
  lemma {:induction false} RebuildUnique(gs: seq<GroupInfo>)
    requires UniqueIds(gs)
    ensures UpsertAll([], gs) == gs
    decreases |gs|
  {
    if gs != [] {
      var init, g := gs[..|gs| - 1], gs[|gs| - 1];
      assert UniqueIds(init);
      RebuildUnique(init);
      assert !HasId(init, g.id);
      assert IndexOfId(init, g.id).None?;
      assert init + [g] == gs;
    }
  }

  /** `Upsert` never moves or changes a group that has another id. */
  lemma UpsertKeepsOthers(gs: seq<GroupInfo>, g: GroupInfo, i: nat)
    requires i < |gs| && gs[i].id != g.id
    ensures i < |Upsert(gs, g)| && Upsert(gs, g)[i] == gs[i]
  {
  }

  /** A group whose id the import does not mention keeps its position and value. */
  lemma {:induction false} UpsertAllKeepsOthers(acc: seq<GroupInfo>, xs: seq<GroupInfo>, i: nat)
    requires i < |acc| && !HasId(xs, acc[i].id)
    ensures i < |UpsertAll(acc, xs)| && UpsertAll(acc, xs)[i] == acc[i]
    decreases |xs|
  {
    if xs != [] {
      var init, g := xs[..|xs| - 1], xs[|xs| - 1];
      assert !HasId(init, acc[i].id) by {
        forall k | 0 <= k < |init| ensures init[k].id != acc[i].id {
          assert init[k] == xs[k];
        }
      }
      UpsertAllKeepsOthers(acc, init, i);
      UpsertKeepsOthers(UpsertAll(acc, init), g, i);
    }
  }

  /** `importGroups` on a collection with unique ids: unique ids after; the id
      sequence is the old one followed by the new ids in order of first
      appearance; the last imported duplicate is kept; groups the import does
      not mention keep their value and position; nothing else appears. */
  lemma ImportGroupsSpec(gs: seq<GroupInfo>, imported: seq<GroupInfo>)
    requires UniqueIds(gs)
    ensures var r := ImportGroups(gs, imported);
      && UniqueIds(r)
      && Ids(r) == Ids(gs) + NewIds(gs, imported)
      && (forall j :: 0 <= j < |imported| && (forall k :: j < k < |imported| ==> imported[k].id != imported[j].id)
            ==> imported[j] in r)
      && (forall i :: 0 <= i < |gs| && !HasId(imported, gs[i].id) ==> i < |r| && r[i] == gs[i])
      && (forall h :: h in r ==> h in gs || h in imported)
  {
    RebuildUnique(gs);
    var r := ImportGroups(gs, imported);
    assert r == UpsertAll(gs, imported);
    UpsertAllUnique(gs, imported);
    UpsertAllIds(gs, imported);
    forall j | 0 <= j < |imported| && (forall k :: j < k < |imported| ==> imported[k].id != imported[j].id)
      ensures imported[j] in r
    {
      LastDuplicateWins(gs, imported, j);
    }
    forall i | 0 <= i < |gs| && !HasId(imported, gs[i].id) ensures i < |r| && r[i] == gs[i] {
      UpsertAllKeepsOthers(gs, imported, i);
    }
    forall h | h in r ensures h in gs || h in imported {
      UpsertAllFrom(gs, imported, h);
    }
  }
}
