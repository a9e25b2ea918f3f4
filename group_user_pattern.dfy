/** The regular expression `<lead>(\d+)/user/(\d+)` with its leftmost-match
    semantics, shared by the identifier extractor (lead `/groups/`) and the
    content script (lead `groups/`). */
module GroupUserPattern {
  import opened Base

  datatype GroupUser = GroupUser(groupId: string, userId: string)

  const UserInfix: string := "/user/"

  /** The match that starts exactly at `p`, if any. Both digit groups are
      greedy; the group digits must be followed by `/user/`, so only the
      maximal run can succeed. */
  function MatchAt(s: string, p: nat, lead: string): (r: Option<GroupUser>)
    requires p <= |s|
    ensures r.Some? ==>
      && StartsAt(s, p, lead)
      && r.value.groupId != [] && AllDigits(r.value.groupId)
      && r.value.userId != [] && AllDigits(r.value.userId)
      && StartsAt(s, p + |lead|, r.value.groupId)
      && StartsAt(s, p + |lead| + |r.value.groupId|, UserInfix)
      && StartsAt(s, p + |lead| + |r.value.groupId| + |UserInfix|, r.value.userId)
  {
    if !StartsAt(s, p, lead) then None
    else
      var g := p + |lead|;
      var gn := DigitRun(s, g);
      if gn == 0 || !StartsAt(s, g + gn, UserInfix) then None
      else
        var u := g + gn + |UserInfix|;
        var un := DigitRun(s, u);
        if un == 0 then None
        else
          Some(GroupUser(s[g..g + gn], s[u..u + un]))
  }

  /** Where `string.match` finds its (leftmost) match. */
  function MatchPos(s: string, lead: string): (r: Option<nat>)
    ensures r.Some? ==> r.value <= |s| && MatchAt(s, r.value, lead).Some?
    ensures forall k: nat :: k <= |s| && (r.None? || k < r.value) ==> MatchAt(s, k, lead).None?
  {
    var hit := (k: nat) => k <= |s| && MatchAt(s, k, lead).Some?;
    var r := Leftmost(|s|, 0, hit);
    forall k: nat | k <= |s| && (r.None? || k < r.value)
      ensures MatchAt(s, k, lead).None?
    {
      assert !hit(k);
    }
    r
  }

  /** `s.match(/<lead>(\d+)\/user\/(\d+)/)` reduced to its two captures. */
  function FirstMatch(s: string, lead: string): Option<GroupUser> {
    match MatchPos(s, lead)
    case None => None
    case Some(p) => MatchAt(s, p, lead)
  }

  /** Completeness of `MatchAt`: a text that spells out the pattern with
      maximal digit runs is matched with exactly those captures. */
  lemma MatchAtSpelledOut(s: string, p: nat, lead: string, g: string, u: string)
    requires g != [] && AllDigits(g) && u != [] && AllDigits(u)
    requires StartsAt(s, p, lead) && StartsAt(s, p + |lead|, g)
    requires StartsAt(s, p + |lead| + |g|, UserInfix)
    requires StartsAt(s, p + |lead| + |g| + |UserInfix|, u)
    requires var e := p + |lead| + |g| + |UserInfix| + |u|; e == |s| || !IsDigit(s[e])
    ensures MatchAt(s, p, lead) == Some(GroupUser(g, u))
  {
    SpelledRuns(s, p + |lead|, g, u);
    MatchAtRuns(s, p, lead, g, u);
  }

  /** Digit strings spelled out around `/user/` are exactly the greedy runs. */
  lemma SpelledRuns(s: string, gs: nat, g: string, u: string)
    requires AllDigits(g) && AllDigits(u)
    requires StartsAt(s, gs, g) && StartsAt(s, gs + |g|, UserInfix)
    requires StartsAt(s, gs + |g| + |UserInfix|, u)
    requires var e := gs + |g| + |UserInfix| + |u|; e == |s| || !IsDigit(s[e])
    ensures DigitRun(s, gs) == |g|
    ensures DigitRun(s, gs + |g| + |UserInfix|) == |u|
  {
    SlashOpensInfix(s, gs + |g|);
    DigitRunExactly(s, gs, g);
    DigitRunExactly(s, gs + |g| + |UserInfix|, u);
  }

  /** `MatchAt` once both digit runs are known. */
  lemma MatchAtRuns(s: string, p: nat, lead: string, g: string, u: string)
    requires StartsAt(s, p, lead)
    requires g != [] && DigitRun(s, p + |lead|) == |g| && StartsAt(s, p + |lead|, g)
    requires StartsAt(s, p + |lead| + |g|, UserInfix)
    requires u != [] && DigitRun(s, p + |lead| + |g| + |UserInfix|) == |u|
    requires StartsAt(s, p + |lead| + |g| + |UserInfix|, u)
    ensures MatchAt(s, p, lead) == Some(GroupUser(g, u))
  {
  }

  lemma SlashOpensInfix(s: string, i: nat)
    requires StartsAt(s, i, UserInfix)
    ensures i < |s| && !IsDigit(s[i])
  {
    assert s[i..i + |UserInfix|][0] == s[i];
  }

  /** A piece of an occurrence is an occurrence of the piece. */
  lemma PieceAt(s: string, p: nat, w: string, i: nat, j: nat)
    requires StartsAt(s, p, w) && i <= j <= |w|
    ensures StartsAt(s, p + i, w[i..j])
  {
    forall k | 0 <= k < j - i
      ensures s[p + i..p + j][k] == w[i..j][k]
    {
      assert s[p..p + |w|][i + k] == w[i + k];
    }
  }

  lemma DigitRunExactly(s: string, i: nat, d: string)
    requires AllDigits(d) && i + |d| <= |s| && s[i..i + |d|] == d
    requires i + |d| == |s| || !IsDigit(s[i + |d|])
    ensures DigitRun(s, i) == |d|
    decreases |d|
  {
    if d != [] {
      assert s[i] == d[0];
      assert s[i + 1..i + 1 + |d[1..]|] == d[1..];
      DigitRunExactly(s, i + 1, d[1..]);
    }
  }
}
