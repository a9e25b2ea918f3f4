/** Extracts a profile from the text of a fetched profile page
    (`findFacebookInfo`, `findFacebookIdFallback`). The fetch itself is left
    out: the page text is an input. `JSON.parse` is a parameter that returns
    `None` where it throws (or yields a non-object). */
module ProfileResolver {
  import opened Base
  import opened Types
  import opened IdPatterns

  const RendererKey: string := "\"XFBProfileEntityConvergenceHeaderRenderer\""
  const UserKey: string := "\"user\":"
  const OpenBrace: string := "{"

  /** The fields of the parsed user object that the resolver reads. A field is
      `None` when absent or null; `coverUri` is `cover_photo?.photo?.image?.uri`
      and `avatarUri` is `profilePicLarge?.uri`. */
  datatype RawUser = RawUser(
    id: Option<string>,
    name: Option<string>,
    alternateName: Option<string>,
    gender: Option<string>,
    url: Option<string>,
    coverUri: Option<string>,
    avatarUri: Option<string>)

  /** `x || null` on a string field: an empty string is falsy too. */
  function OrNull(x: Option<string>): Option<string> {
    if x.Some? && x.value != "" then x else None
  }

  function Delta(c: char): int {
    if c == '{' then 1 else if c == '}' then -1 else 0
  }

  /** Opening minus closing braces in `t`. */
  function Balance(t: string): int
    decreases |t|
  {
    if t == [] then 0 else Balance(t[..|t| - 1]) + Delta(t[|t| - 1])
  }

  /** The first `j >= from` whose prefix `s[start..j]` balances. */
  function CloseFrom(s: string, start: nat, from: nat): (r: Option<nat>)
    requires start < from <= |s| + 1
    ensures r.Some? ==> from <= r.value <= |s| && Balance(s[start..r.value]) == 0
    ensures forall k :: from <= k <= |s| && (r.None? || k < r.value) ==> Balance(s[start..k]) != 0
    decreases |s| + 1 - from
  {
    if from > |s| then None
    else if Balance(s[start..from]) == 0 then Some(from)
    else CloseFrom(s, start, from + 1)
  }

  /** End (exclusive) of the object that opens at `start`: the first point at which its braces balance. */
  function ObjectEnd(s: string, start: nat): Option<nat>
    requires start < |s|
  {
    CloseFrom(s, start, start + 1)
  }

  /** The brace-counting loop of `findFacebookInfo`: from the `{` at `start`,
      count nesting until it returns to zero or the text ends. */
  method ScanObject(s: string, start: nat) returns (i: nat, braceCount: int)
    requires start < |s| && s[start] == '{'
    ensures start < i <= |s|
    ensures braceCount == Balance(s[start..i]) && braceCount >= 0
    ensures forall k :: start < k < i ==> Balance(s[start..k]) > 0
    ensures braceCount != 0 ==> i == |s|
    ensures ObjectEnd(s, start) == if braceCount == 0 then Some(i) else None
  {
    braceCount := 1;
    i := start + 1;
    assert s[start..i][..0] == [];
    while i < |s| && braceCount > 0
      invariant start < i <= |s|
      invariant braceCount == Balance(s[start..i]) && braceCount >= 0
      invariant forall k :: start < k < i ==> Balance(s[start..k]) > 0
    {
      if s[i] == '{' {
        braceCount := braceCount + 1;
      } else if s[i] == '}' {
        braceCount := braceCount - 1;
      }
      assert s[start..i + 1][..i - start] == s[start..i];
      i := i + 1;
    }
  }

  /** The anchor as intended: the first `{` after the first `"user":` that
      follows the renderer's opening brace; nothing when there is no such key. */
  function UserObjectStart(html: string, rendererStart: nat): (r: Option<nat>)
    ensures r.Some? ==> r.value < |html| && html[r.value] == '{'
  {
    match IndexOf(html, UserKey, rendererStart)
    case None => None
    case Some(k) => OpenBraceFrom(html, k)
  }

  /** The anchor as written: a missing `"user":` gives `indexOf` the result -1,
      and `html.indexOf("{", -1)` searches from the start of the page. */
  function UserObjectStartAsWritten(html: string, rendererStart: nat): (r: Option<nat>)
    ensures r.Some? ==> r.value < |html| && html[r.value] == '{'
  {
    match IndexOf(html, UserKey, rendererStart)
    case None => OpenBraceFrom(html, 0)
    case Some(k) => OpenBraceFrom(html, k)
  }

  function OpenBraceFrom(html: string, from: nat): (r: Option<nat>)
    ensures r.Some? ==> from <= r.value < |html| && html[r.value] == '{'
    ensures r == IndexOf(html, OpenBrace, from)
  {
    var r := IndexOf(html, OpenBrace, from);
    if r.Some? then
      assert html[r.value..r.value + 1] == OpenBrace;
      assert html[r.value] == html[r.value..r.value + 1][0];
      r
    else r
  }

  /** `html.lastIndexOf("{", rendererIndex)` once the renderer marker is found. */
  function RendererStart(html: string): (r: Option<nat>)
    ensures r.Some? ==> StartsAt(html, r.value, OpenBrace)
  {
    match IndexOf(html, RendererKey, 0)
    case None => None
    case Some(ri) => LastIndexOf(html, OpenBrace, ri)
  }

  /** The text of the object that opens at `start`, when its braces balance. */
  function ObjectText(html: string, start: Option<nat>): (r: Option<string>)
    requires start.Some? ==> start.value < |html|
    ensures r.Some? ==> start.Some? && ObjectEnd(html, start.value).Some?
                        && r.value == html[start.value..ObjectEnd(html, start.value).value]
  {
    match start
    case None => None
    case Some(us) =>
      match ObjectEnd(html, us)
      case None => None
      case Some(e) => Some(html[us..e])
  }

  /** The isolated `userJson` of the primary path as the program computes it. */
  function UserJson(html: string): Option<string> {
    match RendererStart(html)
    case None => None
    case Some(rs) => ObjectText(html, UserObjectStartAsWritten(html, rs))
  }

  /** The isolated `userJson` with the corrected anchor. */
  function UserJsonIntended(html: string): Option<string> {
    match RendererStart(html)
    case None => None
    case Some(rs) => ObjectText(html, UserObjectStart(html, rs))
  }

  /** The record built from a parsed user object whose `id` is truthy. */
  function ToUserInfo(raw: RawUser): UserInfo
    requires OrNull(raw.id).Some?
  {
    UserInfo(raw.id.value, OrNull(raw.name), OrNull(raw.alternateName), OrNull(raw.gender),
             OrNull(raw.url), Images(OrNull(raw.coverUri), OrNull(raw.avatarUri)))
  }

  /** The record returned when only the fallback found an id. */
  function IdOnly(id: string): UserInfo {
    UserInfo(id, None, None, None, None, Images(None, None))
  }

  /** The primary extraction from isolated text: parse, and keep it only when `id` is truthy. */
  function FromJson(json: Option<string>, parseJson: string -> Option<RawUser>): Option<UserInfo> {
    match json
    case None => None
    case Some(j) =>
      match parseJson(j)
      case None => None
      case Some(raw) => if OrNull(raw.id).Some? then Some(ToUserInfo(raw)) else None
  }

  function Primary(html: string, parseJson: string -> Option<RawUser>): Option<UserInfo> {
    FromJson(UserJson(html), parseJson)
  }

  function PrimaryIntended(html: string, parseJson: string -> Option<RawUser>): Option<UserInfo> {
    FromJson(UserJsonIntended(html), parseJson)
  }

  /** `findFacebookIdFallback`: the three patterns in order, each judged on its leftmost match only. */
  function FindFacebookIdFallback(html: string): (r: Option<string>)
    ensures r.Some? ==> AllDigits(r.value) && |r.value| > 5 && r.value != "0"
    ensures r.Some? ==> r == PropsUserId(html) || r == KeyDigits(html, UserIdKey) || r == KeyDigits(html, ActorIdKey)
    ensures r.None? <==> !Accepted(PropsUserId(html)) && !Accepted(KeyDigits(html, UserIdKey))
                         && !Accepted(KeyDigits(html, ActorIdKey))
  {
    var byProps := PropsUserId(html);
    if Accepted(byProps) then byProps
    else
      var byUserId := KeyDigits(html, UserIdKey);
      if Accepted(byUserId) then byUserId
      else
        var byActor := KeyDigits(html, ActorIdKey);
        if Accepted(byActor) then byActor else None
  }

  /** The primary result if there is one, otherwise what the fallback finds. */
  function WithFallback(primary: Option<UserInfo>, html: string): Option<UserInfo> {
    match primary
    case Some(u) => Some(u)
    case None =>
      match FindFacebookIdFallback(html)
      case Some(id) => Some(IdOnly(id))
      case None => None
  }

  /** What `findFacebookInfo` returns for a page, as written. */
  function ResolveProfile(html: string, parseJson: string -> Option<RawUser>): Option<UserInfo> {
    WithFallback(Primary(html, parseJson), html)
  }

  /** What `findFacebookInfo` returns with the corrected anchor. */
  function ResolveProfileIntended(html: string, parseJson: string -> Option<RawUser>): Option<UserInfo> {
    WithFallback(PrimaryIntended(html, parseJson), html)
  }

  /** `findFacebookInfo` after the fetch, as written: the primary path with
      its brace scan, then the fallback. */
  method FindFacebookInfo(html: string, parseJson: string -> Option<RawUser>) returns (r: Option<UserInfo>)
    ensures r == ResolveProfile(html, parseJson)
    ensures r.Some? ==> r.value.id != ""
  {
    var rendererIndex := IndexOf(html, RendererKey, 0);
    if rendererIndex.Some? {
      var rendererStart := LastIndexOf(html, OpenBrace, rendererIndex.value);
      if rendererStart.Some? {
        var userStart := UserObjectStartAsWritten(html, rendererStart.value);
        if userStart.Some? {
          var i, braceCount := ScanObject(html, userStart.value);
          if braceCount == 0 {
            var userJson := html[userStart.value..i];
            var raw := parseJson(userJson);
            if raw.Some? && OrNull(raw.value.id).Some? {
              return Some(ToUserInfo(raw.value));
            }
          }
        }
      }
    }
    var fallbackId := FindFacebookIdFallback(html);
    if fallbackId.Some? {
      return Some(IdOnly(fallbackId.value));
    }
    return None;
  }

  /** The isolated text starts with `{`, ends with its matching `}`, is
      balanced, and every proper prefix is still open. */
  lemma IsolatedObjectIsBalanced(html: string)
    requires UserJson(html).Some?
    ensures var j := UserJson(html).value;
            && |j| >= 2 && j[0] == '{' && j[|j| - 1] == '}'
            && Balance(j) == 0
            && forall k :: 0 < k < |j| ==> Balance(j[..k]) > 0
  {
    var rs := RendererStart(html).value;
    var us := UserObjectStartAsWritten(html, rs).value;
    ObjectShape(html, us);
  }

  /** Shape of `s[start..e]` when `e` is the object's end. */
  lemma ObjectShape(s: string, start: nat)
    requires start < |s| && s[start] == '{' && ObjectEnd(s, start).Some?
    ensures var j := s[start..ObjectEnd(s, start).value];
            && |j| >= 2 && j[0] == '{' && j[|j| - 1] == '}'
            && Balance(j) == 0
            && forall k :: 0 < k < |j| ==> Balance(j[..k]) > 0
  {
    var e := ObjectEnd(s, start).value;
    var j := s[start..e];
    forall k | 0 < k < |j|
      ensures Balance(j[..k]) > 0
    {
      assert j[..k] == s[start..start + k];
      StaysOpen(s, start, start + k);
    }
    OneCharOpen(s, start);
    assert |j| >= 2;
    assert j[..|j| - 1] == s[start..e - 1];
    StaysOpen(s, start, e - 1);
    assert Balance(j) == Balance(j[..|j| - 1]) + Delta(j[|j| - 1]);
  }

  lemma OneCharOpen(s: string, start: nat)
    requires start < |s| && s[start] == '{'
    ensures Balance(s[start..start + 1]) == 1
  {
    assert s[start..start + 1][..0] == [];
  }

  /** The depth starts at 1 and moves by at most one per character, so it stays
      positive until it first reaches zero. */
  lemma {:induction false} StaysOpen(s: string, start: nat, k: nat)
    requires start < |s| && s[start] == '{' && start < k <= |s|
    requires forall m :: start < m <= k ==> Balance(s[start..m]) != 0
    ensures Balance(s[start..k]) > 0
    decreases k
  {
    if k == start + 1 {
      OneCharOpen(s, start);
    } else {
      StaysOpen(s, start, k - 1);
      assert s[start..k][..k - 1 - start] == s[start..k - 1];
    }
  }

  /** Without the renderer marker the primary path is not attempted. */
  lemma NoMarkerMeansFallback(html: string, parseJson: string -> Option<RawUser>)
    requires !Contains(html, RendererKey)
    ensures ResolveProfile(html, parseJson)
            == if FindFacebookIdFallback(html).Some? then Some(IdOnly(FindFacebookIdFallback(html).value)) else None
  {
    var ri := IndexOf(html, RendererKey, 0);
  }

  /** `raw || null` read back: null exactly when the raw field is absent or
      empty, and the raw value otherwise. */
  predicate CopiedOrNull(out: Option<string>, raw: Option<string>) {
    && (out.None? <==> raw.None? || raw == Some(""))
    && (out.Some? ==> out == raw)
  }

  /** A primary hit copies `id` and maps each optional field to null when absent or falsy. */
  lemma PrimaryHitCopiesFields(html: string, parseJson: string -> Option<RawUser>)
    requires UserJson(html).Some? && parseJson(UserJson(html).value).Some?
    requires var raw := parseJson(UserJson(html).value).value; raw.id.Some? && raw.id.value != ""
    ensures var raw := parseJson(UserJson(html).value).value;
            var u := ResolveProfile(html, parseJson);
            && u.Some? && u.value.id == raw.id.value
            && CopiedOrNull(u.value.name, raw.name)
            && CopiedOrNull(u.value.alternateName, raw.alternateName)
            && CopiedOrNull(u.value.gender, raw.gender)
            && CopiedOrNull(u.value.url, raw.url)
            && CopiedOrNull(u.value.images.cover, raw.coverUri)
            && CopiedOrNull(u.value.images.avatar, raw.avatarUri)
  {
  }

  /** A fallback hit carries only the id; no hit at all gives null. */
  lemma FallbackHitIsIdOnly(html: string, parseJson: string -> Option<RawUser>)
    requires Primary(html, parseJson).None?
    ensures var r := ResolveProfile(html, parseJson);
            && (r.None? <==> FindFacebookIdFallback(html).None?)
            && (r.Some? ==> r.value.id == FindFacebookIdFallback(html).value
                            && r.value.name.None? && r.value.alternateName.None? && r.value.gender.None?
                            && r.value.url.None? && r.value.images == Images(None, None))
  {
  }

  /** The as-written anchor, when `"user":` is missing after the renderer's
      brace, picks the page's first `{` (at or before that brace) instead of
      giving up; the intended anchor gives up. */
  lemma AsWrittenAnchorIgnoresMissingUserKey(html: string, rendererStart: nat)
    requires StartsAt(html, rendererStart, OpenBrace)
    requires IndexOf(html, UserKey, rendererStart).None?
    ensures UserObjectStart(html, rendererStart).None?
    ensures UserObjectStartAsWritten(html, rendererStart).Some?
    ensures UserObjectStartAsWritten(html, rendererStart).value <= rendererStart
  {
    var r := IndexOf(html, OpenBrace, 0);
    assert r.Some? && r.value <= rendererStart;
  }

  /** As written: when `"user":` is missing after the renderer's brace, the
      scan starts at the page's first `{`, at or before that brace, and the
      object opening there is returned whenever the parser gives it a truthy id. */
  lemma AsWrittenTakesFirstObject(html: string, parseJson: string -> Option<RawUser>)
    requires RendererStart(html).Some?
    requires IndexOf(html, UserKey, RendererStart(html).value).None?
    ensures var f := OpenBraceFrom(html, 0);
            f.Some? && f.value <= RendererStart(html).value
            && forall i :: 0 <= i < f.value ==> html[i] != '{'
    ensures var j := ObjectText(html, OpenBraceFrom(html, 0));
            j.Some? && parseJson(j.value).Some? && OrNull(parseJson(j.value).value.id).Some?
            ==> ResolveProfile(html, parseJson) == Some(ToUserInfo(parseJson(j.value).value))
  {
    var rs := RendererStart(html).value;
    AsWrittenAnchorIgnoresMissingUserKey(html, rs);
    var f := OpenBraceFrom(html, 0).value;
    forall i | 0 <= i < f ensures html[i] != '{' {
      assert !StartsAt(html, i, OpenBrace);
      assert html[i..i + 1] == [html[i]];
    }
  }

  /** Corrected: when `"user":` is missing after the renderer's brace, the
      primary path gives up and only the fallback can produce a profile. */
  lemma IntendedFallsBack(html: string, parseJson: string -> Option<RawUser>)
    requires RendererStart(html).Some?
    requires IndexOf(html, UserKey, RendererStart(html).value).None?
    ensures ResolveProfileIntended(html, parseJson)
            == if FindFacebookIdFallback(html).Some? then Some(IdOnly(FindFacebookIdFallback(html).value)) else None
  {
    AsWrittenAnchorIgnoresMissingUserKey(html, RendererStart(html).value);
  }

  /** With the key present (or no renderer brace at all) both anchors agree,
      so the two resolvers return the same profile. */
  lemma AnchorsAgreeWithUserKey(html: string, parseJson: string -> Option<RawUser>)
    requires RendererStart(html).Some? ==> IndexOf(html, UserKey, RendererStart(html).value).Some?
    ensures ResolveProfile(html, parseJson) == ResolveProfileIntended(html, parseJson)
  {
  }

  /** The discrepancy: a page whose first object parses with a truthy id, with
      no `"user":` after the renderer's brace and no fallback id, resolves to
      that object as written and to null as intended. */
  lemma AsWrittenDiffersFromIntended(html: string, parseJson: string -> Option<RawUser>)
    requires RendererStart(html).Some?
    requires IndexOf(html, UserKey, RendererStart(html).value).None?
    requires var j := ObjectText(html, OpenBraceFrom(html, 0));
             j.Some? && parseJson(j.value).Some? && OrNull(parseJson(j.value).value.id).Some?
    requires FindFacebookIdFallback(html).None?
    ensures ResolveProfile(html, parseJson).Some?
    ensures ResolveProfileIntended(html, parseJson).None?
  {
    AsWrittenTakesFirstObject(html, parseJson);
    IntendedFallsBack(html, parseJson);
  }
}
