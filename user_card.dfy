/** The text a membership card derives from a `MembershipStatus`: the
    status badge, the avatar initials, the displayed name and the two
    links. Rendering itself is not modelled. */
module UserCard {
  import opened Base
  import opened Types
  import Initials
  import IdentifierExtractor
  import GroupUserPattern

  const FacebookOrigin: string := "https://www.facebook.com/"

  /** The status as it is stored: `"MEMBER"`, `"ADMIN"`, ... */
  function StatusName(s: CheckStatus): (r: string)
    ensures r != []
  {
    match s
    case Role(Member) => "MEMBER"
    case Role(Admin) => "ADMIN"
    case Role(Moderator) => "MODERATOR"
    case Role(NotMember) => "NOT_MEMBER"
    case Error => "ERROR"
    case Checking => "CHECKING"
  }

  lemma StatusNameInjective(s: CheckStatus, t: CheckStatus)
    requires StatusName(s) == StatusName(t)
    ensures s == t
  {
  }

  datatype Badge = Badge(variant: string, text: string)

  const UnknownBadge: Badge := Badge("outline", "Unknown")

  /** `getStatusBadge(status)`: a fixed badge per known status, "Unknown" otherwise. */
  function StatusBadge(status: string): (b: Badge)
    ensures b.text == "Unknown" ==> b == UnknownBadge && forall s: CheckStatus :: status != StatusName(s)
  {
    if status == "MEMBER" then Badge("success", "Member")
    else if status == "ADMIN" then Badge("destructive", "Admin")
    else if status == "MODERATOR" then Badge("warning", "Moderator")
    else if status == "NOT_MEMBER" then Badge("secondary", "Not Member")
    else if status == "ERROR" then Badge("error", "Error")
    else if status == "CHECKING" then Badge("outline", "Checking...")
    else
      assert forall s: CheckStatus :: status != StatusName(s);
      UnknownBadge
  }

  /** The six statuses get six different labels, none of them "Unknown". */
  lemma BadgesDistinct(s: CheckStatus, t: CheckStatus)
    ensures StatusBadge(StatusName(s)).text != "Unknown"
    ensures s != t ==> StatusBadge(StatusName(s)).text != StatusBadge(StatusName(t)).text
  {
  }

  /** Any other stored value falls through to "Unknown". */
  lemma UnknownOtherwise(status: string)
    requires forall s: CheckStatus :: status != StatusName(s)
    ensures StatusBadge(status) == UnknownBadge
  {
    assert status != StatusName(Role(Member)) && status != StatusName(Role(Admin));
    assert status != StatusName(Role(Moderator)) && status != StatusName(Role(NotMember));
    assert status != StatusName(Error) && status != StatusName(Checking);
  }

  /** `getUserInitials(name)`: "?" for a missing or empty name. */
  function UserInitials(name: Option<string>): (r: string)
    ensures name.None? || name.value == [] ==> r == "?"
    ensures name.Some? && name.value != [] ==> r == Initials.Abbreviate(name.value)
    ensures |r| <= 2
  {
    if name.None? || name.value == [] then "?" else Initials.Abbreviate(name.value)
  }

  /** A name made only of spaces is not empty, so it gets no "?" but no
      initials either. */
  lemma BlankNameHasNoInitials(name: string)
    requires name != [] && forall i :: 0 <= i < |name| ==> name[i] == ' '
    ensures UserInitials(Some(name)) == ""
  {
    Initials.BlankWords(name);
  }

  /** The title: `userInfo?.name || "User <id>"`, so an empty name also falls back. */
  function DisplayName(m: MembershipStatus): (r: string)
    ensures r != []
    ensures (m.userInfo.Some? && m.userInfo.value.name.Some? && m.userInfo.value.name.value != [])
      ==> r == m.userInfo.value.name.value
    ensures !(m.userInfo.Some? && m.userInfo.value.name.Some? && m.userInfo.value.name.value != [])
      ==> r == "User " + m.userId
  {
    match m.userInfo
    case Some(u) => if u.name.Some? && u.name.value != [] then u.name.value else "User " + m.userId
    case None => "User " + m.userId
  }

  /** The avatar fallback shows the initials of the user's name. */
  function AvatarFallback(m: MembershipStatus): (r: string)
    ensures m.userInfo.None? ==> r == "?"
    ensures m.userInfo.Some? ==> r == UserInitials(m.userInfo.value.name)
  {
    UserInitials(if m.userInfo.Some? then m.userInfo.value.name else None)
  }

  /** The link behind the displayed name. */
  function ProfileUrl(userId: string): string {
    FacebookOrigin + userId
  }

  /** The "view user in group" link. */
  function MemberUrl(groupId: string, userId: string): string {
    FacebookOrigin + "groups/" + groupId + "/user/" + userId
  }

  /** The path `new URL` gives for a member link. */
  function MemberPath(groupId: string, userId: string): string {
    IdentifierExtractor.GroupsLead + groupId + GroupUserPattern.UserInfix + userId
  }

  /** Pasting a member link back into the identifier extractor gives the
      user id, provided the URL parser reports the link's own host and path. */
  lemma MemberUrlRoundTrip(groupId: string, userId: string, parse: string -> Option<IdentifierExtractor.Url>)
    requires groupId != [] && AllDigits(groupId) && userId != [] && AllDigits(userId)
    requires var p := parse(MemberUrl(groupId, userId));
      p.Some? && Contains(p.value.hostname, IdentifierExtractor.FacebookHost)
      && p.value.pathname == MemberPath(groupId, userId)
    ensures IdentifierExtractor.ExtractFacebookIdentifier(MemberUrl(groupId, userId), parse) == userId
  {
    var url := MemberUrl(groupId, userId);
    MemberUrlIsParsedAsIs(groupId, userId);
    MemberPathMatches(groupId, userId);
    IdentifierExtractor.GroupUserPathWins(url, parse);
  }

  /** A member link has no surrounding white space and already starts with
      "http", so it reaches `new URL` unchanged. */
  lemma MemberUrlIsParsedAsIs(groupId: string, userId: string)
    requires userId != [] && AllDigits(userId)
    ensures IdentifierExtractor.UrlCandidate(Trim(MemberUrl(groupId, userId))) == MemberUrl(groupId, userId)
  {
    var url := MemberUrl(groupId, userId);
    assert StartsAt(url, 0, "http") && !IsJsSpace(url[0]) && !IsJsSpace(url[|url| - 1]) by {
      var pre := FacebookOrigin + "groups/" + groupId + "/user/";
      assert url == pre + userId;
      assert url[|url| - 1] == userId[|userId| - 1];
      assert IsDigit(userId[|userId| - 1]);
      assert url[..4] == pre[..4] == "http";
    }
    assert Trim(url) == url;
  }

  lemma MemberPathMatches(groupId: string, userId: string)
    requires groupId != [] && AllDigits(groupId) && userId != [] && AllDigits(userId)
    ensures GroupUserPattern.FirstMatch(MemberPath(groupId, userId), IdentifierExtractor.GroupsLead)
      == Some(GroupUserPattern.GroupUser(groupId, userId))
  {
    var path := MemberPath(groupId, userId);
    var lead := IdentifierExtractor.GroupsLead;
    var infix := GroupUserPattern.UserInfix;
    assert path[0..|lead|] == lead;
    assert path[|lead|..|lead| + |groupId|] == groupId;
    assert path[|lead| + |groupId|..|lead| + |groupId| + |infix|] == infix;
    assert path[|lead| + |groupId| + |infix|..] == userId;
    GroupUserPattern.MatchAtSpelledOut(path, 0, lead, groupId, userId);
    var pos := GroupUserPattern.MatchPos(path, lead);
  }
}
