/** Normalises a raw id, username or profile URL into a canonical identifier
    (`extractFacebookIdentifier`). The WHATWG URL parser behind `new URL` is
    a parameter: it returns `None` where `new URL` throws. */
module IdentifierExtractor {
  import opened Base
  import GroupUserPattern

  /** Reserved route names that are never usernames. */
  const ExcludedSlugs: seq<string> := [
    "groups", "pages", "watch", "marketplace", "friends", "events", "gaming",
    "login", "help", "settings", "photo", "photo.php", "story.php", "videos", "reels"
  ]

  const FacebookHost: string := "facebook.com"
  const ProfilePath: string := "/profile.php"
  const GroupsLead: string := "/groups/"

  /** The parts of a parsed URL the extractor reads: `hostname`, `pathname`
      and `searchParams.get("id")` (`None` when there is no `id` parameter). */
  datatype Url = Url(hostname: string, pathname: string, idParam: Option<string>)

  /** The text handed to `new URL`: inputs that do not start with "http" get "https://". */
  function UrlCandidate(trimmed: string): (c: string)
    ensures StartsAt(trimmed, 0, "http") ==> c == trimmed
    ensures !StartsAt(trimmed, 0, "http") ==> c == "https://" + trimmed
  {
    if StartsAt(trimmed, 0, "http") then trimmed else "https://" + trimmed
  }

  /** First segment of `pathname.split("/").filter((p) => p)`. */
  function FirstSegment(path: string): (r: Option<string>)
    ensures r.Some? ==> r.value != [] && '/' !in r.value
  {
    var parts := NonEmptyParts(Split(path, '/'));
    if parts == [] then None
    else
      assert parts[0] in Split(path, '/');
      Some(parts[0])
  }

  /** A username candidate survives when it is not reserved and is not a server page. */
  predicate IsUsername(seg: string) {
    seg !in ExcludedSlugs && !Contains(seg, ".php")
  }

  /** What the facebook.com branch returns, or `None` to fall through to the trimmed input. */
  function FromUrl(url: Url): (r: Option<string>)
    ensures r.Some? ==> r.value != []
    ensures !Contains(url.hostname, FacebookHost) ==> r == None
  {
    if !Contains(url.hostname, FacebookHost) then None
    else match GroupUserPattern.FirstMatch(url.pathname, GroupsLead)
      case Some(m) => Some(m.userId)
      case None =>
        if url.pathname == ProfilePath && url.idParam.Some? && url.idParam.value != "" then
          url.idParam
        else match FirstSegment(url.pathname)
          case Some(seg) => if IsUsername(seg) then Some(seg) else None
          case None => None
  }

  /** `extractFacebookIdentifier(input)`. Total: every parse failure ends in the trimmed input. */
  function ExtractFacebookIdentifier(input: string, parse: string -> Option<Url>): (r: string)
  {
    var trimmed := Trim(input);
    match parse(UrlCandidate(trimmed))
    case None => trimmed
    case Some(url) =>
      match FromUrl(url)
      case Some(id) => id
      case None => trimmed
  }

  /** The result is the trimmed input or a non-empty piece the URL yields. */
  lemma ResultIsTrimmedOrFromUrl(input: string, parse: string -> Option<Url>)
    ensures var r := ExtractFacebookIdentifier(input, parse);
            var p := parse(UrlCandidate(Trim(input)));
            r == Trim(input) || (p.Some? && FromUrl(p.value) == Some(r) && r != [])
  {
    var t := Trim(input);
    var p := parse(UrlCandidate(t));
    if p.Some? && FromUrl(p.value).Some? {
      assert ExtractFacebookIdentifier(input, parse) == FromUrl(p.value).value;
    }
  }

  /** When `new URL` throws, the trimmed input comes back. */
  lemma ParseFailureYieldsTrimmed(input: string, parse: string -> Option<Url>)
    requires parse(UrlCandidate(Trim(input))).None?
    ensures ExtractFacebookIdentifier(input, parse) == Trim(input)
  {
  }

  /** A host that is not facebook.com yields the trimmed input, whatever its path. */
  lemma ForeignHostYieldsTrimmed(input: string, parse: string -> Option<Url>)
    requires var p := parse(UrlCandidate(Trim(input)));
             p.Some? && !Contains(p.value.hostname, FacebookHost)
    ensures ExtractFacebookIdentifier(input, parse) == Trim(input)
  {
    var t := Trim(input);
    var p := parse(UrlCandidate(t));
    assert FromUrl(p.value).None?;
  }

  /** Empty or white-space-only input gives "" because `new URL("https://")` throws. */
  lemma BlankInputYieldsEmpty(input: string, parse: string -> Option<Url>)
    requires forall i :: 0 <= i < |input| ==> IsJsSpace(input[i])
    requires parse("https://").None?
    ensures ExtractFacebookIdentifier(input, parse) == ""
  {
    assert Trim(input) == [];
    assert UrlCandidate([]) == "https://";
  }

  /** `/groups/<g>/user/<u>` on facebook.com yields the user digits, before any other rule. */
  lemma GroupUserPathWins(input: string, parse: string -> Option<Url>)
    requires var p := parse(UrlCandidate(Trim(input)));
             p.Some? && Contains(p.value.hostname, FacebookHost)
             && GroupUserPattern.FirstMatch(p.value.pathname, GroupsLead).Some?
    ensures var m := GroupUserPattern.FirstMatch(parse(UrlCandidate(Trim(input))).value.pathname, GroupsLead);
            ExtractFacebookIdentifier(input, parse) == m.value.userId
            && AllDigits(m.value.userId) && m.value.userId != []
  {
    var t := Trim(input);
    var p := parse(UrlCandidate(t));
    FromUrlGroupUser(p.value);
  }

  lemma FromUrlGroupUser(url: Url)
    requires Contains(url.hostname, FacebookHost)
    requires GroupUserPattern.FirstMatch(url.pathname, GroupsLead).Some?
    ensures var m := GroupUserPattern.FirstMatch(url.pathname, GroupsLead).value;
      FromUrl(url) == Some(m.userId) && AllDigits(m.userId) && m.userId != []
  {
    var pos := GroupUserPattern.MatchPos(url.pathname, GroupsLead);
  }

  /** `/profile.php?id=<v>` with a non-empty `v` yields `v`. */
  lemma ProfilePhpYieldsId(input: string, parse: string -> Option<Url>)
    requires var p := parse(UrlCandidate(Trim(input)));
             p.Some? && Contains(p.value.hostname, FacebookHost)
             && p.value.pathname == ProfilePath && p.value.idParam.Some? && p.value.idParam.value != ""
    ensures ExtractFacebookIdentifier(input, parse) == parse(UrlCandidate(Trim(input))).value.idParam.value
  {
    var t := Trim(input);
    var p := parse(UrlCandidate(t));
    FromUrlProfilePhp(p.value);
  }

  lemma FromUrlProfilePhp(url: Url)
    requires Contains(url.hostname, FacebookHost)
    requires url.pathname == ProfilePath && url.idParam.Some? && url.idParam.value != ""
    ensures FromUrl(url) == url.idParam
  {
    ProfilePathHasNoGroupsLead();
    NoGroupUserMatchWithoutLead(ProfilePath, GroupsLead);
  }

  /** `/profile.php` without an `id` falls through; "profile.php" holds ".php",
      so the trimmed input comes back. */
  lemma ProfilePhpWithoutIdYieldsTrimmed(input: string, parse: string -> Option<Url>)
    requires var p := parse(UrlCandidate(Trim(input)));
             p.Some? && p.value.pathname == ProfilePath
             && (p.value.idParam.None? || p.value.idParam.value == "")
    ensures ExtractFacebookIdentifier(input, parse) == Trim(input)
  {
    var t := Trim(input);
    var p := parse(UrlCandidate(t));
    FromUrlProfilePhpWithoutId(p.value);
  }

  lemma FromUrlProfilePhpWithoutId(url: Url)
    requires url.pathname == ProfilePath && (url.idParam.None? || url.idParam.value == "")
    ensures FromUrl(url) == None
  {
    ProfilePathHasNoGroupsLead();
    NoGroupUserMatchWithoutLead(ProfilePath, GroupsLead);
    ProfilePathSegment();
  }

  lemma ProfilePathHasNoGroupsLead()
    ensures !Contains(ProfilePath, GroupsLead)
  {
    forall i | 0 <= i <= |ProfilePath| - |GroupsLead|
      ensures !StartsAt(ProfilePath, i, GroupsLead)
    {
      if i == 0 {
        assert ProfilePath[0..8][1] == 'p';
      } else {
        assert ProfilePath[i..i + 8][0] == ProfilePath[i] != '/';
      }
    }
  }

  /** The only segment of `/profile.php` is a page file, never a username. */
  lemma ProfilePathSegment()
    ensures FirstSegment(ProfilePath) == Some("profile.php")
    ensures !IsUsername("profile.php")
  {
    ProfilePathSpelled();
    FirstSegmentOf(1, "profile.php", "");
    PhpFile();
  }

  lemma ProfilePathSpelled()
    ensures Repeat('/', 1) + "profile.php" + "" == ProfilePath
  {
    assert Repeat('/', 1) == "/";
  }

  lemma PhpFile()
    ensures !IsUsername("profile.php")
  {
    assert StartsAt("profile.php", 7, ".php");
  }

  /** Otherwise the first non-empty segment is returned when it is a username,
      and the trimmed input when it is reserved, names a page file, or is missing. */
  lemma FirstSegmentRule(input: string, parse: string -> Option<Url>)
    requires var p := parse(UrlCandidate(Trim(input)));
             p.Some? && Contains(p.value.hostname, FacebookHost)
             && GroupUserPattern.FirstMatch(p.value.pathname, GroupsLead).None?
             && !(p.value.pathname == ProfilePath && p.value.idParam.Some? && p.value.idParam.value != "")
    ensures var seg := FirstSegment(parse(UrlCandidate(Trim(input))).value.pathname);
            ExtractFacebookIdentifier(input, parse)
            == if seg.Some? && IsUsername(seg.value) then seg.value else Trim(input)
  {
    var t := Trim(input);
    var p := parse(UrlCandidate(t));
    FromUrlSegment(p.value);
  }

  lemma FromUrlSegment(url: Url)
    requires Contains(url.hostname, FacebookHost)
    requires GroupUserPattern.FirstMatch(url.pathname, GroupsLead).None?
    requires !(url.pathname == ProfilePath && url.idParam.Some? && url.idParam.value != "")
    ensures var seg := FirstSegment(url.pathname);
      FromUrl(url) == if seg.Some? && IsUsername(seg.value) then seg else None
  {
  }

  /** The first path segment of `<slashes>/seg` or `<slashes>/seg/<rest>` is `seg`. */
  lemma {:induction false} FirstSegmentOf(slashes: nat, seg: string, rest: string)
    requires seg != [] && '/' !in seg
    ensures FirstSegment(Repeat('/', slashes) + seg + rest) == Some(seg)
      || (rest != [] && rest[0] != '/')
  {
    if rest == [] || rest[0] == '/' {
      var path := Repeat('/', slashes) + seg + rest;
      SplitHead(slashes, seg, rest);
      var parts := Split(path, '/');
      NonEmptyAfterBlanks(parts, slashes);
    }
  }

  function Repeat(c: char, n: nat): (r: string)
    ensures |r| == n && forall i :: 0 <= i < n ==> r[i] == c
  {
    if n == 0 then [] else [c] + Repeat(c, n - 1)
  }

  /** Splitting `<n slashes>seg<rest>` (rest empty or starting with '/') gives n
      empty parts, then `seg`. */
  lemma {:induction false} SplitHead(n: nat, seg: string, rest: string)
    requires seg != [] && '/' !in seg && (rest == [] || rest[0] == '/')
    ensures var parts := Split(Repeat('/', n) + seg + rest, '/');
            |parts| > n && parts[n] == seg && forall k :: 0 <= k < n ==> parts[k] == []
    decreases n
  {
    if n == 0 {
      assert Repeat('/', 0) + seg + rest == seg + rest;
      SplitPrefix(seg, rest);
    } else {
      var s := Repeat('/', n) + seg + rest;
      assert s[0] == '/';
      assert s[1..] == Repeat('/', n - 1) + seg + rest;
      SplitHead(n - 1, seg, rest);
      assert Split(s, '/') == [""] + Split(s[1..], '/');
    }
  }

  /** A separator-free prefix followed by a separator (or nothing) is the first part. */
  lemma {:induction false} SplitPrefix(seg: string, rest: string)
    requires '/' !in seg && (rest == [] || rest[0] == '/')
    ensures Split(seg + rest, '/')[0] == seg
    decreases |seg|
  {
    if seg == [] {
      if rest != [] {
        assert Split(rest, '/') == [""] + Split(rest[1..], '/');
      }
    } else {
      assert (seg + rest)[1..] == seg[1..] + rest;
      SplitPrefix(seg[1..], rest);
      assert [seg[0]] + seg[1..] == seg;
    }
  }

  lemma {:induction false} NonEmptyAfterBlanks(parts: seq<string>, n: nat)
    requires |parts| > n && parts[n] != [] && forall k :: 0 <= k < n ==> parts[k] == []
    ensures NonEmptyParts(parts) != [] && NonEmptyParts(parts)[0] == parts[n]
    decreases n
  {
    if n > 0 {
      NonEmptyAfterBlanks(parts[1..], n - 1);
    }
  }

  /** A path that does not contain the lead cannot match `<lead>\d+/user/\d+`. */
  lemma NoGroupUserMatchWithoutLead(path: string, lead: string)
    requires !Contains(path, lead)
    ensures GroupUserPattern.FirstMatch(path, lead).None?
  {
    var pos := GroupUserPattern.MatchPos(path, lead);
  }
}
