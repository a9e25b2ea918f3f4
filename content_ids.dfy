/** The content script: read the group and user ids out of the page URL
    and report them to the extension. The page's URL is an input; the
    observer that re-runs this on navigation is not modelled. */
module ContentIds {
  import opened Base
  import opened GroupUserPattern

  /** The content script's pattern has no leading slash. */
  const ContentLead: string := "groups/"

  /** `extractIdsFromUrl(url)`: the captures of the first
      `groups/<digits>/user/<digits>` occurrence anywhere in the URL. */
  function ExtractIdsFromUrl(url: string): (r: Option<GroupUser>)
    ensures r.Some? ==>
      && r.value.groupId != [] && AllDigits(r.value.groupId)
      && r.value.userId != [] && AllDigits(r.value.userId)
    ensures r.Some? ==> exists p: nat :: (p <= |url| && MatchAt(url, p, ContentLead) == r
                                          && forall k: nat :: k < p ==> MatchAt(url, k, ContentLead).None?)
    ensures r.None? <==> forall p: nat :: p <= |url| ==> MatchAt(url, p, ContentLead).None?
  {
    var r := FirstMatch(url, ContentLead);
    assert r.Some? ==> MatchAt(url, MatchPos(url, ContentLead).value, ContentLead) == r;
    r
  }

  /** The runtime message `sendIds` emits. */
  datatype Message = UserAndGroupId(payload: GroupUser)

  /** `sendIds()`: a message only when the URL holds both ids. */
  function SendIds(href: string): (m: Option<Message>)
    ensures m.Some? <==> exists p: nat :: p <= |href| && MatchAt(href, p, ContentLead).Some?
    ensures m.Some? ==> Some(m.value.payload) == ExtractIdsFromUrl(href)
  {
    match ExtractIdsFromUrl(href)
    case None => None
    case Some(ids) => Some(UserAndGroupId(ids))
  }

  /** No match can start inside a prefix that lacks the pattern's first letter. */
  lemma NoMatchInPrefix(url: string, prefix: string)
    requires 'g' !in prefix && prefix <= url
    ensures forall k: nat :: k < |prefix| ==> MatchAt(url, k, ContentLead).None?
  {
    forall k: nat | k < |prefix|
      ensures MatchAt(url, k, ContentLead).None?
    {
      assert url[k] == prefix[k];
    }
  }

  lemma MatchAfterPrefix(prefix: string, g: string, u: string, rest: string)
    requires g != [] && AllDigits(g) && u != [] && AllDigits(u)
    requires rest == [] || !IsDigit(rest[0])
    ensures var url := prefix + ContentLead + g + UserInfix + u + rest;
      MatchAt(url, |prefix|, ContentLead) == Some(GroupUser(g, u))
  {
    var url := prefix + ContentLead + g + UserInfix + u + rest;
    var p := |prefix|;
    var q := p + |ContentLead|;
    assert url[p..q] == ContentLead;
    assert url[q..q + |g|] == g;
    assert url[q + |g|..q + |g| + |UserInfix|] == UserInfix;
    assert url[q + |g| + |UserInfix|..q + |g| + |UserInfix| + |u|] == u;
    var e := q + |g| + |UserInfix| + |u|;
    assert e < |url| ==> url[e] == rest[0];
    MatchAtSpelledOut(url, p, ContentLead, g, u);
  }

  /** A URL that spells out `groups/<g>/user/<u>` after a prefix without the
      letter 'g', with the user digits not followed by another digit, yields
      exactly `g` and `u`. */
  lemma SpelledOutUrl(prefix: string, g: string, u: string, rest: string)
    requires 'g' !in prefix
    requires g != [] && AllDigits(g) && u != [] && AllDigits(u)
    requires rest == [] || !IsDigit(rest[0])
    ensures ExtractIdsFromUrl(prefix + ContentLead + g + UserInfix + u + rest) == Some(GroupUser(g, u))
  {
    var url := prefix + ContentLead + g + UserInfix + u + rest;
    assert MatchAt(url, |prefix|, ContentLead) == Some(GroupUser(g, u)) by {
      MatchAfterPrefix(prefix, g, u, rest);
    }
    assert forall k: nat :: k < |prefix| ==> MatchAt(url, k, ContentLead).None? by {
      assert prefix <= url;
      NoMatchInPrefix(url, prefix);
    }
    var r := ExtractIdsFromUrl(url);
    var m: nat :| m <= |url| && MatchAt(url, m, ContentLead) == r
      && forall k: nat :: k < m ==> MatchAt(url, k, ContentLead).None?;
    assert m == |prefix|;
  }
}
