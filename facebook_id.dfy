/** `findFacebookId`: the id-only resolver. It runs, on the fetched page text,
    the same ordered pattern chain as the profile resolver's fallback. */
module FacebookId {
  import opened Base
  import opened IdPatterns
  import ProfileResolver

  function FindFacebookId(html: string): (r: Option<string>)
    ensures r.Some? ==> AllDigits(r.value) && |r.value| > 5 && r.value != "0"
  {
    var byProps := PropsUserId(html);
    if Accepted(byProps) then byProps
    else
      var byUserId := KeyDigits(html, UserIdKey);
      if Accepted(byUserId) then byUserId
      else
        var byActor := KeyDigits(html, ActorIdKey);
        if Accepted(byActor) then byActor else None
  }

  /** The patterns are tried in a fixed order: an acceptable props match wins,
      then the first `userID`, then the first `actorID`. */
  lemma PatternPrecedence(html: string)
    ensures Accepted(PropsUserId(html)) ==> FindFacebookId(html) == PropsUserId(html)
    ensures !Accepted(PropsUserId(html)) && Accepted(KeyDigits(html, UserIdKey))
            ==> FindFacebookId(html) == KeyDigits(html, UserIdKey)
    ensures !Accepted(PropsUserId(html)) && !Accepted(KeyDigits(html, UserIdKey))
            ==> FindFacebookId(html) == if Accepted(KeyDigits(html, ActorIdKey)) then KeyDigits(html, ActorIdKey) else None
  {
  }

  /** A too-short first `userID` occurrence moves on to `actorID`, never to a
      later `userID` occurrence. */
  lemma ShortFirstUserIdIsSkipped(html: string, p: nat)
    requires p <= |html| && KeyDigitsAt(html, p, UserIdKey).Some?
    requires |KeyDigitsAt(html, p, UserIdKey).value| <= 5
    requires forall k: nat :: k < p ==> KeyDigitsAt(html, k, UserIdKey).None?
    requires !Accepted(PropsUserId(html))
    ensures FindFacebookId(html) == if Accepted(KeyDigits(html, ActorIdKey)) then KeyDigits(html, ActorIdKey) else None
  {
    LeftmostOccurrenceDecides(html, UserIdKey, p);
  }

  /** On the same page text both resolvers' id chains agree. */
  lemma AgreesWithFallback(html: string)
    ensures FindFacebookId(html) == ProfileResolver.FindFacebookIdFallback(html)
  {
  }
}
