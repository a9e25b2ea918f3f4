/** `isMemberOfGroup`, the older boolean classifier, after the fetch. Its
    inputs are the same two regular-expression matches as the role
    classifier's. */
module MemberCheck {
  import opened Base
  import opened Types
  import opened MembershipClassifier

  function IsMemberOfGroup(introCard: Option<string>, membershipFound: bool): bool {
    if introCard.Some? && Mentions(introCard.value, NotMemberPhrase) then false
    else if introCard.Some?
      && (|| Contains(introCard.value, MemberPhrase.escaped)
          || Contains(introCard.value, AdminPhrase.escaped)
          || Contains(introCard.value, ModeratorPhrase.escaped)
          || Contains(introCard.value, MemberPhrase.literal)
          || Contains(introCard.value, AdminPhrase.literal)
          || Contains(introCard.value, ModeratorPhrase.literal))
    then true
    else membershipFound
  }

  /** On the same page both classifiers agree: a member exactly when the role is not NOT_MEMBER. */
  lemma AgreesWithRole(introCard: Option<string>, membershipFound: bool)
    ensures IsMemberOfGroup(introCard, membershipFound)
            == (GetMembershipRole(introCard, membershipFound) != NotMember)
  {
  }

  /** The not-member phrase gives false; any role phrase otherwise gives true;
      else the membership match decides, also when the card exists without a phrase. */
  lemma Decision(introCard: Option<string>, membershipFound: bool)
    ensures introCard.Some? && Mentions(introCard.value, NotMemberPhrase)
            ==> !IsMemberOfGroup(introCard, membershipFound)
    ensures introCard.Some? && !Mentions(introCard.value, NotMemberPhrase)
            && (Mentions(introCard.value, MemberPhrase) || Mentions(introCard.value, AdminPhrase)
                || Mentions(introCard.value, ModeratorPhrase))
            ==> IsMemberOfGroup(introCard, membershipFound)
    ensures (introCard.None? || CardRole(introCard.value).None?)
            ==> IsMemberOfGroup(introCard, membershipFound) == membershipFound
  {
  }
}
