/** `getMembershipRole` after the fetch. The two regular-expression matches
    over the page are inputs: `introCard` is the span captured by the
    `"profile_intro_card"` pattern (`None` when it does not match), and
    `membershipFound` says whether the `"membership"`/`"added_time"` pattern
    matched anywhere in the page. */
module MembershipClassifier {
  import opened Base
  import opened Types

  /** A role phrase in the two encodings a page may deliver: with `\uXXXX`
      escapes spelled out, and as literal Vietnamese text. */
  datatype Phrase = Phrase(escaped: string, literal: string)

  const NotMemberPhrase: Phrase := Phrase("kh\\u00f4ng ph\\u1ea3i l\\u00e0 th\\u00e0nh vi\\u00ean c\\u1ee7a", "không phải là thành viên của")
  const AdminPhrase: Phrase := Phrase("Qu\\u1ea3n tr\\u1ecb vi\\u00ean c\\u1ee7a", "Quản trị viên của")
  const ModeratorPhrase: Phrase := Phrase("Ng\\u01b0\\u1eddi ki\\u1ec3m duy\\u1ec7t c\\u1ee7a", "Người kiểm duyệt của")
  const MemberPhrase: Phrase := Phrase("Th\\u00e0nh vi\\u00ean c\\u1ee7a", "Thành viên của")

  /** Either encoding of the phrase occurs in the span. */
  predicate Mentions(span: string, ph: Phrase) {
    Contains(span, ph.escaped) || Contains(span, ph.literal)
  }

  /** The decision inside the intro card, in precedence order; `None` when no phrase occurs. */
  function CardRole(span: string): Option<MembershipRole> {
    if Mentions(span, NotMemberPhrase) then Some(NotMember)
    else if Mentions(span, AdminPhrase) then Some(Admin)
    else if Mentions(span, ModeratorPhrase) then Some(Moderator)
    else if Mentions(span, MemberPhrase) then Some(Member)
    else None
  }

  function GetMembershipRole(introCard: Option<string>, membershipFound: bool): MembershipRole {
    match (if introCard.Some? then CardRole(introCard.value) else None)
    case Some(role) => role
    case None => if membershipFound then Member else NotMember
  }

  /** The not-member phrase in the card decides, whatever role phrases and
      membership data the page also holds. */
  lemma NotMemberPhraseWins(span: string, membershipFound: bool)
    requires Mentions(span, NotMemberPhrase)
    ensures GetMembershipRole(Some(span), membershipFound) == NotMember
  {
  }

  /** Inside the card: admin before moderator before member, and each phrase
      counts in either encoding alone. */
  lemma RolePrecedence(span: string, membershipFound: bool)
    requires !Mentions(span, NotMemberPhrase)
    ensures Contains(span, AdminPhrase.escaped) || Contains(span, AdminPhrase.literal)
            ==> GetMembershipRole(Some(span), membershipFound) == Admin
    ensures !Mentions(span, AdminPhrase) && Mentions(span, ModeratorPhrase)
            ==> GetMembershipRole(Some(span), membershipFound) == Moderator
    ensures !Mentions(span, AdminPhrase) && !Mentions(span, ModeratorPhrase) && Mentions(span, MemberPhrase)
            ==> GetMembershipRole(Some(span), membershipFound) == Member
  {
  }

  /** Without a card, or with a card that names no phrase, the membership
      match alone decides between MEMBER and NOT_MEMBER. */
  lemma FallbackDecides(introCard: Option<string>, membershipFound: bool)
    requires introCard.None? || CardRole(introCard.value).None?
    ensures GetMembershipRole(introCard, membershipFound) == if membershipFound then Member else NotMember
  {
  }

  /** MEMBER, ADMIN and MODERATOR come only from a phrase in the card or, for
      MEMBER, from the membership match. */
  lemma RoleHasEvidence(introCard: Option<string>, membershipFound: bool)
    ensures var r := GetMembershipRole(introCard, membershipFound);
            && (r == Admin ==> introCard.Some? && Mentions(introCard.value, AdminPhrase))
            && (r == Moderator ==> introCard.Some? && Mentions(introCard.value, ModeratorPhrase))
            && (r == Member ==> membershipFound || (introCard.Some? && Mentions(introCard.value, MemberPhrase)))
            && (r != NotMember ==> introCard.None? || !Mentions(introCard.value, NotMemberPhrase))
  {
  }
}
