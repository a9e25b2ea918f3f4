/** The initials a group card shows in its avatar fallback. */
module GroupCard {
  import opened Base
  import Initials

  /** `getGroupInitials(name)`: unlike the user card, no "?" for an empty name. */
  function GroupInitials(name: string): (r: string)
    ensures |r| <= 2
    ensures |r| == if |Initials.Words(name)| < 2 then |Initials.Words(name)| else 2
    ensures forall k :: 0 <= k < |r| ==> r[k] == Upper(Initials.Words(name)[k][0])
  {
    Initials.Abbreviate(name)
  }

  lemma EmptyNameHasNoInitials()
    ensures GroupInitials("") == ""
  {
    Initials.AbbreviateEmpty();
  }

  /** A one-word name gives one character. */
  lemma OneWordGivesOneInitial(w: string)
    requires w != [] && ' ' !in w
    ensures GroupInitials(w) == [Upper(w[0])]
  {
    Initials.AbbreviateOneWord(w);
  }
}
