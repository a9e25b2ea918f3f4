/** The initials shown in an avatar fallback:
    `name.split(" ").map((n) => n[0]).join("").toUpperCase().slice(0, 2)`.
    `n[0]` of an empty segment is `undefined`, which `join` turns into the
    empty string, so only non-empty segments contribute. */
module Initials {
  import opened Base

  /** The space-separated words of a name: the non-empty pieces of `split(" ")`. */
  function Words(name: string): seq<string> {
    NonEmptyParts(Split(name, ' '))
  }

  /** The upper-cased first character of each word. */
  function Heads(words: seq<string>): (r: string)
    requires forall k :: 0 <= k < |words| ==> words[k] != []
    ensures |r| == |words|
    ensures forall k :: 0 <= k < |r| ==> r[k] == Upper(words[k][0])
  {
    if words == [] then "" else [Upper(words[0][0])] + Heads(words[1..])
  }

  /** At most two initials, taken from the first words in order. */
  function Abbreviate(name: string): (r: string)
    ensures |r| <= 2
    ensures |r| == if |Words(name)| < 2 then |Words(name)| else 2
    ensures forall k :: 0 <= k < |r| ==> r[k] == Upper(Words(name)[k][0])
  {
    var h := Heads(Words(name));
    if |h| <= 2 then h else h[..2]
  }

  lemma {:induction false} SplitAcrossSeparator(a: string, sep: char, b: string)
    ensures Split(a + [sep] + b, sep) == Split(a, sep) + Split(b, sep)
    decreases |a|
  {
    if a == [] {
      var s := a + [sep] + b;
      assert s[1..] == b;
    } else {
      SplitAcrossSeparator(a[1..], sep, b);
      SplitAcrossStep(a, sep, b);
    }
  }

  /** The inductive step of `SplitAcrossSeparator`, for a non-empty `a`. */
  lemma SplitAcrossStep(a: string, sep: char, b: string)
    requires a != []
    requires Split(a[1..] + [sep] + b, sep) == Split(a[1..], sep) + Split(b, sep)
    ensures Split(a + [sep] + b, sep) == Split(a, sep) + Split(b, sep)
  {
    var s, t := a + [sep] + b, a[1..] + [sep] + b;
    assert s[0] == a[0] && s[1..] == t;
    if a[0] == sep {
      SplitAfterSeparator(a, t, Split(a[1..], sep), Split(b, sep), sep);
    } else {
      SplitAfterChar(a, t, Split(a[1..], sep), Split(b, sep), sep);
    }
  }

  lemma SplitAfterSeparator(a: string, t: string, x: seq<string>, y: seq<string>, sep: char)
    requires a != [] && a[0] == sep
    requires Split(t, sep) == x + y && Split(a[1..], sep) == x
    ensures Split([a[0]] + t, sep) == Split(a, sep) + y
  {
    assert ([a[0]] + t)[1..] == t;
    AppendAssoc([""], x, y);
  }

  lemma SplitAfterChar(a: string, t: string, x: seq<string>, y: seq<string>, sep: char)
    requires a != [] && a[0] != sep
    requires Split(t, sep) == x + y && Split(a[1..], sep) == x
    ensures Split([a[0]] + t, sep) == Split(a, sep) + y
  {
    assert ([a[0]] + t)[1..] == t;
    assert (x + y)[0] == x[0] && (x + y)[1..] == x[1..] + y;
    AppendAssoc([[a[0]] + x[0]], x[1..], y);
  }

  lemma {:induction false} NonEmptyPartsConcat(x: seq<string>, y: seq<string>)
    ensures NonEmptyParts(x + y) == NonEmptyParts(x) + NonEmptyParts(y)
    decreases |x|
  {
    if x == [] {
      assert x + y == y;
    } else {
      assert (x + y)[1..] == x[1..] + y;
      NonEmptyPartsConcat(x[1..], y);
    }
  }

  lemma {:induction false} SplitWithoutSeparator(w: string, sep: char)
    requires sep !in w
    ensures Split(w, sep) == [w]
    decreases |w|
  {
    if w != [] {
      SplitWithoutSeparator(w[1..], sep);
      assert [w[0]] + w[1..] == w;
    }
  }

  /** A space separates words, however many spaces there are. */
  lemma WordsAcrossSpace(a: string, b: string)
    ensures Words(a + " " + b) == Words(a) + Words(b)
  {
    SplitAcrossSeparator(a, ' ', b);
    NonEmptyPartsConcat(Split(a, ' '), Split(b, ' '));
  }

  /** A run of text without spaces is one word. */
  lemma WordsOfOneWord(w: string)
    requires w != [] && ' ' !in w
    ensures Words(w) == [w]
  {
    SplitWithoutSeparator(w, ' ');
  }

  /** Spaces alone hold no word. */
  lemma {:induction false} BlankWords(s: string)
    requires forall i :: 0 <= i < |s| ==> s[i] == ' '
    ensures Words(s) == []
    decreases |s|
  {
    if s != [] {
      BlankWords(s[1..]);
      assert s == [] + " " + s[1..];
      WordsAcrossSpace([], s[1..]);
    }
  }

  lemma WordsOfEmpty()
    ensures Words("") == []
  {
  }

  /** The empty name has no initials. */
  lemma AbbreviateEmpty()
    ensures Abbreviate("") == ""
  {
    WordsOfEmpty();
  }

  /** A single word gives exactly its upper-cased first character. */
  lemma AbbreviateOneWord(w: string)
    requires w != [] && ' ' !in w
    ensures Abbreviate(w) == [Upper(w[0])]
  {
    WordsOfOneWord(w);
  }

  /** Two words give the upper-cased first characters of both, whatever
      spaces surround them and whatever follows. */
  lemma AbbreviateTwoWords(pre: string, v: string, w: string, rest: string)
    requires v != [] && ' ' !in v && w != [] && ' ' !in w
    requires Words(pre) == []
    ensures Abbreviate(pre + " " + v + " " + w + rest) == [Upper(v[0]), Upper(w[0])]
  {
    var name := pre + " " + v + " " + w + rest;
    var later := w + rest;
    assert Words(name) == [v] + Words(later) by {
      var tail := v + " " + later;
      SpacedWords(pre, v, w, rest);
      WordsAcrossSpace(pre, tail);
      WordsAcrossSpace(v, later);
      WordsOfOneWord(v);
    }
    WordsLeadingWord(w, rest);
  }

  lemma SpacedWords(pre: string, v: string, w: string, rest: string)
    ensures pre + " " + v + " " + w + rest == pre + " " + (v + " " + (w + rest))
  {
    AppendAssoc(pre + " " + v + " ", w, rest);
    AppendAssoc(pre + " " + v, " ", w + rest);
    AppendAssoc(pre + " ", v, " " + (w + rest));
    AppendAssoc(v, " ", w + rest);
  }

  /** A word followed by anything starts the word list with a piece that
      begins with the word's first character. */
  lemma WordsLeadingWord(w: string, rest: string)
    requires w != [] && ' ' !in w
    ensures |Words(w + rest)| >= 1 && Words(w + rest)[0][0] == w[0]
  {
    var s := w + rest;
    var parts := Split(s, ' ');
    assert s[0] == w[0] != ' ';
    assert parts[0] != [] && parts[0][0] == w[0];
  }
}
