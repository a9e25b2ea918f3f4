/** Shared vocabulary: an optional value and the JavaScript string operations
    the extension relies on (`trim`, `split`, `indexOf`, `lastIndexOf`,
    `includes`, `startsWith`, `\d` and `\s` character classes). Strings are
    sequences of characters; the code-unit level of UTF-16 is not modelled. */
module Base {

  datatype Option<T> = None | Some(value: T)

  /** `\d` in a JavaScript regular expression: ASCII digits only. */
  predicate IsDigit(c: char) { '0' <= c <= '9' }

  predicate AllDigits(s: string) { forall i :: 0 <= i < |s| ==> IsDigit(s[i]) }

  /** White space and line terminators of ECMAScript: the characters `trim`
      removes and `\s` matches. */
  predicate IsJsSpace(c: char) {
    || c == '\t' || c == '\n' || c == '\U{000B}' || c == '\U{000C}' || c == '\r'
    || c == ' ' || c == '\U{00A0}' || c == '\U{1680}'
    || ('\U{2000}' <= c <= '\U{200A}')
    || c == '\U{2028}' || c == '\U{2029}' || c == '\U{202F}' || c == '\U{205F}'
    || c == '\U{3000}' || c == '\U{FEFF}'
  }

  /** `p` occurs in `s` at index `i`. */
  predicate StartsAt(s: string, i: nat, p: string) {
    i + |p| <= |s| && s[i..i + |p|] == p
  }

  /** `s.includes(p)` */
  predicate Contains(s: string, p: string) {
    exists i | 0 <= i <= |s| - |p| :: StartsAt(s, i, p)
  }

  /** `s.indexOf(p, from)` for a non-negative `from`: the first occurrence at or after `from`. */
  function IndexOf(s: string, p: string, from: nat): (r: Option<nat>)
    ensures r.Some? ==> from <= r.value && StartsAt(s, r.value, p)
    ensures forall i: nat :: from <= i && (r.None? || i < r.value) ==> !StartsAt(s, i, p)
    decreases |s| - from
  {
    if from + |p| > |s| then None
    else if StartsAt(s, from, p) then Some(from)
    else IndexOf(s, p, from + 1)
  }

  /** `s.lastIndexOf(p, from)`: the last occurrence at or before `from`. */
  function LastIndexOf(s: string, p: string, from: nat): (r: Option<nat>)
    ensures r.Some? ==> r.value <= from && StartsAt(s, r.value, p)
    ensures forall i: nat :: i <= from && (r.None? || r.value < i) ==> !StartsAt(s, i, p)
    decreases from
  {
    if StartsAt(s, from, p) then Some(from)
    else if from == 0 then None
    else LastIndexOf(s, p, from - 1)
  }

  /** Length of the maximal run of digits that starts at `i` (what a greedy `\d+` consumes). */
  function DigitRun(s: string, i: nat): (n: nat)
    requires i <= |s|
    ensures i + n <= |s|
    ensures forall k :: i <= k < i + n ==> IsDigit(s[k])
    ensures i + n == |s| || !IsDigit(s[i + n])
    decreases |s| - i
  {
    if i < |s| && IsDigit(s[i]) then 1 + DigitRun(s, i + 1) else 0
  }

  function TrimStart(s: string): (r: string)
    ensures |r| <= |s| && r == s[|s| - |r|..]
    ensures forall i :: 0 <= i < |s| - |r| ==> IsJsSpace(s[i])
    ensures r == [] || !IsJsSpace(r[0])
  {
    if s != [] && IsJsSpace(s[0]) then TrimStart(s[1..]) else s
  }

  function TrimEnd(s: string): (r: string)
    ensures |r| <= |s| && r == s[..|r|]
    ensures forall i :: |r| <= i < |s| ==> IsJsSpace(s[i])
    ensures r == [] || !IsJsSpace(r[|r| - 1])
  {
    if s != [] && IsJsSpace(s[|s| - 1]) then TrimEnd(s[..|s| - 1]) else s
  }

  /** `s.trim()`: a contiguous piece of `s` with no white space at either end,
      obtained by dropping only white space. */
  function Trim(s: string): (r: string)
    ensures r == [] || (!IsJsSpace(r[0]) && !IsJsSpace(r[|r| - 1]))
    ensures (forall i :: 0 <= i < |s| ==> IsJsSpace(s[i])) ==> r == []
    ensures (s != [] && !IsJsSpace(s[0]) && !IsJsSpace(s[|s| - 1])) ==> r == s
  {
    TrimEnd(TrimStart(s))
  }

  /** `s.split(sep)` for a one-character separator: always at least one part,
      no part holds the separator, and joining the parts gives `s` back. */
  function Split(s: string, sep: char): (parts: seq<string>)
    ensures |parts| >= 1
    ensures forall k :: 0 <= k < |parts| ==> sep !in parts[k]
    decreases |s|
  {
    if s == [] then [""]
    else
      var rest := Split(s[1..], sep);
      if s[0] == sep then [""] + rest
      else [[s[0]] + rest[0]] + rest[1..]
  }

  /** Concatenation is associative; stated once so that proofs can cite it
      instead of re-deriving it element by element. */
  lemma AppendAssoc<T>(p: seq<T>, q: seq<T>, r: seq<T>)
    ensures p + (q + r) == (p + q) + r
  {
  }

  /** `parts.join(sep)` */
  function Join(parts: seq<string>, sep: char): string
    decreases |parts|
  {
    if parts == [] then ""
    else if |parts| == 1 then parts[0]
    else parts[0] + [sep] + Join(parts[1..], sep)
  }

  lemma {:induction false} SplitJoin(s: string, sep: char)
    ensures Join(Split(s, sep), sep) == s
    decreases |s|
  {
    if s != [] {
      var rest := Split(s[1..], sep);
      SplitJoin(s[1..], sep);
      if s[0] == sep {
        assert Split(s, sep) == [""] + rest;
        assert ([""] + rest)[1..] == rest;
      } else {
        var parts := Split(s, sep);
        assert parts == [[s[0]] + rest[0]] + rest[1..];
        if |rest| == 1 {
          assert Join(rest, sep) == rest[0];
        } else {
          assert Join(rest, sep) == rest[0] + [sep] + Join(rest[1..], sep);
          assert parts[1..] == rest[1..];
        }
      }
    }
  }

  /** `parts.filter((p) => p)`: the non-empty parts, in order. */
  function NonEmptyParts(parts: seq<string>): (r: seq<string>)
    ensures forall k :: 0 <= k < |r| ==> r[k] != [] && r[k] in parts
    ensures |r| <= |parts|
  {
    if parts == [] then []
    else if parts[0] == [] then NonEmptyParts(parts[1..])
    else [parts[0]] + NonEmptyParts(parts[1..])
  }

  /** `c.toUpperCase()` on the ASCII letters; other characters are kept. */
  function Upper(c: char): (u: char)
    ensures 'a' <= c <= 'z' ==> 'A' <= u <= 'Z'
    ensures !('a' <= c <= 'z') ==> u == c
  {
    if 'a' <= c <= 'z' then (c as int - 32) as char else c
  }

  /** Index of the first element satisfying `p` in `[from, n]`; `None` when there is none. */
  function Leftmost(n: nat, from: nat, p: nat -> bool): (r: Option<nat>)
    ensures r.Some? ==> from <= r.value <= n && p(r.value)
    ensures forall k :: from <= k <= n && (r.None? || k < r.value) ==> !p(k)
    decreases n + 1 - from
  {
    if from > n then None
    else if p(from) then Some(from)
    else Leftmost(n, from + 1, p)
  }
}
