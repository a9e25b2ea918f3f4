/** The three regular expressions both profile resolvers try, in order:
      /"props":\{[^{}]*?"userID":"(\d+)"/
      /"userID":"(\d+)"/
      /"actorID":"(\d+)"/
    each with `string.match` semantics: only the leftmost match is seen. */
module IdPatterns {
  import opened Base

  const PropsKey: string := "\"props\":{"
  const UserIdKey: string := "\"userID\":\""
  const ActorIdKey: string := "\"actorID\":\""
  const Quote: string := "\""

  /** `<key>(\d+)"` matched exactly at `p`: the greedy digit run must be followed by a quote. */
  function KeyDigitsAt(s: string, p: nat, key: string): (r: Option<string>)
    requires p <= |s|
    ensures r.Some? ==>
      && r.value != [] && AllDigits(r.value)
      && StartsAt(s, p, key) && StartsAt(s, p + |key|, r.value)
      && StartsAt(s, p + |key| + |r.value|, Quote)
  {
    if !StartsAt(s, p, key) then None
    else
      var d := p + |key|;
      var n := DigitRun(s, d);
      if n > 0 && StartsAt(s, d + n, Quote) then Some(s[d..d + n]) else None
  }

  /** Position of the leftmost match of `<key>(\d+)"`. */
  function KeyDigitsPos(s: string, key: string): (r: Option<nat>)
    ensures r.Some? ==> r.value <= |s| && KeyDigitsAt(s, r.value, key).Some?
    ensures forall k: nat :: k <= |s| && (r.None? || k < r.value) ==> KeyDigitsAt(s, k, key).None?
  {
    var hit := (k: nat) => k <= |s| && KeyDigitsAt(s, k, key).Some?;
    var r := Leftmost(|s|, 0, hit);
    forall k: nat | k <= |s| && (r.None? || k < r.value)
      ensures KeyDigitsAt(s, k, key).None?
    {
      assert !hit(k);
    }
    r
  }

  /** Capture group of `html.match(/<key>(\d+)"/)`. */
  function KeyDigits(s: string, key: string): (r: Option<string>)
    ensures r.Some? ==> r.value != [] && AllDigits(r.value)
  {
    match KeyDigitsPos(s, key)
    case None => None
    case Some(p) => KeyDigitsAt(s, p, key)
  }

  /** The lazy `[^{}]*?` after `"props":{`: try `"userID":"(\d+)"` at each
      position, stepping over one non-brace character at a time. */
  function PropsUserIdFrom(s: string, k: nat): (r: Option<string>)
    requires k <= |s|
    ensures r.Some? ==> r.value != [] && AllDigits(r.value)
    decreases |s| - k
  {
    if KeyDigitsAt(s, k, UserIdKey).Some? then KeyDigitsAt(s, k, UserIdKey)
    else if k == |s| || s[k] == '{' || s[k] == '}' then None
    else PropsUserIdFrom(s, k + 1)
  }

  function PropsMatchAt(s: string, p: nat): (r: Option<string>)
    requires p <= |s|
    ensures r.Some? ==> StartsAt(s, p, PropsKey) && r.value != [] && AllDigits(r.value)
  {
    if StartsAt(s, p, PropsKey) then PropsUserIdFrom(s, p + |PropsKey|) else None
  }

  function PropsPos(s: string): (r: Option<nat>)
    ensures r.Some? ==> r.value <= |s| && PropsMatchAt(s, r.value).Some?
    ensures forall k: nat :: k <= |s| && (r.None? || k < r.value) ==> PropsMatchAt(s, k).None?
  {
    var hit := (k: nat) => k <= |s| && PropsMatchAt(s, k).Some?;
    var r := Leftmost(|s|, 0, hit);
    forall k: nat | k <= |s| && (r.None? || k < r.value)
      ensures PropsMatchAt(s, k).None?
    {
      assert !hit(k);
    }
    r
  }

  /** Capture group of `html.match(/"props":\{[^{}]*?"userID":"(\d+)"/)`. */
  function PropsUserId(s: string): (r: Option<string>)
    ensures r.Some? ==> r.value != [] && AllDigits(r.value)
  {
    match PropsPos(s)
    case None => None
    case Some(p) => PropsMatchAt(s, p)
  }

  /** The guard `match && match[1] && match[1] !== "0" && match[1].length > 5`. */
  predicate Accepted(m: Option<string>) {
    m.Some? && m.value != "" && m.value != "0" && |m.value| > 5
  }

  /** Only the leftmost occurrence of a key is considered: when it carries an id,
      that is the capture, whatever later occurrences hold. */
  lemma LeftmostOccurrenceDecides(s: string, key: string, p: nat)
    requires p <= |s| && KeyDigitsAt(s, p, key).Some?
    requires forall k: nat :: k < p ==> KeyDigitsAt(s, k, key).None?
    ensures KeyDigits(s, key) == KeyDigitsAt(s, p, key)
  {
    var pos := KeyDigitsPos(s, key);
    assert pos == Some(p);
  }
}
