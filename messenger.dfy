/** The background page's `safeSendTabMessage`: send a message to a tab,
    retrying with exponential backoff and giving up when the tab is gone.
    The outcome of each send attempt and of each tab lookup are inputs
    indexed by attempt number; waiting is recorded as the list of delays
    requested, in milliseconds. */
module TabMessenger {

  /** What `chrome.tabs.get` reports after a retry delay. */
  datatype TabLookup = Gone | Present(complete: bool)

  /** The returned flag, the number of send attempts made and the delays
      waited, in order. */
  datatype SendResult = SendResult(ok: bool, attempts: nat, waits: seq<nat>)

  /** The `retries` a caller gets when it passes none. */
  const DefaultRetries: int := 3
  const BaseDelay: nat := 1000
  const MaxDelay: nat := 5000
  /** Extra wait when the tab has not finished loading. */
  const NotReadyDelay: nat := 1000

  function Pow2(n: nat): (r: nat)
    ensures r >= 1
  {
    if n == 0 then 1 else 2 * Pow2(n - 1)
  }

  lemma {:induction false} Pow2Monotonic(m: nat, n: nat)
    requires m <= n
    ensures Pow2(m) <= Pow2(n)
    decreases n
  {
    if m < n {
      Pow2Monotonic(m, n - 1);
    }
  }

  /** `Math.min(1000 * 2^(attempt - 1), 5000)`. */
  function Backoff(attempt: nat): (d: nat)
    requires attempt >= 1
    ensures BaseDelay <= d <= MaxDelay
  {
    var raw := BaseDelay * Pow2(attempt - 1);
    if raw < MaxDelay then raw else MaxDelay
  }

  /** The delays double from one second and level off at five. */
  lemma BackoffSchedule(attempt: nat)
    requires attempt >= 1
    ensures attempt == 1 ==> Backoff(attempt) == 1000
    ensures attempt == 2 ==> Backoff(attempt) == 2000
    ensures attempt == 3 ==> Backoff(attempt) == 4000
    ensures attempt >= 4 ==> Backoff(attempt) == 5000
  {
    if attempt >= 4 {
      Pow2Monotonic(3, attempt - 1);
    }
  }

  /** The remaining behaviour from attempt `a` on, counting only the
      attempts made from there. */
  function Run(a: nat, retries: int, sendOk: nat -> bool, tab: nat -> TabLookup): SendResult
    requires a >= 1
    decreases if a <= retries then retries - a + 1 else 0
  {
    if a > retries then SendResult(false, 0, [])
    else if sendOk(a) then SendResult(true, 1, [])
    else if a < retries then
      match tab(a)
      case Gone => SendResult(false, 1, [Backoff(a)])
      case Present(complete) =>
        var rest := Run(a + 1, retries, sendOk, tab);
        var waited := if complete then [Backoff(a)] else [Backoff(a), NotReadyDelay];
        SendResult(rest.ok, 1 + rest.attempts, waited + rest.waits)
    else SendResult(false, 1, [])
  }

  /** One failed attempt followed by a present tab hands over to the next
      attempt, after the waits it asked for. */
  lemma RunStep(a: nat, retries: int, sendOk: nat -> bool, tab: nat -> TabLookup)
    requires 1 <= a < retries && !sendOk(a) && tab(a).Present?
    ensures var r, rest := Run(a, retries, sendOk, tab), Run(a + 1, retries, sendOk, tab);
      && r.ok == rest.ok && r.attempts == 1 + rest.attempts
      && r.waits == (if tab(a).complete then [Backoff(a)] else [Backoff(a), NotReadyDelay]) + rest.waits
  {
  }

  /** The whole call: nothing is attempted in an invalid extension context. */
  function Outcome(contextValid: bool, retries: int, sendOk: nat -> bool, tab: nat -> TabLookup): SendResult {
    if !contextValid then SendResult(false, 0, []) else Run(1, retries, sendOk, tab)
  }

  /** The loop step of `SafeSendTabMessage`: after a failed attempt with
      the tab present, the waits recorded so far and the rest of the run from
      the next attempt still add up to the whole run. */
  lemma StepKeepsTotal(total: SendResult, a: nat, retries: int, sendOk: nat -> bool, tab: nat -> TabLookup,
                       attempts: nat, w0: seq<nat>, waits: seq<nat>)
    requires 1 <= a < retries && !sendOk(a) && tab(a).Present?
    requires var rest := Run(a, retries, sendOk, tab);
      total == SendResult(rest.ok, attempts - 1 + rest.attempts, w0 + rest.waits)
    requires waits == w0 + if tab(a).complete then [Backoff(a)] else [Backoff(a), NotReadyDelay]
    ensures var rest := Run(a + 1, retries, sendOk, tab);
      total == SendResult(rest.ok, attempts + rest.attempts, waits + rest.waits)
  {
    RunStep(a, retries, sendOk, tab);
    var rest := Run(a + 1, retries, sendOk, tab);
    var waited := if tab(a).complete then [Backoff(a)] else [Backoff(a), NotReadyDelay];
    assert w0 + (waited + rest.waits) == (w0 + waited) + rest.waits;
  }

  /** The runs that end at attempt `a`: past the budget, on success, on
      the last attempt, or when the tab has gone. */
  lemma RunEnds(a: nat, retries: int, sendOk: nat -> bool, tab: nat -> TabLookup)
    requires a >= 1
    ensures a > retries ==> Run(a, retries, sendOk, tab) == SendResult(false, 0, [])
    ensures a <= retries && sendOk(a) ==> Run(a, retries, sendOk, tab) == SendResult(true, 1, [])
    ensures a == retries && !sendOk(a) ==> Run(a, retries, sendOk, tab) == SendResult(false, 1, [])
    ensures a < retries && !sendOk(a) && tab(a).Gone? ==> Run(a, retries, sendOk, tab) == SendResult(false, 1, [Backoff(a)])
  {
  }

  /** The retry loop itself, proved to behave as `Outcome` says. */
  method SafeSendTabMessage(contextValid: bool, retries: int, sendOk: nat -> bool, tab: nat -> TabLookup)
    returns (ok: bool, attempts: nat, waits: seq<nat>)
    ensures SendResult(ok, attempts, waits) == Outcome(contextValid, retries, sendOk, tab)
  {
    if !contextValid {
      return false, 0, [];
    }
    attempts, waits := 0, [];
    var attempt: nat := 1;
    ghost var total := Run(1, retries, sendOk, tab);
    while attempt <= retries
      invariant attempt >= 1 && attempts == attempt - 1
      invariant var rest := Run(attempt, retries, sendOk, tab);
        total == SendResult(rest.ok, attempts + rest.attempts, waits + rest.waits)
      decreases retries - attempt
    {
      ghost var w0 := waits;
      attempts := attempts + 1;
      if sendOk(attempt) {
        RunEnds(attempt, retries, sendOk, tab);
        assert waits + [] == waits;
        return true, attempts, waits;
      }
      if attempt < retries {
        waits := waits + [Backoff(attempt)];
        match tab(attempt)
        case Gone =>
          RunEnds(attempt, retries, sendOk, tab);
          return false, attempts, waits;
        case Present(complete) =>
          if !complete {
            waits := waits + [NotReadyDelay];
            assert waits == w0 + [Backoff(attempt), NotReadyDelay];
          }
          StepKeepsTotal(total, attempt, retries, sendOk, tab, attempts, w0, waits);
      } else {
        RunEnds(attempt, retries, sendOk, tab);
        RunEnds(attempt + 1, retries, sendOk, tab);
        assert w0 + [] == waits;
      }
      attempt := attempt + 1;
    }
    RunEnds(attempt, retries, sendOk, tab);
    assert waits + [] == waits;
    return false, attempts, waits;
  }

  /** An invalid extension context gives false without any attempt. */
  lemma InvalidContextSkips(retries: int, sendOk: nat -> bool, tab: nat -> TabLookup)
    ensures Outcome(false, retries, sendOk, tab) == SendResult(false, 0, [])
  {
  }

  /** Never more than `retries` attempts, and never a wait after the last one
      when the run ends by exhausting its attempts. */
  lemma {:induction false} RunAttemptsBound(a: nat, retries: int, sendOk: nat -> bool, tab: nat -> TabLookup)
    requires a >= 1
    ensures Run(a, retries, sendOk, tab).attempts <= if a <= retries then retries - a + 1 else 0
    decreases if a <= retries then retries - a + 1 else 0
  {
    if a <= retries && !sendOk(a) && a < retries && tab(a).Present? {
      RunAttemptsBound(a + 1, retries, sendOk, tab);
    }
  }

  lemma AttemptsBound(contextValid: bool, retries: int, sendOk: nat -> bool, tab: nat -> TabLookup)
    ensures Outcome(contextValid, retries, sendOk, tab).attempts <= if retries < 0 then 0 else retries
  {
    RunAttemptsBound(1, retries, sendOk, tab);
  }

  /** With the default budget a send makes at most three attempts and waits
      at most four times, never longer than two seconds at once. */
  lemma DefaultRunBound(contextValid: bool, sendOk: nat -> bool, tab: nat -> TabLookup)
    ensures var r := Outcome(contextValid, DefaultRetries, sendOk, tab);
            && r.attempts <= 3 && |r.waits| <= 4
            && forall k :: 0 <= k < |r.waits| ==> r.waits[k] <= 2 * BaseDelay
  {
    AttemptsBound(contextValid, DefaultRetries, sendOk, tab);
    BackoffSchedule(1);
    BackoffSchedule(2);
  }

  /** Attempt `k`, counted from attempt `a`, is the first successful send
      and every attempt before it found the tab still there. */
  predicate SucceedsAt(a: nat, k: nat, retries: int, sendOk: nat -> bool, tab: nat -> TabLookup) {
    a <= k <= retries && sendOk(k) && forall j :: a <= j < k ==> !sendOk(j) && tab(j).Present?
  }

  /** The run succeeds exactly when some attempt within the budget is the
      first successful send, reached with the tab still there. */
  lemma {:induction false} RunSucceedsIff(a: nat, retries: int, sendOk: nat -> bool, tab: nat -> TabLookup)
    requires a >= 1
    ensures Run(a, retries, sendOk, tab).ok <==> exists k :: SucceedsAt(a, k, retries, sendOk, tab)
    decreases if a <= retries then retries - a + 1 else 0
  {
    if a > retries {
    } else if sendOk(a) {
      assert SucceedsAt(a, a, retries, sendOk, tab);
    } else if a < retries && tab(a).Present? {
      RunSucceedsIff(a + 1, retries, sendOk, tab);
      if Run(a, retries, sendOk, tab).ok {
        var k :| SucceedsAt(a + 1, k, retries, sendOk, tab);
        assert SucceedsAt(a, k, retries, sendOk, tab);
      }
      if exists k :: SucceedsAt(a, k, retries, sendOk, tab) {
        var k :| SucceedsAt(a, k, retries, sendOk, tab);
        assert SucceedsAt(a + 1, k, retries, sendOk, tab);
      }
    } else {
      if exists k :: SucceedsAt(a, k, retries, sendOk, tab) {
        var k :| SucceedsAt(a, k, retries, sendOk, tab);
        assert false;
      }
    }
  }

  /** A successful run stops right after the successful attempt. */
  lemma {:induction false} RunStopsAtSuccess(a: nat, retries: int, sendOk: nat -> bool, tab: nat -> TabLookup)
    requires a >= 1 && Run(a, retries, sendOk, tab).ok
    ensures SucceedsAt(a, a + Run(a, retries, sendOk, tab).attempts - 1, retries, sendOk, tab)
    decreases if a <= retries then retries - a + 1 else 0
  {
    if !sendOk(a) {
      RunStopsAtSuccess(a + 1, retries, sendOk, tab);
    }
  }

  /** `true` comes from the first successful send, and no attempt follows it. */
  lemma FirstSuccessStops(retries: int, sendOk: nat -> bool, tab: nat -> TabLookup)
    ensures Outcome(true, retries, sendOk, tab).ok <==> exists k :: SucceedsAt(1, k, retries, sendOk, tab)
    ensures var r := Outcome(true, retries, sendOk, tab);
      r.ok ==> r.attempts >= 1 && SucceedsAt(1, r.attempts, retries, sendOk, tab)
  {
    RunSucceedsIff(1, retries, sendOk, tab);
    if Outcome(true, retries, sendOk, tab).ok {
      RunStopsAtSuccess(1, retries, sendOk, tab);
    }
  }

  /** When every send fails and the tab is always present and loaded, all
      `retries` attempts are made, the delays follow the backoff schedule,
      and none follows the final attempt. */
  lemma {:induction false} RunAllFail(a: nat, retries: int, sendOk: nat -> bool, tab: nat -> TabLookup)
    requires a >= 1 && a <= retries
    requires forall j :: a <= j <= retries ==> !sendOk(j) && tab(j) == Present(true)
    ensures var r := Run(a, retries, sendOk, tab);
      && !r.ok && r.attempts == retries - a + 1 && |r.waits| == retries - a
      && forall i :: 0 <= i < |r.waits| ==> r.waits[i] == Backoff(a + i)
    decreases retries - a
  {
    if a < retries {
      RunAllFail(a + 1, retries, sendOk, tab);
      var rest := Run(a + 1, retries, sendOk, tab);
      var r := Run(a, retries, sendOk, tab);
      assert r.waits == [Backoff(a)] + rest.waits;
      forall i | 0 <= i < |r.waits| ensures r.waits[i] == Backoff(a + i) {
        if i > 0 {
          assert r.waits[i] == rest.waits[i - 1];
        }
      }
    }
  }

  lemma AllFailSchedule(retries: int, sendOk: nat -> bool, tab: nat -> TabLookup)
    requires retries >= 1
    requires forall j :: 1 <= j <= retries ==> !sendOk(j) && tab(j) == Present(true)
    ensures var r := Outcome(true, retries, sendOk, tab);
      && !r.ok && r.attempts == retries && |r.waits| == retries - 1
      && forall i :: 0 <= i < |r.waits| ==> r.waits[i] == Backoff(i + 1)
  {
    RunAllFail(1, retries, sendOk, tab);
  }

  /** After a failed attempt that is not the last, the backoff delay comes
      first; a vanished tab ends the run with false, and a tab still loading
      adds one extra second before the next attempt. */
  lemma AfterFailedAttempt(a: nat, retries: int, sendOk: nat -> bool, tab: nat -> TabLookup)
    requires 1 <= a < retries && !sendOk(a)
    ensures var r := Run(a, retries, sendOk, tab);
      var rest := Run(a + 1, retries, sendOk, tab);
      && (tab(a) == Gone ==> r == SendResult(false, 1, [Backoff(a)]))
      && (tab(a) == Present(false) ==> r == SendResult(rest.ok, 1 + rest.attempts, [Backoff(a), NotReadyDelay] + rest.waits))
      && (tab(a) == Present(true) ==> r == SendResult(rest.ok, 1 + rest.attempts, [Backoff(a)] + rest.waits))
  {
  }

  /** The final attempt failing ends the run with no further wait or lookup. */
  lemma LastAttemptFails(retries: int, sendOk: nat -> bool, tab: nat -> TabLookup)
    requires retries >= 1 && !sendOk(retries)
    ensures Run(retries, retries, sendOk, tab) == SendResult(false, 1, [])
  {
  }
}
