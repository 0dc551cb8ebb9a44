/**
 * The two bounded retry loops that make flaky page interactions go
 * through: the click escalation ladder (`ensure_clickable_and_click`) and
 * the search-field acquisition loop at the start of the run.
 *
 * The browser is replaced by an oracle: a sequence that says how each
 * successive call turns out. What the loops do to the browser is returned
 * as a trace of actions; sleeps appear in the trace with their duration in
 * seconds, and no time passes.
 */
module Resilience {

  // ---------------------------------------------------------------------
  // The click escalation ladder
  // ---------------------------------------------------------------------

  const MaxClickAttempts: nat := 4
  const BackoffSeconds: nat := 2
  const CookieBannerLocator: string := "css=button[class*='accept-cookies']"

  /** The remediations run after a failed direct click; their own failures are swallowed. */
  datatype Remedy =
    | CloseCookiesBanner(bannerLocator: string)
    | WaitForClickableAndClick(locator: string)
    | ClickWithJavaScript(script: string)
    | PressEscapeKey

  datatype Action =
    | DirectClick(locator: string)
    | Remediate(remedy: Remedy)
    | Sleep(seconds: nat)

  /** The script `click_with_javascript` hands to the browser. */
  function ClickScript(locator: string): string
  {
    "document.querySelector('" + locator + "').click()"
  }

  /** The four remediations, in the order of the attempts they follow. */
  function Ladder(locator: string): seq<Remedy>
  {
    [CloseCookiesBanner(CookieBannerLocator), WaitForClickableAndClick(locator),
     ClickWithJavaScript(ClickScript(locator)), PressEscapeKey]
  }

  /** The remediation chosen after the failure of attempt number `attempts` (from 0). */
  function RemedyFor(locator: string, attempts: nat): (r: Remedy)
    requires attempts < MaxClickAttempts
    ensures r == Ladder(locator)[attempts]
  {
    if attempts == 0 then CloseCookiesBanner(CookieBannerLocator)
    else if attempts == 1 then WaitForClickableAndClick(locator)
    else if attempts == 2 then ClickWithJavaScript(ClickScript(locator))
    else PressEscapeKey
  }

  /**
   * The number of failed direct clicks before the first success at or
   * after `j`, or `MaxClickAttempts` when none of the remaining ones succeeds.
   */
  function FirstSuccessFrom(clickOk: seq<bool>, j: nat): (k: nat)
    requires j <= MaxClickAttempts <= |clickOk|
    ensures j <= k <= MaxClickAttempts
    ensures forall m :: j <= m < k ==> !clickOk[m]
    ensures k < MaxClickAttempts ==> clickOk[k]
    decreases MaxClickAttempts - j
  {
    if j == MaxClickAttempts || clickOk[j] then j else FirstSuccessFrom(clickOk, j + 1)
  }

  function FirstSuccess(clickOk: seq<bool>): nat
    requires MaxClickAttempts <= |clickOk|
  {
    FirstSuccessFrom(clickOk, 0)
  }

  /** The actions of the first `k` failed attempts: click, remediation, sleep. */
  function FailedRounds(locator: string, k: nat): seq<Action>
    requires k <= MaxClickAttempts
  {
    if k == 0 then []
    else FailedRounds(locator, k - 1) + [DirectClick(locator), Remediate(RemedyFor(locator, k - 1)), Sleep(BackoffSeconds)]
  }

  /** The whole trace of the ladder when the direct clicks turn out as `clickOk` says. */
  function Escalation(locator: string, clickOk: seq<bool>): seq<Action>
    requires MaxClickAttempts <= |clickOk|
  {
    var k := FirstSuccess(clickOk);
    FailedRounds(locator, k) + if k < MaxClickAttempts then [DirectClick(locator)] else []
  }

  /**
   * `ensure_clickable_and_click(locator)`: `clickOk[i]` tells whether the
   * i-th direct `click_element(locator)` succeeds. The loop stops at the
   * first success; after the failure of attempt `attempts` it runs exactly
   * one remediation and sleeps. It never raises, whether or not a click
   * ever succeeded.
   */
  method EnsureClickableAndClick(locator: string, clickOk: seq<bool>) returns (trace: seq<Action>)
    requires MaxClickAttempts <= |clickOk|
    ensures trace == Escalation(locator, clickOk)
    ensures DirectClicks(trace) == if FirstSuccess(clickOk) < MaxClickAttempts then FirstSuccess(clickOk) + 1 else MaxClickAttempts
    ensures Remedies(trace) == Ladder(locator)[..FirstSuccess(clickOk)]
    ensures Sleeps(trace) == seq(FirstSuccess(clickOk), _ => BackoffSeconds)
  {
    var attempts := 0;
    trace := [];
    while attempts < MaxClickAttempts
      invariant attempts <= MaxClickAttempts
      invariant forall j :: 0 <= j < attempts ==> !clickOk[j]
      invariant trace == FailedRounds(locator, attempts)
    {
      trace := trace + [DirectClick(locator)];
      if clickOk[attempts] {
        break;
      }
      trace := trace + [Remediate(RemedyFor(locator, attempts)), Sleep(BackoffSeconds)];
      attempts := attempts + 1;
    }
    EscalationShape(locator, clickOk);
  }

  // Views of a trace.

  function DirectClicks(t: seq<Action>): nat
  {
    if t == [] then 0 else (if t[0].DirectClick? then 1 else 0) + DirectClicks(t[1..])
  }

  function Remedies(t: seq<Action>): seq<Remedy>
  {
    if t == [] then [] else (if t[0].Remediate? then [t[0].remedy] else []) + Remedies(t[1..])
  }

  /** The durations of the sleeps, in order. */
  function Sleeps(t: seq<Action>): seq<nat>
  {
    if t == [] then [] else (if t[0].Sleep? then [t[0].seconds] else []) + Sleeps(t[1..])
  }

  lemma {:induction false} DirectClicksAppend(a: seq<Action>, b: seq<Action>)
    ensures DirectClicks(a + b) == DirectClicks(a) + DirectClicks(b)
  {
    if a == [] {
      assert a + b == b;
    } else {
      assert (a + b)[0] == a[0];
      assert (a + b)[1..] == a[1..] + b;
      DirectClicksAppend(a[1..], b);
      calc {
        DirectClicks(a + b);
        (if a[0].DirectClick? then 1 else 0) + DirectClicks(a[1..] + b);
        (if a[0].DirectClick? then 1 else 0) + (DirectClicks(a[1..]) + DirectClicks(b));
      }
    }
  }

  lemma {:induction false} RemediesAppend(a: seq<Action>, b: seq<Action>)
    ensures Remedies(a + b) == Remedies(a) + Remedies(b)
  {
    if a == [] {
      assert a + b == b;
    } else {
      assert (a + b)[0] == a[0];
      assert (a + b)[1..] == a[1..] + b;
      RemediesAppend(a[1..], b);
      calc {
        Remedies(a + b);
        (if a[0].Remediate? then [a[0].remedy] else []) + Remedies(a[1..] + b);
        (if a[0].Remediate? then [a[0].remedy] else []) + (Remedies(a[1..]) + Remedies(b));
      }
    }
  }

  lemma {:induction false} SleepsAppend(a: seq<Action>, b: seq<Action>)
    ensures Sleeps(a + b) == Sleeps(a) + Sleeps(b)
  {
    if a == [] {
      assert a + b == b;
    } else {
      assert (a + b)[0] == a[0];
      assert (a + b)[1..] == a[1..] + b;
      SleepsAppend(a[1..], b);
      calc {
        Sleeps(a + b);
        (if a[0].Sleep? then [a[0].seconds] else []) + Sleeps(a[1..] + b);
        (if a[0].Sleep? then [a[0].seconds] else []) + (Sleeps(a[1..]) + Sleeps(b));
      }
    }
  }

  lemma ViewsAppend(a: seq<Action>, b: seq<Action>)
    ensures DirectClicks(a + b) == DirectClicks(a) + DirectClicks(b)
    ensures Remedies(a + b) == Remedies(a) + Remedies(b)
    ensures Sleeps(a + b) == Sleeps(a) + Sleeps(b)
  {
    DirectClicksAppend(a, b);
    RemediesAppend(a, b);
    SleepsAppend(a, b);
  }

  lemma {:induction false} FailedRoundsShape(locator: string, k: nat)
    requires k <= MaxClickAttempts
    ensures DirectClicks(FailedRounds(locator, k)) == k
    ensures Remedies(FailedRounds(locator, k)) == Ladder(locator)[..k]
    ensures Sleeps(FailedRounds(locator, k)) == seq(k, _ => BackoffSeconds)
  {
    if k > 0 {
      FailedRoundsShape(locator, k - 1);
      var round := [DirectClick(locator), Remediate(RemedyFor(locator, k - 1)), Sleep(BackoffSeconds)];
      ViewsAppend(FailedRounds(locator, k - 1), round);
      var last, tail := round[1..][1..], round[1..];
      assert last == [Sleep(BackoffSeconds)] && last[1..] == [];
      assert DirectClicks(last) == 0 && Remedies(last) == [] && Sleeps(last) == [BackoffSeconds];
      assert tail[1..] == last;
      assert DirectClicks(tail) == 0 && Remedies(tail) == [RemedyFor(locator, k - 1)] && Sleeps(tail) == [BackoffSeconds];
      assert DirectClicks(round) == 1;
      assert Remedies(round) == [Ladder(locator)[k - 1]];
      assert Sleeps(round) == [BackoffSeconds];
      assert Ladder(locator)[..k] == Ladder(locator)[..k - 1] + [Ladder(locator)[k - 1]];
      assert seq(k, _ => BackoffSeconds) == seq(k - 1, _ => BackoffSeconds) + [BackoffSeconds];
    }
  }

  /**
   * If the first direct click to succeed is attempt `k + 1`, the ladder made
   * `k + 1` direct clicks and the last action is that click; if none of the
   * four succeeds, it made four. Either way it ran the first `k` remediations
   * of the ladder, in order, each followed by one two-second sleep.
   */
  lemma EscalationShape(locator: string, clickOk: seq<bool>)
    requires MaxClickAttempts <= |clickOk|
    ensures var k, t := FirstSuccess(clickOk), Escalation(locator, clickOk);
      && DirectClicks(t) == (if k < MaxClickAttempts then k + 1 else MaxClickAttempts)
      && DirectClicks(t) <= MaxClickAttempts
      && Remedies(t) == Ladder(locator)[..k]
      && Sleeps(t) == seq(k, _ => BackoffSeconds)
      && (k < MaxClickAttempts ==> t[|t| - 1] == DirectClick(locator))
  {
    var k := FirstSuccess(clickOk);
    var tail := if k < MaxClickAttempts then [DirectClick(locator)] else [];
    FailedRoundsShape(locator, k);
    ViewsAppend(FailedRounds(locator, k), tail);
    if k < MaxClickAttempts {
      assert tail[1..] == [];
    }
  }

  /** A target that yields only to the fourth direct click: four clicks, three remediations, three sleeps. */
  lemma FourthClickSucceeds(locator: string)
    ensures var t := Escalation(locator, [false, false, false, true]);
      DirectClicks(t) == 4 && |Remedies(t)| == 3 && Sleeps(t) == [2, 2, 2]
  {
    var ok := [false, false, false, true];
    assert FirstSuccess(ok) == 3;
    EscalationShape(locator, ok);
  }

  // ---------------------------------------------------------------------
  // The search-field acquisition loop
  // ---------------------------------------------------------------------

  const MaxSearchAttempts: nat := 5

  /** How one iteration of the search-field loop turns out. */
  datatype SearchStep =
    | LookupRaises            // the `querySelector` script raised
    | LookupReturnsNone       // it returned `None`: no exception, no retry counted
    | FoundInteractionRaises  // it returned the field, then scroll, typing or RETURN raised
    | FoundAndSubmitted       // it returned the field and the search was submitted

  predicate IsFound(step: SearchStep)
  {
    step == FoundInteractionRaises || step == FoundAndSubmitted
  }

  /**
   * The loop's variables after some iterations: how many iterations ran,
   * `attempts`, whether `search_field` is non-`None`, whether the search
   * was submitted (the `break`), and the sleeps taken.
   */
  datatype SearchRun = SearchRun(iterations: nat, attempts: nat, fieldFound: bool, submitted: bool, sleeps: nat)

  const SearchStart: SearchRun := SearchRun(0, 0, false, false, 0)

  /** The loop has left: by the `break`, or because its guard `attempts < 5` failed. */
  predicate LoopExited(run: SearchRun)
  {
    run.submitted || run.attempts >= MaxSearchAttempts
  }

  /** One iteration: only an exception counts an attempt and sleeps. */
  function Iterate(run: SearchRun, step: SearchStep): SearchRun
  {
    var run := run.(iterations := run.iterations + 1);
    match step
    case LookupRaises => run.(attempts := run.attempts + 1, sleeps := run.sleeps + 1)
    case LookupReturnsNone => run.(fieldFound := false)
    case FoundInteractionRaises => run.(fieldFound := true, attempts := run.attempts + 1, sleeps := run.sleeps + 1)
    case FoundAndSubmitted => run.(fieldFound := true, submitted := true)
  }

  /** The loop run from `run` against the iteration outcomes `steps`, until it exits or `steps` runs out. */
  function SearchLoop(steps: seq<SearchStep>, run: SearchRun): SearchRun
    decreases |steps|
  {
    if LoopExited(run) || steps == [] then run
    else SearchLoop(steps[1..], Iterate(run, steps[0]))
  }

  /** The iterations that raise, and so count an attempt. */
  predicate Raises(step: SearchStep)
  {
    step == LookupRaises || step == FoundInteractionRaises
  }

  /** The number of raising iterations among `steps`. */
  function Raising(steps: seq<SearchStep>): nat
  {
    if steps == [] then 0
    else Raising(steps[..|steps| - 1]) + if Raises(steps[|steps| - 1]) then 1 else 0
  }

  /**
   * Some lookup in `steps` returned the field and every later lookup
   * raised: `search_field` still holds that field.
   */
  ghost predicate LastLookupFound(steps: seq<SearchStep>)
  {
    exists p :: 0 <= p < |steps| && IsFound(steps[p]) && forall q :: p < q < |steps| ==> steps[q] == LookupRaises
  }

  /** What happens after the loop. */
  datatype SearchOutcome =
    | StillRetrying            // the loop has not exited when `steps` runs out
    | Aborted                  // `search_field is None`: the run raises
    | Searched                 // the search term was submitted
    | ContinuesWithoutSearch   // a field was found but never used: the run goes on regardless

  function Verdict(run: SearchRun): SearchOutcome
  {
    if !LoopExited(run) then StillRetrying
    else if !run.fieldFound then Aborted
    else if run.submitted then Searched
    else ContinuesWithoutSearch
  }

  /**
   * The search-field loop of `main`. `attempts` grows only when an iteration
   * raises, and each such iteration sleeps once; the loop exits by
   * submitting or after five exceptions. Whether the run then aborts depends
   * only on the last lookup that did not raise.
   */
  method AcquireSearchField(steps: seq<SearchStep>) returns (run: SearchRun)
    ensures run == SearchLoop(steps, SearchStart)
    ensures run.iterations <= |steps|
    ensures run.attempts == Raising(steps[..run.iterations]) && run.attempts <= MaxSearchAttempts
    ensures run.sleeps == run.attempts
    ensures run.fieldFound <==> LastLookupFound(steps[..run.iterations])
    ensures run.iterations < |steps| ==> LoopExited(run)
    ensures Verdict(run) == Aborted <==> LoopExited(run) && !LastLookupFound(steps[..run.iterations])
  {
    var attempts, sleeps, i := 0, 0, 0;
    var fieldFound, submitted := false, false;
    while attempts < MaxSearchAttempts && i < |steps|
      invariant i <= |steps| && attempts <= MaxSearchAttempts
      invariant SearchLoop(steps, SearchStart) == SearchLoop(steps[i..], SearchRun(i, attempts, fieldFound, false, sleeps))
      invariant attempts == Raising(steps[..i]) && sleeps == attempts
      invariant fieldFound <==> LastLookupFound(steps[..i])
    {
      var step := steps[i];
      assert steps[i..][1..] == steps[i + 1..];
      assert steps[..i + 1][..i] == steps[..i];
      LastLookupStep(steps[..i + 1]);
      i := i + 1;
      match step {
        case LookupRaises =>
          attempts, sleeps := attempts + 1, sleeps + 1;
        case LookupReturnsNone =>
          fieldFound := false;
        case FoundInteractionRaises =>
          fieldFound := true;
          attempts, sleeps := attempts + 1, sleeps + 1;
        case FoundAndSubmitted =>
          fieldFound, submitted := true, true;
          break;
      }
    }
    run := SearchRun(i, attempts, fieldFound, submitted, sleeps);
  }

  lemma LastLookupStep(steps: seq<SearchStep>)
    requires steps != []
    ensures var n := |steps| - 1;
      LastLookupFound(steps) <==>
        if steps[n] == LookupRaises then LastLookupFound(steps[..n]) else IsFound(steps[n])
  {
    var n := |steps| - 1;
    var init := steps[..n];
    if steps[n] == LookupRaises {
      if LastLookupFound(init) {
        var p :| 0 <= p < n && IsFound(init[p]) && forall q :: p < q < n ==> init[q] == LookupRaises;
        assert IsFound(steps[p]);
        assert forall q :: p < q < |steps| ==> steps[q] == LookupRaises by {
          forall q | p < q < |steps| ensures steps[q] == LookupRaises {
            if q < n { assert steps[q] == init[q]; }
          }
        }
      }
      if LastLookupFound(steps) {
        var p :| 0 <= p < |steps| && IsFound(steps[p]) && forall q :: p < q < |steps| ==> steps[q] == LookupRaises;
        assert p < n;
        assert IsFound(init[p]);
        assert forall q :: p < q < n ==> init[q] == LookupRaises by {
          forall q | p < q < n ensures init[q] == LookupRaises {
            assert steps[q] == init[q];
          }
        }
      }
    } else if IsFound(steps[n]) {
      assert IsFound(steps[n]);
    } else {
      forall p | 0 <= p < |steps| && IsFound(steps[p])
        ensures exists q :: p < q < |steps| && steps[q] != LookupRaises
      {
        assert p < n && steps[n] != LookupRaises;
      }
    }
  }

  /**
   * A lookup that keeps returning `None` without raising makes no progress:
   * however many iterations the browser is given, `attempts` stays where it
   * was and the loop never exits.
   */
  lemma {:induction false} NoneLookupsNeverExit(steps: seq<SearchStep>, run: SearchRun)
    requires forall k :: 0 <= k < |steps| ==> steps[k] == LookupReturnsNone
    requires !LoopExited(run)
    ensures SearchLoop(steps, run).attempts == run.attempts
    ensures SearchLoop(steps, run).iterations == run.iterations + |steps|
    ensures Verdict(SearchLoop(steps, run)) == StillRetrying
    decreases |steps|
  {
    if steps != [] {
      NoneLookupsNeverExit(steps[1..], Iterate(run, steps[0]));
    }
  }

  /** Five exceptions from the lookup itself: the run aborts. */
  lemma FiveRaisingLookupsAbort()
    ensures Verdict(SearchLoop([LookupRaises, LookupRaises, LookupRaises, LookupRaises, LookupRaises], SearchStart)) == Aborted
  {
  }

  /**
   * The field found five times but never typed into: the loop exits on its
   * budget, yet `search_field` is not `None`, so the run does not abort.
   */
  lemma FoundFieldNeverAborts()
    ensures var steps := [FoundInteractionRaises, FoundInteractionRaises, FoundInteractionRaises,
                          FoundInteractionRaises, FoundInteractionRaises];
      Verdict(SearchLoop(steps, SearchStart)) == ContinuesWithoutSearch
  {
  }

  /** A field found once and then four raising lookups: the stale field still averts the abort. */
  lemma StaleFieldAvertsAbort()
    ensures var steps := [FoundInteractionRaises, LookupRaises, LookupRaises, LookupRaises, LookupRaises];
      Verdict(SearchLoop(steps, SearchStart)) == ContinuesWithoutSearch
  {
  }
}
