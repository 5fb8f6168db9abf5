/**
  The end-to-end admission bound: how many requests a Reject rule lets through
  in any interleaving of requests, policy changes and cleanups.
 */
module Admission {
  import opened Prelude
  import opened SlidingWindow
  import opened Policy
  import C = CounterTable

  // ------------------------------------------------------- what overrules a Reject

  predicate Rejects(c: Candidate) {
    Decide(c.rule.action, c.retryAfter).reject
  }

  /** Where a candidate of rule `i` stands; the wait plays no part. */
  function TupleAt(rules: seq<Rule>, i: nat): SortTuple
    requires i < |rules|
  {
    SortTuple(Priority(rules[i].action), SortKey(rules[i].action), i)
  }

  /** With this wait, which its rule can be given, rule `j` does not reject. */
  predicate Lenient(rules: seq<Rule>, j: nat, wait: int)
    requires j < |rules|
  {
    1 <= wait <= rules[j].window && !Decide(rules[j].action, wait).reject
  }

  /** Rule `j` comes before rule `i` and does not reject for every wait it can be given. */
  ghost predicate Overrules(rules: seq<Rule>, j: nat, i: nat)
    requires i < |rules|
  {
    j < |rules| && Precedes(TupleAt(rules, j), TupleAt(rules, i)) && exists wait: int :: Lenient(rules, j, wait)
  }

  ghost predicate Unopposed(rules: seq<Rule>, i: nat)
    requires i < |rules|
  {
    forall j :: 0 <= j < |rules| ==> !Overrules(rules, j, i)
  }

  /** The built-in actions never overrule a Reject. */
  lemma BuiltinsNeverOverrule(rules: seq<Rule>, i: nat)
    requires i < |rules| && rules[i].action.Reject?
    requires forall j :: 0 <= j < |rules| ==> !rules[j].action.Custom?
    ensures Unopposed(rules, i)
  {
  }

  /** What one evaluation of these rules can match. */
  ghost predicate MatchedFrom(rules: seq<Rule>, cs: seq<Candidate>) {
    forall c :: c in cs ==> c.order < |rules| && c.rule == rules[c.order] && 1 <= c.retryAfter <= c.rule.window
  }

  /** A matched Reject rule that nothing overrules makes the selected action reject. */
  lemma UnopposedDecides(rules: seq<Rule>, i: nat, cs: seq<Candidate>, c: Candidate)
    requires i < |rules| && rules[i].action.Reject? && Unopposed(rules, i)
    requires MatchedFrom(rules, cs) && c in cs && c.order == i
    ensures Select(cs).Some? && Rejects(Select(cs).value)
  {
    SelectMember(cs);
    var at :| 0 <= at < |cs| && cs[at] == c;
    var best := Select(cs).value;
    assert !Less(c, best);
    if best.order != i {
      assert Precedes(TupleAt(rules, best.order), TupleAt(rules, i));
      assert !Overrules(rules, best.order, i);
      assert !Lenient(rules, best.order, best.retryAfter);
    }
  }

  // --------------------------------------------------------------- logs of one rule

  /** All hits on a handler are made by these rules. */
  ghost predicate InForce(log: seq<Entry>, handler: string, rules: seq<Rule>) {
    forall i :: 0 <= i < |log| && log[i].Hit? && log[i].event.Hit? && log[i].event.key.handler == handler ==>
      log[i].event.key.index < |rules| && log[i].rule == rules[log[i].event.key.index]
  }

  /** All hits of a request are on one handler. */
  ghost predicate OneHandler(log: seq<Entry>) {
    forall i, j :: 0 <= i < j < |log| && log[i].Hit? && log[j].Hit? && log[i].event.Hit? && log[j].event.Hit?
                   && log[i].request == log[j].request ==>
      log[i].event.key.handler == log[j].event.key.handler
  }

  /** A log of the evaluator with a forward clock, in which the handler's rules never change. */
  ghost predicate Governed(log: seq<Entry>, handler: string, rules: seq<Rule>) {
    ByTheRule(log) && OneHandler(log) && InForce(log, handler, rules) && C.ForwardClock(Events(log))
  }

  lemma GovernedPrefix(log: seq<Entry>, handler: string, rules: seq<Rule>, n: nat)
    requires Governed(log, handler, rules) && n <= |log|
    ensures Governed(log[..n], handler, rules) && Events(log[..n]) == Events(log)[..n]
  {
    assert Events(log[..n]) == Events(log)[..n];
    assert C.ForwardClock(Events(log)[..n]);
  }

  /** Whether the whole log ends with this request being rejected. */
  predicate Rejected(log: seq<Entry>, capacity: pos, request: nat)
    requires ProperLog(log)
  {
    var selected := Select(Matched(log, capacity, request));
    selected.Some? && Rejects(selected.value)
  }

  // --------------------------------------------------- what an evaluation can match

  /** A rule's wait is never longer than its window. */
  lemma LastWaitIsBounded(log: seq<Entry>, capacity: pos)
    requires ByTheRule(log) && C.ForwardClock(Events(log)) && log != [] && log[|log| - 1].Hit?
    requires Matches(LastReport(log, capacity), log[|log| - 1].rule.count)
    ensures 1 <= RetryAfter(LastReport(log, capacity), log[|log| - 1].rule.window) <= log[|log| - 1].rule.window
  {
    var n := |log| - 1;
    var events, e := Events(log), log[n].event;
    assert events[n] == e;
    C.TableInOrder(events[..n], capacity, e.key, e.now);
    C.OneStep(C.Run(events[..n], capacity), e, capacity, e.key);
    RetryAfterIsExact(C.HistoryOf(C.Run(events[..n], capacity), e.key), e.now, e.window, log[n].rule.count);
  }

  /** A hit of the request that stands behind a matched action. */
  ghost predicate Behind(e: Entry, request: nat, c: Candidate) {
    e.Hit? && e.event.Hit? && e.request == request && e.rule == c.rule && e.event.key.index == c.order
  }

  lemma {:induction false} MatchedComeFromHits(log: seq<Entry>, capacity: pos, request: nat)
    requires ByTheRule(log) && C.ForwardClock(Events(log))
    ensures forall c :: c in Matched(log, capacity, request) ==>
              1 <= c.retryAfter <= c.rule.window && exists i :: 0 <= i < |log| && Behind(log[i], request, c)
  {
    if log != [] {
      var n := |log| - 1;
      assert Events(log[..n]) == Events(log)[..n];
      MatchedComeFromHits(log[..n], capacity, request);
      LastMatchComesFromHit(log, capacity, request);
      forall c | c in Matched(log, capacity, request)
        ensures 1 <= c.retryAfter <= c.rule.window && exists i :: 0 <= i < |log| && Behind(log[i], request, c)
      {
        if c in Matched(log[..n], capacity, request) {
          var i :| 0 <= i < n && Behind(log[..n][i], request, c);
          assert Behind(log[i], request, c);
        }
      }
    }
  }

  lemma LastMatchComesFromHit(log: seq<Entry>, capacity: pos, request: nat)
    requires ByTheRule(log) && C.ForwardClock(Events(log)) && log != []
    ensures forall c :: c in Matched(log, capacity, request) && c !in Matched(log[..|log| - 1], capacity, request) ==>
              1 <= c.retryAfter <= c.rule.window && Behind(log[|log| - 1], request, c)
  {
    var h := log[|log| - 1];
    if h.Hit? && Matches(LastReport(log, capacity), h.rule.count) {
      LastWaitIsBounded(log, capacity);
    }
  }

  /** Everything a request on the handler matches comes from its rules. */
  lemma MatchedFromRules(log: seq<Entry>, n: nat, capacity: pos, rules: seq<Rule>)
    requires 0 < n <= |log| && log[n - 1].Hit? && log[n - 1].event.Hit?
    requires Governed(log, log[n - 1].event.key.handler, rules)
    ensures MatchedFrom(rules, Matched(log, capacity, log[n - 1].request))
  {
    var request := log[n - 1].request;
    MatchedComeFromHits(log, capacity, request);
    forall c | c in Matched(log, capacity, request)
      ensures c.order < |rules| && c.rule == rules[c.order] && 1 <= c.retryAfter <= c.rule.window
    {
      var i :| 0 <= i < |log| && Behind(log[i], request, c);
      assert log[i].event.key.handler == log[n - 1].event.key.handler;
    }
  }

  lemma MatchedGrows(log: seq<Entry>, capacity: pos, request: nat, c: Candidate)
    requires log != [] && ProperLog(log) && c in Matched(log[..|log| - 1], capacity, request)
    ensures c in Matched(log, capacity, request)
  {
  }

  /** The action that the last hit of a log contributes. */
  function LastCandidate(log: seq<Entry>, capacity: pos): Candidate
    requires log != [] && log[|log| - 1].Hit? && log[|log| - 1].event.Hit?
  {
    var h := log[|log| - 1];
    Candidate(h.rule, RetryAfter(LastReport(log, capacity), h.rule.window), h.event.key.index)
  }

  lemma LastMatches(log: seq<Entry>, capacity: pos)
    requires log != [] && ProperLog(log) && log[|log| - 1].Hit?
    requires Matches(LastReport(log, capacity), log[|log| - 1].rule.count)
    ensures LastCandidate(log, capacity) in Matched(log, capacity, log[|log| - 1].request)
  {
    var n := |log| - 1;
    assert Matched(log, capacity, log[n].request)
           == Matched(log[..n], capacity, log[n].request) + [LastCandidate(log, capacity)];
  }

  /** A hit that matched stays among the matched actions of its request. */
  lemma {:induction false} MatchedStays(log: seq<Entry>, n: nat, capacity: pos)
    requires 0 < n <= |log| && ProperLog(log) && log[n - 1].Hit?
    requires Matches(LastReport(log[..n], capacity), log[n - 1].rule.count)
    ensures LastCandidate(log[..n], capacity) in Matched(log, capacity, log[n - 1].request)
    decreases |log|
  {
    if n == |log| {
      assert log[..n] == log;
      LastMatches(log, capacity);
    } else {
      var shorter := log[..|log| - 1];
      assert shorter[..n] == log[..n];
      MatchedStays(shorter, n, capacity);
      MatchedGrows(log, capacity, log[n - 1].request, LastCandidate(log[..n], capacity));
    }
  }

  // -------------------------------------------------------------------- the bound

  /** A Reject rule that nothing overrules. */
  ghost predicate Rejecting(rules: seq<Rule>, i: nat) {
    i < |rules| && rules[i].action.Reject? && Unopposed(rules, i)
  }

  /** A matching Reject rule that nothing overrules always decides the request. */
  lemma RejectAlwaysWins(log: seq<Entry>, n: nat, capacity: pos, rules: seq<Rule>)
    requires 0 < n <= |log| && log[n - 1].Hit? && log[n - 1].event.Hit?
    requires Governed(log, log[n - 1].event.key.handler, rules) && Rejecting(rules, log[n - 1].event.key.index)
    requires Matches(LastReport(log[..n], capacity), log[n - 1].rule.count)
    ensures Rejected(log, capacity, log[n - 1].request)
  {
    MatchedStays(log, n, capacity);
    MatchedFromRules(log, n, capacity, rules);
    UnopposedDecides(rules, log[n - 1].event.key.index, Matched(log, capacity, log[n - 1].request),
                     LastCandidate(log[..n], capacity));
  }

  /** Of the first `n` entries, the hits on counter `k` inside `span` whose request is not rejected. */
  ghost function NotRejectedIn(log: seq<Entry>, n: nat, capacity: pos, k: C.CounterKey, span: real -> bool): nat
    requires n <= |log| && ProperLog(log)
  {
    if n == 0 then 0
    else
      var h := log[n - 1];
      NotRejectedIn(log, n - 1, capacity, k, span)
      + if h.Hit? && h.event.key == k && span(h.event.now) && !Rejected(log, capacity, h.request) then 1 else 0
  }

  /** A run that never evicts counter `k` with a live hit in it, nor changes the policy of its handler. */
  ghost predicate Keeping(log: seq<Entry>, capacity: pos, k: C.CounterKey, rules: seq<Rule>)
    requires k.index < |rules|
  {
    && C.Undisturbed(Events(log), k, rules[k.index].window)
    && C.Kept(Events(log), capacity, k, rules[k.index].window)
  }

  lemma KeepingPrefix(log: seq<Entry>, capacity: pos, k: C.CounterKey, rules: seq<Rule>, n: nat)
    requires k.index < |rules| && Keeping(log, capacity, k, rules) && n <= |log|
    ensures Keeping(log[..n], capacity, k, rules)
  {
    assert Events(log[..n]) == Events(log)[..n];
    C.KeptPrefix(Events(log), capacity, k, rules[k.index].window, n);
  }

  /** On its own hits, counter `k` reports what it would report alone. */
  lemma ReportedAlone(log: seq<Entry>, capacity: pos, k: C.CounterKey, rules: seq<Rule>)
    requires log != [] && log[|log| - 1].Hit? && log[|log| - 1].event.Hit? && log[|log| - 1].event.key == k
    requires Governed(log, k.handler, rules) && k.index < |rules| && Keeping(log, capacity, k, rules)
    ensures Matches(LastReport(log, capacity), rules[k.index].count)
            == SlidingWindow.LastMatches(C.LogOf(Events(log), k), rules[k.index].window, rules[k.index].count)
  {
    var rule := rules[k.index];
    assert Events(log)[|log| - 1] == log[|log| - 1].event;
    assert C.Steady(Events(log), k, rule.window, CapOf(rule.count));
    C.CountersAreIndependent(Events(log), capacity, k, rule.window, CapOf(rule.count));
  }

  /** The hit of a request that is not rejected did not match its Reject rule. */
  lemma UnmatchedHit(log: seq<Entry>, n: nat, capacity: pos, k: C.CounterKey, rules: seq<Rule>)
    requires 0 < n <= |log| && log[n - 1].Hit? && log[n - 1].event.Hit? && log[n - 1].event.key == k
    requires Governed(log, k.handler, rules) && Rejecting(rules, k.index) && Keeping(log, capacity, k, rules)
    requires !Rejected(log, capacity, log[n - 1].request)
    ensures !SlidingWindow.LastMatches(C.LogOf(Events(log[..n]), k), rules[k.index].window, rules[k.index].count)
  {
    if Matches(LastReport(log[..n], capacity), log[n - 1].rule.count) {
      RejectAlwaysWins(log, n, capacity, rules);
    }
    GovernedPrefix(log, k.handler, rules, n);
    KeepingPrefix(log, capacity, k, rules, n);
    ReportedAlone(log[..n], capacity, k, rules);
  }

  lemma LogGrows(log: seq<Entry>, n: nat, k: C.CounterKey)
    requires 0 < n <= |log| && ProperLog(log)
    ensures
      var e := log[n - 1].event;
      var before, all := C.LogOf(Events(log[..n - 1]), k), C.LogOf(Events(log[..n]), k);
      if e.Hit? && e.key == k then all == before + [e.now] else all == before
  {
    assert Events(log[..n])[..n - 1] == Events(log[..n - 1]);
  }

  /** Of any first part of the log, everything not rejected was admitted by the counter alone. */
  lemma {:induction false} NotRejectedWereAdmitted(
    log: seq<Entry>, n: nat, capacity: pos, k: C.CounterKey, rules: seq<Rule>, span: real -> bool)
    requires n <= |log| && Governed(log, k.handler, rules) && Rejecting(rules, k.index)
    requires Keeping(log, capacity, k, rules)
    ensures NotRejectedIn(log, n, capacity, k, span)
            <= AdmittedIn(C.LogOf(Events(log[..n]), k), rules[k.index].window, rules[k.index].count, span)
  {
    if n > 0 {
      var rule := rules[k.index];
      var h := log[n - 1];
      NotRejectedWereAdmitted(log, n - 1, capacity, k, rules, span);
      LogGrows(log, n, k);
      if h.Hit? && h.event.key == k {
        AdmittedGrows(C.LogOf(Events(log[..n - 1]), k), h.event.now, rule.window, rule.count, span);
        if !Rejected(log, capacity, h.request) {
          UnmatchedHit(log, n, capacity, k, rules);
        }
      }
    }
  }

  /**
    The end-to-end admission bound: in every interleaving of any requests to any
    handlers, updates of other handlers and cleanups, with a non-decreasing clock
    and the rule's own counter neither updated nor evicted with a live hit in it,
    any span of time narrower than the window of a Reject rule that nothing
    overrules holds at most `count` requests on its counter that are not rejected.
   */
  lemma RejectRuleBound(log: seq<Entry>, capacity: pos, k: C.CounterKey, rules: seq<Rule>, span: real -> bool)
    requires Governed(log, k.handler, rules) && Rejecting(rules, k.index)
    requires Keeping(log, capacity, k, rules) && Narrow(span, rules[k.index].window)
    ensures NotRejectedIn(log, |log|, capacity, k, span) <= rules[k.index].count
  {
    var rule := rules[k.index];
    assert log[..|log|] == log;
    NotRejectedWereAdmitted(log, |log|, capacity, k, rules, span);
    C.LogIsSorted(Events(log), k);
    AdmissionBound(C.LogOf(Events(log), k), rule.window, rule.count, span);
  }

  /**
    Oldest-first eviction makes the bound hold for any number of clients over the
    whole run, as long as the other counters hit within one window are no more
    than nine tenths of the capacity, rounded up, or all but one of a small table.
   */
  lemma RejectRuleBoundByWindow(log: seq<Entry>, capacity: pos, k: C.CounterKey, rules: seq<Rule>, span: real -> bool)
    requires Governed(log, k.handler, rules) && Rejecting(rules, k.index) && C.Legal(Events(log), capacity)
    requires C.Undisturbed(Events(log), k, rules[k.index].window) && Narrow(span, rules[k.index].window)
    requires C.FewOthers(Events(log), k, rules[k.index].window,
                         if capacity >= 10 then capacity - capacity / 10 else capacity - 1)
    ensures NotRejectedIn(log, |log|, capacity, k, span) <= rules[k.index].count
  {
    C.FewOthersKeep(Events(log), capacity, k, rules[k.index].window);
    RejectRuleBound(log, capacity, k, rules, span);
  }

  /** Both half-open windows of the rule's length are such spans. */
  lemma HalfOpenWindowBound(log: seq<Entry>, capacity: pos, k: C.CounterKey, rules: seq<Rule>, start: real)
    requires Governed(log, k.handler, rules) && Rejecting(rules, k.index) && Keeping(log, capacity, k, rules)
    ensures NotRejectedIn(log, |log|, capacity, k, t => start < t <= start + rules[k.index].window as real)
            <= rules[k.index].count
    ensures NotRejectedIn(log, |log|, capacity, k, t => start <= t < start + rules[k.index].window as real)
            <= rules[k.index].count
  {
    RejectRuleBound(log, capacity, k, rules, t => start < t <= start + rules[k.index].window as real);
    RejectRuleBound(log, capacity, k, rules, t => start <= t < start + rules[k.index].window as real);
  }
}
