/**
  What becomes of a request: from the log of its hits to the answer it gets, the
  delay it goes through and the rate its response is sent at.
 */
module Outcomes {
  import opened Prelude
  import opened SlidingWindow
  import opened Shutdown
  import opened Policy
  import opened Admission
  import opened Middleware
  import C = CounterTable

  // ------------------------------------------------- what a request may turn into

  /** How a request came in and, once its rules have been evaluated, what came of that. */
  datatype Record = Record(limit: Option<pos>, rules: Option<Selectable>, told: Option<Told>)

  function Noted(records: seq<Record>, e: Step): seq<Record> {
    match e
    case Arrive(limit, rules) => records + [Record(limit, rules, None)]
    case Judge(i, told) => if i < |records| then records[i := records[i].(told := Some(told))] else records
    case _ => records
  }

  function NotedAll(records: seq<Record>, steps: seq<Step>): seq<Record>
    decreases |steps|
  {
    if steps == [] then records else NotedAll(Noted(records, steps[0]), steps[1..])
  }

  /** On its way into, or in, a response at this rate, or an unlimited one. */
  ghost predicate AtRate(p: Phase, rate: Option<pos>) {
    p == Ready(rate) || (if rate.Some? then p == Sending(rate.value) else p == Forwarding)
  }

  /** The same after a policy delay, at the end of which a shutdown may refuse the request. */
  ghost predicate DelayedAtRate(p: Phase, seconds: real, rate: Option<pos>) {
    || p == Delaying(seconds, rate) || p == Slept(rate) || p == Refusing || p == Cleared(rate)
    || AtRate(p, rate)
  }

  /** Before its rules have been evaluated, or if it has none. */
  ghost predicate TreatedUntold(limit: Option<pos>, rules: Option<Selectable>, p: Phase) {
    || p == Arrived(limit, rules)
    || p == Answering(Blocked) || p == Answering(BackendUnavailable)
    || (p == Answering(ShuttingDown) && (limit.Some? || rules.Some?))
    || (if rules.Some? then p == Deciding(limit, rules.value)
        else if limit.Some? then AtRate(p, limit) else p == Bypassing)
  }

  /** After a matched action was selected. */
  ghost predicate TreatedAs(limit: Option<pos>, c: Candidate, p: Phase) {
    match c.rule.action
    case Reject(status, detail) => p == Answering(Limited(status, detail, c.retryAfter))
    case Delay(seconds) => DelayedAtRate(p, seconds, limit)
    case Throttle(rate) => AtRate(p, Some(rate))
    case Custom(_, _, decide) =>
      var d := decide(c.retryAfter);
      var rate := if d.throttleRate.Some? then d.throttleRate else limit;
      if d.reject then p == Answering(Limited(d.status, d.detail, d.retryAfter))
      else if d.preDelay > 0.0 then DelayedAtRate(p, d.preDelay, rate)
      else AtRate(p, rate)
  }

  /** Everything that a request of this record can be. */
  ghost predicate Treated(r: Record, p: Phase) {
    || p == Done
    || match r.told
       case None => TreatedUntold(r.limit, r.rules, p)
       case Some(Failed) => p == Answering(BackendUnavailable)
       case Some(Selected(None)) => AtRate(p, r.limit)
       case Some(Selected(Some(c))) => TreatedAs(r.limit, c, p)
  }

  ghost predicate AllTreated(records: seq<Record>, s: State) {
    |records| == |s.requests| && forall i :: 0 <= i < |records| ==> Treated(records[i], s.requests[i])
  }

  /** What is recorded of a request stays; a second evaluation never takes place. */
  ghost predicate Extends(before: seq<Record>, after: seq<Record>) {
    |before| <= |after| && forall i :: 0 <= i < |before| ==>
      && after[i].limit == before[i].limit && after[i].rules == before[i].rules
      && (before[i].told.Some? ==> after[i].told == before[i].told)
  }

  lemma OwnStepTreats(r: Record, s: State, e: Step, i: nat)
    requires Enabled(s, e) && Actor(e) == Some(i) && Treated(r, s.requests[i])
    ensures Treated(if e.Judge? then r.(told := Some(e.told)) else r, Next(s, e).requests[i])
    ensures e.Judge? ==> r.told.None?
  {
  }

  lemma StepTreats(records: seq<Record>, s: State, e: Step)
    requires AllTreated(records, s) && Enabled(s, e)
    ensures AllTreated(Noted(records, e), Next(s, e)) && Extends(records, Noted(records, e))
  {
    var after, s' := Noted(records, e), Next(s, e);
    forall i | 0 <= i < |after| ensures Treated(after[i], s'.requests[i]) {
      if i < |records| && Actor(e) == Some(i) {
        OwnStepTreats(records[i], s, e, i);
      }
    }
    if e.Judge? {
      OwnStepTreats(records[e.i], s, e, e.i);
    }
  }

  /** In every run each request is, at any moment, what its record allows. */
  lemma {:induction false} TreatedAsTold(records: seq<Record>, s: State, steps: seq<Step>)
    requires AllTreated(records, s) && Runs(s, steps)
    ensures AllTreated(NotedAll(records, steps), After(s, steps)) && Extends(records, NotedAll(records, steps))
    decreases |steps|
  {
    if steps != [] {
      StepTreats(records, s, steps[0]);
      TreatedAsTold(Noted(records, steps[0]), Next(s, steps[0]), steps[1..]);
    }
  }

  /** The record of a run from the start explains every request of it. */
  lemma EveryRequestIsExplained(steps: seq<Step>)
    requires Runs(START, steps)
    ensures AllTreated(NotedAll([], steps), After(START, steps))
  {
    TreatedAsTold([], START, steps);
  }

  /** A request that has rules does not get past them before they have been evaluated. */
  lemma RulesComeFirst(steps: seq<Step>, i: nat)
    requires Runs(START, steps) && i < |After(START, steps).requests|
    ensures
      var p := After(START, steps).requests[i];
      var r := NotedAll([], steps);
      && i < |r|
      && (r[i].rules.Some? && r[i].told.None? ==>
            !p.Ready? && !p.Sending? && !p.Forwarding? && !p.Bypassing? && !p.Delaying? && !p.Slept? && !p.Cleared?)
  {
    EveryRequestIsExplained(steps);
    assert Treated(NotedAll([], steps)[i], After(START, steps).requests[i]);
  }

  /**
    An evaluation is final: in every continuation the request stays on the course
    that it was told. A refused one never gets to its handler.
   */
  lemma ToldForGood(records: seq<Record>, s: State, i: nat, told: Told, steps: seq<Step>)
    requires AllTreated(records, s) && Enabled(s, Judge(i, told)) && Runs(Next(s, Judge(i, told)), steps)
    ensures
      var end := After(Next(s, Judge(i, told)), steps);
      && i < |end.requests|
      && Treated(Record(records[i].limit, records[i].rules, Some(told)), end.requests[i])
      && (told.Failed? ==> end.requests[i] == Answering(BackendUnavailable) || end.requests[i] == Done)
      && (told.Selected? && told.matched.Some? && told.matched.value.rule.action.Reject? ==>
            var c := told.matched.value;
            var answer := Limited(c.rule.action.status, c.rule.action.detail, c.retryAfter);
            end.requests[i] == Answering(answer) || end.requests[i] == Done)
  {
    var after, s' := Noted(records, Judge(i, told)), Next(s, Judge(i, told));
    StepTreats(records, s, Judge(i, told));
    TreatedAsTold(after, s', steps);
    var last := NotedAll(after, steps)[i];
    assert last == Record(records[i].limit, records[i].rules, Some(told));
    assert Treated(last, After(s', steps).requests[i]);
  }

  // ---------------------------------------------- what it does turn into, undisturbed

  /** What request `i` is after these steps, if they can be taken. */
  ghost function Became(s: State, steps: seq<Step>, i: nat): Option<Phase> {
    if Runs(s, steps) && i < |After(s, steps).requests| then Some(After(s, steps).requests[i]) else None
  }

  /** Right after the evaluation. */
  ghost predicate JustTold(limit: Option<pos>, told: Told, p: Phase) {
    match told
    case Failed => p == Answering(BackendUnavailable)
    case Selected(None) => p == Ready(limit)
    case Selected(Some(c)) => JustSelected(limit, c, p)
  }

  ghost predicate JustSelected(limit: Option<pos>, c: Candidate, p: Phase) {
    match c.rule.action
    case Reject(status, detail) => p == Answering(Limited(status, detail, c.retryAfter))
    case Delay(seconds) => p == Delaying(seconds, limit)
    case Throttle(rate) => p == Ready(Some(rate))
    case Custom(_, _, decide) =>
      var d := decide(c.retryAfter);
      var rate := if d.throttleRate.Some? then d.throttleRate else limit;
      if d.reject then p == Answering(Limited(d.status, d.detail, d.retryAfter))
      else if d.preDelay > 0.0 then p == Delaying(d.preDelay, rate)
      else p == Ready(rate)
  }

  /** While no shutdown has begun, an evaluated request turns into exactly what it was told. */
  lemma EvaluationDecides(s: State, i: nat, limit: Option<pos>, can: Selectable, told: Told)
    requires i < |s.requests| && s.requests[i] == Arrived(limit, Some(can)) && !s.coord.shuttingDown
    requires told.Selected? && told.matched.Some? ==> can(told.matched.value)
    ensures
      var p := Became(s, [Check(i), Judge(i, told)], i);
      p.Some? && JustTold(limit, told, p.value)
  {
    TwoSteps(s, Check(i), Judge(i, told));
  }

  /** A request without rules goes straight on, at the rate of its route. */
  lemma WithoutRulesItGoesOn(s: State, i: nat, limit: Option<pos>)
    requires i < |s.requests| && s.requests[i] == Arrived(limit, None) && (limit.Some? ==> !s.coord.shuttingDown)
    ensures Became(s, [Check(i)], i) == Some(if limit.Some? then Ready(limit) else Bypassing)
  {
    SingleStep(s, Check(i));
  }

  /** Once a shutdown has begun, a managed request that arrives is refused, before its rules are evaluated. */
  lemma LateArrivalIsRefused(s: State, i: nat, limit: Option<pos>, rules: Option<Selectable>)
    requires i < |s.requests| && s.requests[i] == Arrived(limit, rules) && s.coord.shuttingDown
    requires limit.Some? || rules.Some?
    ensures Became(s, [Check(i)], i) == Some(Answering(ShuttingDown))
  {
    SingleStep(s, Check(i));
  }

  /** A blocked address and an unreachable backend get different answers. */
  lemma TurnedAway(s: State, i: nat, blocked: bool)
    requires i < |s.requests| && s.requests[i].Arrived?
    ensures Became(s, [TurnAway(i, blocked)], i) == Some(Answering(if blocked then Blocked else BackendUnavailable))
  {
    SingleStep(s, TurnAway(i, blocked));
  }

  /** A look at the abort flag while nothing aborts leaves the delay as it was. */
  lemma LookingChangesNothing(s: State, i: nat)
    requires i < |s.requests| && s.requests[i].Delaying? && s.coord.mode != Some(Abort)
    ensures Became(s, [LookWhilePausing(i)], i) == Some(s.requests[i])
  {
    SingleStep(s, LookWhilePausing(i));
  }

  /** No shutdown has begun, and nobody has been told of one. */
  ghost predicate Undisturbed(s: State) {
    !s.coord.shuttingDown && forall i :: 0 <= i < |s.requests| ==>
      s.requests[i] != Refusing && s.requests[i] != Answering(ShuttingDown)
  }

  /** Unless a shutdown aborts, no response is broken off. */
  lemma {:induction false} NoAbortNoneBrokenOff(s: State, steps: seq<Step>)
    requires Runs(s, steps) && s.coord.mode != Some(Abort) && BeginShutdown(Abort) !in steps
    ensures forall i :: SeeAbort(i) !in steps
    decreases |steps|
  {
    if steps != [] {
      assert steps[0] in steps && steps == [steps[0]] + steps[1..];
      NoAbortNoneBrokenOff(Next(s, steps[0]), steps[1..]);
    }
  }

  /** Unless a shutdown begins, no request is refused for one. */
  lemma {:induction false} NoShutdownNoneRefused(s: State, steps: seq<Step>)
    requires Runs(s, steps) && Undisturbed(s) && (forall m :: BeginShutdown(m) !in steps)
    ensures Undisturbed(After(s, steps))
    decreases |steps|
  {
    if steps != [] {
      assert steps[0] in steps && steps == [steps[0]] + steps[1..];
      NoShutdownNoneRefused(Next(s, steps[0]), steps[1..]);
    }
  }

  /** A delay that no shutdown disturbs leads to the response, at the rate that was chosen. */
  lemma DelayLeadsOn(s: State, i: nat)
    requires i < |s.requests| && s.requests[i].Delaying? && !s.coord.shuttingDown
    ensures Became(s, [WakeUp(i), SecondCheck(i), LeaveDelay(i)], i) == Some(Ready(s.requests[i].rate))
  {
    var s' := Next(s, WakeUp(i));
    TwoSteps(s', SecondCheck(i), LeaveDelay(i));
    Prepend(s, WakeUp(i), [SecondCheck(i), LeaveDelay(i)]);
    assert [WakeUp(i)] + [SecondCheck(i), LeaveDelay(i)] == [WakeUp(i), SecondCheck(i), LeaveDelay(i)];
  }

  /** A delay during which a shutdown begins ends refused, one during which it aborts is broken off. */
  lemma DelayEndsWithShutdown(s: State, i: nat)
    requires i < |s.requests| && s.requests[i].Delaying? && s.coord.shuttingDown && s.coord.mode.Some?
    ensures s.coord.mode == Some(Abort) ==> Became(s, [WakeUp(i)], i) == Some(Done)
    ensures s.coord.mode == Some(Drain) ==> Became(s, [WakeUp(i), SecondCheck(i)], i) == Some(Refusing)
  {
    SingleStep(s, WakeUp(i));
    if s.coord.mode == Some(Drain) {
      TwoSteps(s, WakeUp(i), SecondCheck(i));
    }
  }

  /** A response is limited exactly if a rate was chosen, and to that rate. */
  lemma ResponseAtItsRate(s: State, i: nat)
    requires i < |s.requests| && s.requests[i].Ready?
    ensures
      var rate := s.requests[i].rate;
      Became(s, [BeginResponse(i)], i) == Some(if rate.Some? then Sending(rate.value) else Forwarding)
  {
    SingleStep(s, BeginResponse(i));
  }

  /** Answers and responses can finish, and whatever is finished, broken off or aborted is over for good. */
  lemma EndIsFinal(s: State, e: Step, steps: seq<Step>)
    requires Enabled(s, e) && (e.Finish? || e.Fault? || e.SeeAbort?) && Runs(Next(s, e), steps)
    ensures e.i < |After(Next(s, e), steps).requests| && After(Next(s, e), steps).requests[e.i] == Done
  {
    DoneStays(Next(s, e), steps, e.i);
  }

  lemma {:induction false} DoneStays(s: State, steps: seq<Step>, i: nat)
    requires Runs(s, steps) && i < |s.requests| && s.requests[i] == Done
    ensures i < |After(s, steps).requests| && After(s, steps).requests[i] == Done
    decreases |steps|
  {
    if steps != [] {
      DoneStays(Next(s, steps[0]), steps[1..], i);
    }
  }

  // --------------------------------------------------------- from logs to outcomes

  /** A matched action of one of these rules, with a wait that the rule can be given. */
  ghost predicate FromRules(rules: seq<Rule>, c: Candidate) {
    c.order < |rules| && c.rule == rules[c.order] && 1 <= c.retryAfter <= c.rule.window
  }

  /** The hit behind a matched action: nobody on its counter passes any sooner, and everybody passes from then on. */
  ghost predicate ExactWait(log: seq<Entry>, capacity: pos, c: Candidate) {
    log != [] && log[|log| - 1].Hit? && log[|log| - 1].event.Hit? &&
    var e := log[|log| - 1].event;
    var h := C.HistoryOf(C.Run(Events(log), capacity), e.key);
    && |h| > c.rule.count
    && WaitSuffices(h, e.now, c.retryAfter, c.rule.window, c.rule.count)
    && (forall n: int | n > 0 && WaitSuffices(h, e.now, n, c.rule.window, c.rule.count) :: c.retryAfter <= n)
  }

  /** Some hit of the request stands behind the matched action, with the wait exact for it. */
  ghost predicate Founded(log: seq<Entry>, capacity: pos, request: nat, c: Candidate) {
    exists n :: 0 < n <= |log| && Behind(log[n - 1], request, c) && ExactWait(log[..n], capacity, c)
  }

  lemma LastWaitIsExact(log: seq<Entry>, capacity: pos)
    requires ByTheRule(log) && C.ForwardClock(Events(log)) && log != [] && log[|log| - 1].Hit?
    requires Matches(LastReport(log, capacity), log[|log| - 1].rule.count)
    ensures ExactWait(log, capacity, LastCandidate(log, capacity))
  {
    var n := |log| - 1;
    var events, e := Events(log), log[n].event;
    assert events[n] == e && events[..n] == Events(log)[..n];
    C.TableInOrder(events[..n], capacity, e.key, e.now);
    C.OneStep(C.Run(events[..n], capacity), e, capacity, e.key);
    RetryAfterIsExact(C.HistoryOf(C.Run(events[..n], capacity), e.key), e.now, e.window, log[n].rule.count);
  }

  lemma {:induction false} MatchedAreFounded(log: seq<Entry>, capacity: pos, request: nat)
    requires ByTheRule(log) && C.ForwardClock(Events(log))
    ensures forall c :: c in Matched(log, capacity, request) ==> Founded(log, capacity, request, c)
  {
    if log != [] {
      var n := |log| - 1;
      assert Events(log[..n]) == Events(log)[..n];
      MatchedAreFounded(log[..n], capacity, request);
      forall c | c in Matched(log, capacity, request) ensures Founded(log, capacity, request, c) {
        if c in Matched(log[..n], capacity, request) {
          FoundedGrows(log, capacity, request, c);
        } else {
          LastWaitIsExact(log, capacity);
          assert log[..n + 1] == log && Behind(log[n + 1 - 1], request, c);
        }
      }
    }
  }

  lemma FoundedGrows(log: seq<Entry>, capacity: pos, request: nat, c: Candidate)
    requires log != [] && Founded(log[..|log| - 1], capacity, request, c)
    ensures Founded(log, capacity, request, c)
  {
    var shorter := log[..|log| - 1];
    var n :| 0 < n <= |shorter| && Behind(shorter[n - 1], request, c) && ExactWait(shorter[..n], capacity, c);
    assert shorter[..n] == log[..n] && Behind(log[n - 1], request, c);
  }

  /**
    From the log to the outcome: take any log of evaluations with a forward clock,
    and a request in it whose handler's rules do not change. If no shutdown has
    begun, the request, evaluated on that log, turns into exactly what the action
    that was selected says, with a wait that is exact for one of its hits.
   */
  lemma LogDecides(
    log: seq<Entry>, n: nat, capacity: pos, rules: seq<Rule>, s: State, i: nat, limit: Option<pos>, can: Selectable)
    requires 0 < n <= |log| && log[n - 1].Hit? && log[n - 1].event.Hit?
    requires Governed(log, log[n - 1].event.key.handler, rules)
    requires i < |s.requests| && s.requests[i] == Arrived(limit, Some(can)) && !s.coord.shuttingDown
    requires forall c :: FromRules(rules, c) ==> can(c)
    ensures
      var matched := Select(Matched(log, capacity, log[n - 1].request));
      var p := Became(s, [Check(i), Judge(i, Selected(matched))], i);
      && p.Some?
      && (matched.None? ==> p.value == Ready(limit))
      && (matched.Some? ==>
            && FromRules(rules, matched.value) && JustSelected(limit, matched.value, p.value)
            && Founded(log, capacity, log[n - 1].request, matched.value))
  {
    var matched := Matched(log, capacity, log[n - 1].request);
    MatchedFromRules(log, n, capacity, rules);
    MatchedAreFounded(log, capacity, log[n - 1].request);
    if matched != [] {
      SelectMember(matched);
      assert FromRules(rules, Select(matched).value);
    }
    EvaluationDecides(s, i, limit, can, Selected(Select(matched)));
  }
}
