/**
  Exactly when a matching Reject rule is sure to reject: the sufficient half
  holds for every log of the evaluator, and for the other half a log is built in
  which the Reject rule matches and the request is let through.
 */
module Overruling {
  import opened Prelude
  import opened SlidingWindow
  import opened Policy
  import opened Admission
  import C = CounterTable

  // ------------------------------------------------------------ logs of evaluations

  /** How many hits a request has made. */
  function HitsOf(log: seq<Entry>, request: nat): nat {
    if log == [] then 0
    else
      var e := log[|log| - 1];
      HitsOf(log[..|log| - 1], request) + if e.Hit? && e.request == request then 1 else 0
  }

  /** Every request goes through the rules from the first on, one hit each. */
  ghost predicate InOrder(log: seq<Entry>) {
    log == [] ||
    var n := |log| - 1;
    && InOrder(log[..n])
    && (log[n].Hit? && log[n].event.Hit? ==> log[n].event.key.index == HitsOf(log[..n], log[n].request))
  }

  /** A request has one identifier per scope. */
  ghost predicate OneIdentifier(log: seq<Entry>) {
    forall i, j :: 0 <= i < j < |log| && log[i].Hit? && log[j].Hit? && log[i].event.Hit? && log[j].event.Hit?
                   && log[i].request == log[j].request && log[i].rule.scope == log[j].rule.scope ==>
      log[i].event.key.requestKey == log[j].event.key.requestKey
  }

  /** A log that interleaved evaluations could have written, with the handler's rules unchanged. */
  ghost predicate Evaluated(log: seq<Entry>, handler: string, rules: seq<Rule>, capacity: pos) {
    Governed(log, handler, rules) && InOrder(log) && OneIdentifier(log) && C.Legal(Events(log), capacity)
  }

  /** The request has been through all rules of the handler. */
  ghost predicate Finished(log: seq<Entry>, request: nat, handler: string, rules: seq<Rule>) {
    && HitsOf(log, request) == |rules|
    && (forall i :: 0 <= i < |log| && log[i].Hit? && log[i].event.Hit? && log[i].request == request ==>
          log[i].event.key.handler == handler)
  }

  predicate RuleMatched(cs: seq<Candidate>, i: nat) {
    exists n :: 0 <= n < |cs| && cs[n].order == i
  }

  /** Every request that rule `i` matches is rejected. */
  ghost predicate RejectStands(handler: string, rules: seq<Rule>, i: nat, capacity: pos) {
    forall log, request |
      Evaluated(log, handler, rules, capacity) && Finished(log, request, handler, rules)
      && RuleMatched(Matched(log, capacity, request), i) ::
      Rejected(log, capacity, request)
  }

  lemma UnopposedRejects(log: seq<Entry>, request: nat, handler: string, rules: seq<Rule>, i: nat, capacity: pos)
    requires Rejecting(rules, i) && Governed(log, handler, rules) && Finished(log, request, handler, rules)
    requires RuleMatched(Matched(log, capacity, request), i)
    ensures Rejected(log, capacity, request)
  {
    var cs := Matched(log, capacity, request);
    var n :| 0 <= n < |cs| && cs[n].order == i;
    MatchedComeFromHits(log, capacity, request);
    assert cs[n] in cs;
    var at :| 0 <= at < |log| && Behind(log[at], request, cs[n]);
    MatchedFromRules(log, at + 1, capacity, rules);
    UnopposedDecides(rules, i, cs, cs[n]);
  }

  lemma UnopposedStands(handler: string, rules: seq<Rule>, i: nat, capacity: pos)
    requires Rejecting(rules, i)
    ensures RejectStands(handler, rules, i, capacity)
  {
    forall log, request |
      Evaluated(log, handler, rules, capacity) && Finished(log, request, handler, rules)
      && RuleMatched(Matched(log, capacity, request), i)
      ensures Rejected(log, capacity, request)
    {
      UnopposedRejects(log, request, handler, rules, i, capacity);
    }
  }

  // ----------------------------------------------------------- a log that hides it

  /** Rule `j` overrules the Reject rule `i` when it is given this wait. */
  datatype Plot = Plot(handler: string, rules: seq<Rule>, i: nat, j: nat, wait: int, capacity: pos)

  ghost predicate Feasible(p: Plot) {
    && p.i < |p.rules| && p.j < |p.rules| && p.rules[p.i].action.Reject?
    && Precedes(TupleAt(p.rules, p.j), TupleAt(p.rules, p.i)) && Lenient(p.rules, p.j, p.wait)
  }

  /** Enough requests to fill the counters of both rules; the next request is the one that slips through. */
  function Extras(p: Plot): nat
    requires p.i < |p.rules| && p.j < |p.rules|
  {
    p.rules[p.i].count + p.rules[p.j].count + 1
  }

  function KeyOf(p: Plot, r: nat): C.CounterKey {
    C.CounterKey("", p.handler, r)
  }

  function HitBy(p: Plot, request: nat, r: nat, now: real, victims: set<C.CounterKey>): Entry
    requires r < |p.rules|
  {
    Hit(request, p.rules[r], C.Hit(KeyOf(p, r), now, p.rules[r].window, CapOf(p.rules[r].count), victims))
  }

  /** All hits are made for one identifier on the handler, and none on a rule from `r` on. */
  ghost predicate Onstage(p: Plot, log: seq<Entry>, r: nat) {
    forall n :: 0 <= n < |log| ==>
      && log[n].Hit? && log[n].event.Hit? && log[n].event.key == KeyOf(p, log[n].event.key.index)
      && log[n].event.key.index < r
  }

  /** The next request to hit rule `r` is `q`; those before it have. */
  ghost predicate Queued(p: Plot, log: seq<Entry>, r: nat, q: nat)
    requires p.i < |p.rules| && p.j < |p.rules|
  {
    forall x: nat :: HitsOf(log, x) == if x < q then r + 1 else if x <= Extras(p) then r else 0
  }

  function HistoryAt(log: seq<Entry>, capacity: pos, k: C.CounterKey): seq<real> {
    C.HistoryOf(C.Run(Events(log), capacity), k)
  }

  lemma HitsOfAppend(log: seq<Entry>, e: Entry, request: nat)
    ensures HitsOf(log + [e], request) == HitsOf(log, request) + if e.Hit? && e.request == request then 1 else 0
  {
    assert (log + [e])[..|log|] == log;
  }

  /** The victims of an eviction can always be chosen. */
  lemma VictimsFor(log: seq<Entry>, capacity: pos) returns (victims: set<C.CounterKey>)
    ensures C.LegalVictims(C.Run(Events(log), capacity), capacity, victims)
  {
    victims := C.SomeVictims(C.Run(Events(log), capacity), capacity);
  }

  lemma TurnIsGoverned(p: Plot, log: seq<Entry>, e: Entry, r: nat)
    requires r < |p.rules| && Governed(log, p.handler, p.rules) && Onstage(p, log, r + 1)
    requires e.Hit? && e.event.Hit? && e == HitBy(p, e.request, r, e.event.now, e.event.victims)
    requires C.NotAfter(Events(log), e.event.now)
    ensures Governed(log + [e], p.handler, p.rules) && C.NotAfter(Events(log + [e]), e.event.now)
  {
    var all := log + [e];
    EventsAppend(log, e);
    assert Onstage(p, all, r + 1);
    assert C.ForwardClock(Events(log) + [e.event]);
  }

  lemma TurnIsInOrder(p: Plot, log: seq<Entry>, e: Entry, r: nat)
    requires InOrder(log) && OneIdentifier(log) && Onstage(p, log, r + 1)
    requires e.Hit? && e.event.Hit? && e.event.key == KeyOf(p, r) && HitsOf(log, e.request) == r
    ensures InOrder(log + [e]) && OneIdentifier(log + [e]) && Onstage(p, log + [e], r + 1)
  {
    assert (log + [e])[..|log|] == log;
    assert Onstage(p, log + [e], r + 1);
  }

  /** One more hit by a request whose turn it is. */
  lemma TakeTurn(p: Plot, log: seq<Entry>, e: Entry, r: nat)
    requires r < |p.rules| && Evaluated(log, p.handler, p.rules, p.capacity) && Onstage(p, log, r + 1)
    requires e.Hit? && e.event.Hit? && e == HitBy(p, e.request, r, e.event.now, e.event.victims)
    requires HitsOf(log, e.request) == r && C.NotAfter(Events(log), e.event.now)
    requires C.LegalVictims(C.Run(Events(log), p.capacity), p.capacity, e.event.victims)
    ensures Evaluated(log + [e], p.handler, p.rules, p.capacity) && Onstage(p, log + [e], r + 1)
    ensures C.NotAfter(Events(log + [e]), e.event.now)
  {
    TurnIsGoverned(p, log, e, r);
    TurnIsInOrder(p, log, e, r);
    HitExtends(log, e, p.capacity);
  }

  /** What the hit does to its counter, and what it is told. */
  lemma TurnRecords(p: Plot, log: seq<Entry>, e: Entry)
    requires e.Hit? && e.event.Hit?
    ensures HistoryAt(log + [e], p.capacity, e.event.key)
            == Recorded(HistoryAt(log, p.capacity, e.event.key), e.event.now, e.event.window, e.event.cap)
    ensures LastReport(log + [e], p.capacity)
            == Report(HistoryAt(log + [e], p.capacity, e.event.key), e.event.now, e.event.cap)
  {
    EventsAppend(log, e);
    C.RunAppend(Events(log), e.event, p.capacity);
    C.OneStep(C.Run(Events(log), p.capacity), e.event, p.capacity, e.event.key);
  }

  lemma OthersMatchNothing(log: seq<Entry>, e: Entry, capacity: pos, request: nat)
    requires ProperLog(log) && e.Hit? && e.event.Hit? && e.request != request
    ensures ProperLog(log + [e]) && Matched(log + [e], capacity, request) == Matched(log, capacity, request)
  {
    assert (log + [e])[..|log|] == log;
  }

  lemma OwnHitMatches(log: seq<Entry>, e: Entry, capacity: pos)
    requires ProperLog(log) && e.Hit? && e.event.Hit?
    ensures ProperLog(log + [e])
    ensures Matched(log + [e], capacity, e.request)
            == Matched(log, capacity, e.request)
               + if Matches(LastReport(log + [e], capacity), e.rule.count)
                 then [LastCandidate(log + [e], capacity)] else []
  {
    assert (log + [e])[..|log|] == log;
  }

  // -------------------------------------------------------------------- one rule

  function AtMost(n: nat, cap: pos): nat {
    if n < cap then n else cap
  }

  lemma RepeatsRecorded(now: real, n: nat, window: pos, cap: pos)
    ensures Recorded(Repeat(now, AtMost(n, cap)), now, window, Some(cap)) == Repeat(now, AtMost(n + 1, cap))
  {
    assert Prune(Repeat(now, AtMost(n, cap)), now - window as real) == Repeat(now, AtMost(n, cap));
    if n < cap {
      assert Repeat(now, n) + [now] == Repeat(now, n + 1);
    }
  }

  /** `q` of the extra requests have hit rule `r`, all at the same moment. */
  ghost predicate Warm(p: Plot, log: seq<Entry>, now: real, r: nat, q: nat)
    requires p.i < |p.rules| && p.j < |p.rules| && r < |p.rules|
  {
    && Evaluated(log, p.handler, p.rules, p.capacity) && Onstage(p, log, r + 1) && C.NotAfter(Events(log), now)
    && Queued(p, log, r, q)
    && HistoryAt(log, p.capacity, KeyOf(p, r)) == Repeat(now, AtMost(q, p.rules[r].count + 1))
  }

  lemma {:induction false} WarmUp(p: Plot, start: seq<Entry>, now: real, r: nat, q: nat) returns (log: seq<Entry>)
    requires Feasible(p) && r < |p.rules| && q <= Extras(p) && Warm(p, start, now, r, 0)
    ensures Warm(p, log, now, r, q)
    ensures Matched(log, p.capacity, Extras(p)) == Matched(start, p.capacity, Extras(p))
  {
    log := start;
    if q > 0 {
      var before := WarmUp(p, start, now, r, q - 1);
      log := NextExtra(p, before, now, r, q - 1);
    }
  }

  lemma NextExtra(p: Plot, before: seq<Entry>, now: real, r: nat, q: nat) returns (log: seq<Entry>)
    requires Feasible(p) && r < |p.rules| && q < Extras(p) && Warm(p, before, now, r, q)
    ensures Warm(p, log, now, r, q + 1)
    ensures Matched(log, p.capacity, Extras(p)) == Matched(before, p.capacity, Extras(p))
  {
    var victims := VictimsFor(before, p.capacity);
    var e := HitBy(p, q, r, now, victims);
    log := before + [e];
    TakeTurn(p, before, e, r);
    TurnRecords(p, before, e);
    RepeatsRecorded(now, q, p.rules[r].window, p.rules[r].count + 1);
    OthersMatchNothing(before, e, p.capacity, Extras(p));
    forall x: nat ensures HitsOf(log, x) == if x < q + 1 then r + 1 else if x <= Extras(p) then r else 0 {
      HitsOfAppend(before, e, x);
    }
  }

  /** How long after the extra requests the last one hits rule `r`. */
  function Lag(p: Plot, r: nat): real
    requires r < |p.rules| && p.j < |p.rules|
  {
    if r == p.i then 0.0
    else if r == p.j then (p.rules[r].window - p.wait) as real
    else p.rules[r].window as real
  }

  /** What the last request finds at rule `r`. */
  lemma LastFinds(p: Plot, now: real, r: nat)
    requires Feasible(p) && r < |p.rules|
    ensures
      var rule := p.rules[r];
      var at := now + Lag(p, r);
      var h := Recorded(Repeat(now, AtMost(Extras(p), rule.count + 1)), at, rule.window, CapOf(rule.count));
      var told := Report(h, at, CapOf(rule.count));
      && (Matches(told, rule.count) <==> r == p.i || r == p.j)
      && (r == p.j ==> RetryAfter(told, rule.window) == p.wait)
  {
    var rule := p.rules[r];
    var at := now + Lag(p, r);
    var cap := rule.count + 1;
    var before := Repeat(now, AtMost(Extras(p), cap));
    if r == p.i || r == p.j {
      assert p.i != p.j;
      assert before == Repeat(now, cap) && Prune(before, at - rule.window as real) == before;
      assert before[1] == now;
      if r == p.j {
        assert Ceil(p.wait as real) == p.wait;
        assert rule.window as real - (at - now) == p.wait as real;
      }
    } else {
      RepeatsExpire(now, AtMost(Extras(p), cap), at - rule.window as real);
    }
  }

  lemma {:induction false} RepeatsExpire(now: real, n: nat, threshold: real)
    requires now <= threshold
    ensures Prune(Repeat(now, n), threshold) == []
  {
    if n > 0 {
      assert Repeat(now, n)[1..] == Repeat(now, n - 1);
      RepeatsExpire(now, n - 1, threshold);
    }
  }

  // ------------------------------------------------------------------ rule by rule

  /** What the last request has matched on the first `r` rules. */
  ghost predicate Lured(p: Plot, cs: seq<Candidate>, r: nat)
    requires p.i < |p.rules| && p.j < |p.rules|
  {
    && (forall n :: 0 <= n < |cs| ==> (cs[n].order == p.i && cs[n].rule == p.rules[p.i]) || cs[n] == Hiding(p))
    && (p.i < r ==> RuleMatched(cs, p.i))
    && (p.j < r ==> Hiding(p) in cs)
  }

  function Hiding(p: Plot): Candidate
    requires p.j < |p.rules|
  {
    Candidate(p.rules[p.j], p.wait, p.j)
  }

  /** All requests have been through the first `r` rules. */
  ghost predicate Through(p: Plot, log: seq<Entry>, now: real, r: nat)
    requires p.i < |p.rules| && p.j < |p.rules|
  {
    && Evaluated(log, p.handler, p.rules, p.capacity) && Onstage(p, log, r) && C.NotAfter(Events(log), now)
    && Queued(p, log, r, 0)
    && Lured(p, Matched(log, p.capacity, Extras(p)), r)
  }

  lemma Untouched(p: Plot, log: seq<Entry>, r: nat)
    requires Onstage(p, log, r)
    ensures HistoryAt(log, p.capacity, KeyOf(p, r)) == []
  {
    C.TableNamesOnlyHitKeys(Events(log), p.capacity);
    assert forall n :: 0 <= n < |Events(log)| ==> Events(log)[n] == log[n].event;
  }

  lemma {:induction false} Play(p: Plot, r: nat) returns (log: seq<Entry>, now: real)
    requires Feasible(p) && r <= |p.rules|
    ensures Through(p, log, now, r)
  {
    if r == 0 {
      log, now := [], 0.0;
    } else {
      var before, at := Play(p, r - 1);
      log, now := OneRule(p, before, at, r - 1);
    }
  }

  /** All requests hit rule `r`: the extra ones together, the last one after its lag. */
  lemma OneRule(p: Plot, before: seq<Entry>, at: real, r: nat) returns (log: seq<Entry>, now: real)
    requires Feasible(p) && r < |p.rules| && Through(p, before, at, r)
    ensures Through(p, log, now, r + 1)
  {
    Untouched(p, before, r);
    assert Repeat(at, 0) == [];
    var warm := WarmUp(p, before, at, r, Extras(p));
    now := at + Lag(p, r);
    var victims := VictimsFor(warm, p.capacity);
    var e := HitBy(p, Extras(p), r, now, victims);
    log := warm + [e];
    LastTurn(p, warm, at, r, e);
  }

  lemma LastTurn(p: Plot, warm: seq<Entry>, at: real, r: nat, e: Entry)
    requires Feasible(p) && r < |p.rules| && Warm(p, warm, at, r, Extras(p))
    requires Lured(p, Matched(warm, p.capacity, Extras(p)), r)
    requires e.Hit? && e.event.Hit? && e == HitBy(p, Extras(p), r, at + Lag(p, r), e.event.victims)
    requires C.LegalVictims(C.Run(Events(warm), p.capacity), p.capacity, e.event.victims)
    ensures Through(p, warm + [e], at + Lag(p, r), r + 1)
  {
    TakeTurn(p, warm, e, r);
    LastLure(p, warm, at, r, e);
    forall x: nat ensures HitsOf(warm + [e], x) == if x <= Extras(p) then r + 1 else 0 {
      HitsOfAppend(warm, e, x);
    }
  }

  /** The last request matches rules `i` and `j`, and no other. */
  lemma LastMatchedWhen(p: Plot, warm: seq<Entry>, at: real, r: nat, e: Entry)
    requires Feasible(p) && r < |p.rules| && ProperLog(warm)
    requires HistoryAt(warm, p.capacity, KeyOf(p, r)) == Repeat(at, AtMost(Extras(p), p.rules[r].count + 1))
    requires e.Hit? && e.event.Hit? && e == HitBy(p, Extras(p), r, at + Lag(p, r), e.event.victims)
    ensures ProperLog(warm + [e])
    ensures
      var cs, cs' := Matched(warm, p.capacity, Extras(p)), Matched(warm + [e], p.capacity, Extras(p));
      if r == p.i || r == p.j then cs' == cs + [LastCandidate(warm + [e], p.capacity)] else cs' == cs
    ensures r == p.j ==> LastCandidate(warm + [e], p.capacity) == Hiding(p)
  {
    TurnRecords(p, warm, e);
    LastFinds(p, at, r);
    OwnHitMatches(warm, e, p.capacity);
  }

  lemma LuredMore(p: Plot, cs: seq<Candidate>, c: Candidate, r: nat)
    requires Feasible(p) && r < |p.rules| && Lured(p, cs, r) && (r == p.i || r == p.j)
    requires c.order == r && c.rule == p.rules[r] && (r == p.j ==> c == Hiding(p))
    ensures Lured(p, cs + [c], r + 1)
  {
    var cs' := cs + [c];
    assert cs'[|cs|] == c;
    if p.i < r {
      var n :| 0 <= n < |cs| && cs[n].order == p.i;
      assert cs'[n].order == p.i;
    }
  }

  lemma LastLure(p: Plot, warm: seq<Entry>, at: real, r: nat, e: Entry)
    requires Feasible(p) && r < |p.rules| && Warm(p, warm, at, r, Extras(p))
    requires Lured(p, Matched(warm, p.capacity, Extras(p)), r)
    requires e.Hit? && e.event.Hit? && e == HitBy(p, Extras(p), r, at + Lag(p, r), e.event.victims)
    ensures ProperLog(warm + [e]) && Lured(p, Matched(warm + [e], p.capacity, Extras(p)), r + 1)
  {
    LastMatchedWhen(p, warm, at, r, e);
    if r == p.i || r == p.j {
      LuredMore(p, Matched(warm, p.capacity, Extras(p)), LastCandidate(warm + [e], p.capacity), r);
    }
  }

  /** The hiding action is the least of what the last request matched. */
  lemma HidingIsSelected(p: Plot, cs: seq<Candidate>)
    requires Feasible(p) && Lured(p, cs, |p.rules|)
    ensures Select(cs) == Some(Hiding(p))
  {
    SelectMember(cs);
    var n :| 0 <= n < |cs| && cs[n] == Hiding(p);
    assert !Less(Hiding(p), Select(cs).value);
  }

  lemma OverruledIsHidden(p: Plot)
    requires Feasible(p)
    ensures !RejectStands(p.handler, p.rules, p.i, p.capacity)
  {
    var log, now := Play(p, |p.rules|);
    HidingIsSelected(p, Matched(log, p.capacity, Extras(p)));
    assert HitsOf(log, Extras(p)) == |p.rules|;
    assert Finished(log, Extras(p), p.handler, p.rules);
    assert RuleMatched(Matched(log, p.capacity, Extras(p)), p.i);
  }

  /**
    Every request that a Reject rule matches is rejected, in every log of
    evaluations, exactly when no other rule of its handler both comes before it
    and lets the request pass for some wait that its window allows.
   */
  lemma RejectStandsIffUnopposed(handler: string, rules: seq<Rule>, i: nat, capacity: pos)
    requires i < |rules| && rules[i].action.Reject?
    ensures RejectStands(handler, rules, i, capacity) <==> Unopposed(rules, i)
  {
    if Unopposed(rules, i) {
      UnopposedStands(handler, rules, i, capacity);
    } else {
      var j :| 0 <= j < |rules| && Overrules(rules, j, i);
      var wait: int :| Lenient(rules, j, wait);
      OverruledIsHidden(Plot(handler, rules, i, j, wait, capacity));
    }
  }
}
