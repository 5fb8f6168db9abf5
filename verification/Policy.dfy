/**
  Rules, actions and the policy evaluator: every rule of a handler records a
  hit, and the least matching action is selected.
 */
module Policy {
  import opened Prelude
  import opened SlidingWindow
  import opened Memory
  import C = CounterTable

  // ---------------------------------------------------------- rules and actions

  datatype Decision = Decision(
    reject: bool, status: int, detail: string, retryAfter: int, preDelay: real, throttleRate: Option<pos>)

  /** An error status; the source refuses a Reject with any other. */
  type Status = n: int | 400 <= n <= 599 witness 429

  /** A delay in seconds; the source refuses any that is not positive. */
  type Duration = s: real | s > 0.0 witness 1.0

  /** The built-in actions, and anything else that implements the action protocol. */
  datatype Action =
    | Throttle(bytesPerSec: pos)
    | Reject(status: Status, detail: string)
    | Delay(seconds: Duration)
    | Custom(rank: int, weight: real, decide: int -> Decision)

  datatype Rule = Rule(count: pos, window: pos, action: Action, scope: string)

  function Priority(a: Action): int {
    match a
    case Reject(_, _) => 0
    case Delay(_) => 1
    case Throttle(_) => 2
    case Custom(rank, _, _) => rank
  }

  function SortKey(a: Action): real {
    match a
    case Reject(_, _) => 0.0
    case Delay(seconds) => -(seconds as real)
    case Throttle(rate) => rate as real
    case Custom(_, weight, _) => weight
  }

  function Decide(a: Action, retryAfter: int): Decision {
    match a
    case Reject(status, detail) => Decision(true, status, detail, retryAfter, 0.0, None)
    case Delay(seconds) => Decision(false, 429, "Rate limit exceeded", retryAfter, seconds, None)
    case Throttle(rate) => Decision(false, 429, "Rate limit exceeded", retryAfter, 0.0, Some(rate))
    case Custom(_, _, decide) => decide(retryAfter)
  }

  datatype Candidate = Candidate(rule: Rule, retryAfter: int, order: nat)

  datatype SortTuple = SortTuple(priority: int, sortKey: real, order: nat)

  function SortTupleOf(c: Candidate): SortTuple {
    SortTuple(Priority(c.rule.action), SortKey(c.rule.action), c.order)
  }

  /** Python's order on tuples. */
  predicate Precedes(a: SortTuple, b: SortTuple) {
    || a.priority < b.priority
    || (a.priority == b.priority && a.sortKey < b.sortKey)
    || (a.priority == b.priority && a.sortKey == b.sortKey && a.order < b.order)
  }

  predicate Less(a: Candidate, b: Candidate) {
    Precedes(SortTupleOf(a), SortTupleOf(b))
  }

  /** `min` over the matched actions: the first least one. */
  function Select(cs: seq<Candidate>): Option<Candidate> {
    if cs == [] then None
    else
      var best := Select(cs[..|cs| - 1]);
      var last := cs[|cs| - 1];
      if best.Some? && !Less(last, best.value) then best else Some(last)
  }

  ghost predicate DistinctOrders(cs: seq<Candidate>) {
    forall i, j :: 0 <= i < j < |cs| ==> cs[i].order != cs[j].order
  }

  /** The selected action is the one candidate that precedes all others. */
  lemma {:induction false} SelectIsUniqueLeast(cs: seq<Candidate>)
    requires DistinctOrders(cs)
    ensures Select(cs).None? <==> cs == []
    ensures Select(cs).Some? ==>
              && Select(cs).value in cs
              && (forall i :: 0 <= i < |cs| && cs[i] != Select(cs).value ==> Less(Select(cs).value, cs[i]))
  {
    if cs != [] {
      SelectIsUniqueLeast(cs[..|cs| - 1]);
      assert forall i :: 0 <= i < |cs| - 1 ==> cs[i] == cs[..|cs| - 1][i];
    }
  }

  /** The documented precedence of the built-in actions, stated without priorities or sort keys. */
  predicate Outranks(a: Candidate, b: Candidate) {
    match (a.rule.action, b.rule.action)
    case (Reject(_, _), Reject(_, _)) => a.order < b.order
    case (Reject(_, _), Delay(_)) => true
    case (Reject(_, _), Throttle(_)) => true
    case (Delay(s), Delay(t)) => s > t || (s == t && a.order < b.order)
    case (Delay(_), Throttle(_)) => true
    case (Throttle(q), Throttle(r)) => q < r || (q == r && a.order < b.order)
    case _ => false
  }

  lemma BuiltinPrecedence(cs: seq<Candidate>)
    requires DistinctOrders(cs) && Select(cs).Some?
    requires forall i :: 0 <= i < |cs| ==> !cs[i].rule.action.Custom?
    ensures forall i :: 0 <= i < |cs| && cs[i] != Select(cs).value ==>
              Outranks(Select(cs).value, cs[i]) && !Outranks(cs[i], Select(cs).value)
  {
    SelectIsUniqueLeast(cs);
  }

  /** Where a custom action stands among the built-in ones: a Reject counts as rank 0, a Delay as 1, a Throttle as 2. */
  predicate CustomOutranks(a: Candidate, b: Candidate) {
    match (a.rule.action, b.rule.action)
    case (Custom(q, v, _), Custom(r, w, _)) =>
      q < r || (q == r && (v < w || (v == w && a.order < b.order)))
    case (Custom(r, w, _), Reject(_, _)) => r < 0 || (r == 0 && (w < 0.0 || (w == 0.0 && a.order < b.order)))
    case (Reject(_, _), Custom(r, w, _)) => r > 0 || (r == 0 && (w > 0.0 || (w == 0.0 && a.order < b.order)))
    case (Custom(r, w, _), Delay(s)) => r < 1 || (r == 1 && (w < 0.0 - s || (w == 0.0 - s && a.order < b.order)))
    case (Delay(s), Custom(r, w, _)) => r > 1 || (r == 1 && (w > 0.0 - s || (w == 0.0 - s && a.order < b.order)))
    case (Custom(r, w, _), Throttle(q)) =>
      r < 2 || (r == 2 && (w < q as real || (w == q as real && a.order < b.order)))
    case (Throttle(q), Custom(r, w, _)) =>
      r > 2 || (r == 2 && (w > q as real || (w == q as real && a.order < b.order)))
    case _ => Outranks(a, b)
  }

  lemma CustomPrecedence(cs: seq<Candidate>)
    requires DistinctOrders(cs) && Select(cs).Some?
    ensures forall i :: 0 <= i < |cs| && cs[i] != Select(cs).value ==>
              CustomOutranks(Select(cs).value, cs[i]) && !CustomOutranks(cs[i], Select(cs).value)
  {
    SelectIsUniqueLeast(cs);
  }

  lemma {:induction false} SelectMember(cs: seq<Candidate>)
    requires cs != []
    ensures Select(cs).Some? && Select(cs).value in cs
    ensures forall i :: 0 <= i < |cs| ==> !Less(cs[i], Select(cs).value)
  {
    var n := |cs| - 1;
    if n > 0 {
      SelectMember(cs[..n]);
      var best := Select(cs[..n]).value;
      assert best in cs;
      forall i | 0 <= i < |cs| ensures !Less(cs[i], Select(cs).value) {
        assert i < n ==> !Less(cs[..n][i], best);
      }
    }
  }

  // ----------------------------------------------------------------- evaluation

  /** The configured rules of every handler. */
  type Policies = map<string, seq<Rule>>

  predicate HasRule(policies: Policies, k: C.CounterKey) {
    k.handler in policies && k.index < |policies[k.handler]|
  }

  function RuleOf(policies: Policies, k: C.CounterKey): Rule
    requires HasRule(policies, k)
  {
    policies[k.handler][k.index]
  }

  /** One hit of one request, on behalf of a rule, or a cleanup of the store. */
  datatype Entry =
    | Hit(request: nat, rule: Rule, event: C.Event)
    | Cleanup(event: C.Event)

  /** The table events of a log. */
  function Events(log: seq<Entry>): seq<C.Event> {
    seq(|log|, i requires 0 <= i < |log| => log[i].event)
  }

  predicate Proper(e: Entry) {
    e.Hit? <==> e.event.Hit?
  }

  predicate ProperLog(log: seq<Entry>) {
    forall i :: 0 <= i < |log| ==> Proper(log[i])
  }

  /** Each hit uses the window and the cap of its rule. */
  ghost predicate ByTheRule(log: seq<Entry>) {
    && ProperLog(log)
    && (forall i :: 0 <= i < |log| && log[i].Hit? ==>
          log[i].event.window == log[i].rule.window && log[i].event.cap == CapOf(log[i].rule.count))
  }

  /** What the last hit of a log is told. */
  function LastReport(log: seq<Entry>, capacity: pos): HitResult
    requires log != [] && log[|log| - 1].event.Hit?
  {
    var e := log[|log| - 1].event;
    Report(C.HistoryOf(C.Run(Events(log), capacity), e.key), e.now, e.cap)
  }

  /** The actions matched so far by one request, in rule order. */
  function Matched(log: seq<Entry>, capacity: pos, request: nat): seq<Candidate>
    requires ProperLog(log)
  {
    if log == [] then []
    else
      var before, h := Matched(log[..|log| - 1], capacity, request), log[|log| - 1];
      if h.Hit? && h.request == request && Matches(LastReport(log, capacity), h.rule.count) then
        before + [Candidate(h.rule, RetryAfter(LastReport(log, capacity), h.rule.window), h.event.key.index)]
      else before
  }

  /** The hits of one evaluation: rule after rule, each on the counter its scope selects. */
  ghost predicate OneHitPerRule(
    hits: seq<Entry>, scopeIdentifiers: map<string, string>, handler: string, rules: seq<Rule>, clock: seq<real>,
    request: nat)
    requires |clock| == |rules|
  {
    && |hits| <= |rules|
    && (forall i :: 0 <= i < |hits| ==>
          && rules[i].scope in scopeIdentifiers
          && hits[i].Hit? && hits[i].request == request && hits[i].rule == rules[i]
          && hits[i].event.Hit? && hits[i].event.now == clock[i]
          && hits[i].event.key == C.CounterKey(scopeIdentifiers[rules[i].scope], handler, i))
  }

  lemma OneHitMore(
    hits: seq<Entry>, hit: Entry, scopeIdentifiers: map<string, string>, handler: string, rules: seq<Rule>,
    clock: seq<real>, request: nat)
    requires |clock| == |rules| && OneHitPerRule(hits, scopeIdentifiers, handler, rules, clock, request)
             && |hits| < |rules|
    requires
      var i := |hits|;
      && rules[i].scope in scopeIdentifiers
      && hit.Hit? && hit.request == request && hit.rule == rules[i] && hit.event.Hit? && hit.event.now == clock[i]
      && hit.event.key == C.CounterKey(scopeIdentifiers[rules[i].scope], handler, i)
    ensures OneHitPerRule(hits + [hit], scopeIdentifiers, handler, rules, clock, request)
  {
  }

  datatype Evaluation =
    | MissingScope(scope: string)
    | Decided(matched: Option<Candidate>)

  class PolicyEvaluator {
    const storage: InMemoryStorage

    constructor (storage: InMemoryStorage)
      ensures this.storage == storage
    {
      this.storage := storage;
    }

    /** The store holds the outcome of the logged hits. */
    ghost predicate Follows(log: seq<Entry>)
      reads storage`requestCounters
    {
      && ByTheRule(log) && C.Legal(Events(log), storage.maxCounters)
      && storage.requestCounters == C.Run(Events(log), storage.maxCounters)
    }

    /** One rule's hit, and the action it contributes when the rule matches. */
    method HitRule(
      requestKey: string, handler: string, index: nat, rule: Rule, now: real, request: nat, ghost log: seq<Entry>)
      returns (candidate: Option<Candidate>, ghost hit: Entry)
      requires Follows(log)
      modifies storage`requestCounters
      ensures hit.Hit? && hit.request == request && hit.rule == rule
      ensures hit.event.Hit? && hit.event.now == now && hit.event.key == C.CounterKey(requestKey, handler, index)
      ensures Follows(log + [hit])
      ensures Matched(log + [hit], storage.maxCounters, request)
              == Matched(log, storage.maxCounters, request) + if candidate.Some? then [candidate.value] else []
    {
      var hitResult, victims := storage.RecordHit(requestKey, handler, index, rule.window, CapOf(rule.count), now);
      hit := Hit(request, rule,
          C.Hit(C.CounterKey(requestKey, handler, index), now, rule.window, CapOf(rule.count), victims));
      HitExtends(log, hit, storage.maxCounters);
      assert hitResult == LastReport(log + [hit], storage.maxCounters);
      candidate := None;
      if hitResult.hitCount > rule.count {
        var retryAfter := RetryAfterSeconds(
          if hitResult.retryAfter.Some? then hitResult.retryAfter else hitResult.oldest,
          hitResult.current, rule.window);
        candidate := Some(Candidate(rule, retryAfter, index));
      }
    }

    /**
      Records one hit per rule and selects the least matching action. `past` is
      the log of all hits so far; `clock` holds the reading of each hit.
     */
    method Evaluate(
      scopeIdentifiers: map<string, string>, handler: string, rules: seq<Rule>, clock: seq<real>,
      request: nat, ghost past: seq<Entry>)
      returns (r: Evaluation, ghost hits: seq<Entry>)
      requires |clock| == |rules|
      requires Follows(past) && Unseen(past, request)
      modifies storage`requestCounters
      ensures Follows(past + hits)
      ensures OneHitPerRule(hits, scopeIdentifiers, handler, rules, clock, request)
      ensures r.MissingScope? ==>
                |hits| < |rules| && rules[|hits|].scope == r.scope && r.scope !in scopeIdentifiers
      ensures r.Decided? ==>
                && |hits| == |rules|
                && r.matched == Select(Matched(past + hits, storage.maxCounters, request))
    {
      var matchedActions: seq<Candidate> := [];
      hits := [];
      ghost var log := past;
      NothingMatchedYet(past, storage.maxCounters, request);
      assert log == past + hits;
      for index := 0 to |rules|
        invariant |hits| == index && OneHitPerRule(hits, scopeIdentifiers, handler, rules, clock, request)
        invariant log == past + hits && Follows(log)
        invariant matchedActions == Matched(log, storage.maxCounters, request)
      {
        var rule := rules[index];
        if rule.scope !in scopeIdentifiers {
          return MissingScope(rule.scope), hits;
        }
        var requestKey := scopeIdentifiers[rule.scope];
        var candidate, hit := HitRule(requestKey, handler, index, rule, clock[index], request, log);
        OneHitMore(hits, hit, scopeIdentifiers, handler, rules, clock, request);
        log, hits := log + [hit], hits + [hit];
        if candidate.Some? {
          matchedActions := matchedActions + [candidate.value];
        }
      }
      r := Decided(Select(matchedActions));
    }
  }

  /** The request has made no hit yet. */
  ghost predicate Unseen(log: seq<Entry>, request: nat) {
    forall i :: 0 <= i < |log| && log[i].Hit? ==> log[i].request != request
  }

  lemma {:induction false} NothingMatchedYet(log: seq<Entry>, capacity: pos, request: nat)
    requires ProperLog(log) && Unseen(log, request)
    ensures Matched(log, capacity, request) == []
  {
    if log != [] {
      NothingMatchedYet(log[..|log| - 1], capacity, request);
    }
  }

  lemma EventsAppend(before: seq<Entry>, e: Entry)
    ensures Events(before + [e]) == Events(before) + [e.event]
  {
  }

  /** What one more hit does to a log and to the actions its request has matched. */
  lemma HitExtends(before: seq<Entry>, hit: Entry, capacity: pos)
    requires hit.Hit? && hit.event.Hit? && ByTheRule(before) && C.Legal(Events(before), capacity)
    requires hit.event.window == hit.rule.window && hit.event.cap == CapOf(hit.rule.count)
    requires hit.event.key !in C.Run(Events(before), capacity) ==>
               C.LegalVictims(C.Run(Events(before), capacity), capacity, hit.event.victims)
    ensures ByTheRule(before + [hit]) && C.Legal(Events(before + [hit]), capacity)
    ensures C.Run(Events(before + [hit]), capacity) == C.Apply(C.Run(Events(before), capacity), hit.event, capacity)
    ensures
      var r := LastReport(before + [hit], capacity);
      Matched(before + [hit], capacity, hit.request) == Matched(before, capacity, hit.request)
      + if Matches(r, hit.rule.count)
        then [Candidate(hit.rule, RetryAfter(r, hit.rule.window), hit.event.key.index)] else []
  {
    EventsAppend(before, hit);
    C.RunAppend(Events(before), hit.event, capacity);
    assert (Events(before) + [hit.event])[..|before|] == Events(before);
    assert (before + [hit])[..|before|] == before;
  }
}
