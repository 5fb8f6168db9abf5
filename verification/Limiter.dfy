/**
  Runtime configuration: policy updates and removals, the counter cleanup they
  trigger, and what that keeps true of the counter table.
 */
module Limiter {
  import opened Prelude
  import opened SlidingWindow
  import opened Memory
  import opened Policy
  import C = CounterTable
  import K = KeyValue

  /** The windows of all configured rules, as handed to the store. */
  function ActiveRules(policies: Policies): C.ActiveRules {
    map h | h in policies :: Windows(policies[h])
  }

  function Windows(rules: seq<Rule>): seq<Option<pos>> {
    seq(|rules|, i requires 0 <= i < |rules| => Some(rules[i].window))
  }

  /** Every counter names a configured handler and one of its rules. */
  ghost predicate Tidy(policies: Policies, t: C.Table) {
    forall k :: k in t ==> HasRule(policies, k)
  }

  datatype PolicyError = NoName | NoRules | UnknownScope

  class ResponseBandwidthLimiter {
    const storage: InMemoryStorage
    var routePolicies: Policies
    var scopeResolvers: set<string>

    constructor (storage: InMemoryStorage, scopeResolvers: set<string>)
      ensures this.storage == storage && this.scopeResolvers == scopeResolvers && routePolicies == map[]
    {
      this.storage, this.scopeResolvers, routePolicies := storage, scopeResolvers, map[];
    }

    predicate KnownScope(scope: string)
      reads this`scopeResolvers
    {
      scope == "ip" || scope == "default" || scope in scopeResolvers
    }

    function GetRules(endpoint: string): (rules: seq<Rule>)
      reads this`routePolicies
      ensures forall k: C.CounterKey :: k.handler == endpoint ==>
                (HasRule(routePolicies, k) <==> k.index < |rules|)
                && (HasRule(routePolicies, k) ==> rules[k.index] == RuleOf(routePolicies, k))
    {
      if endpoint in routePolicies then routePolicies[endpoint] else []
    }

    method UpdatePolicy(endpoint: string, rules: seq<Rule>, now: real) returns (r: Option<PolicyError>)
      modifies this`routePolicies, storage
      ensures r.Some? ==> unchanged(this) && unchanged(storage)
      ensures r == if endpoint == "" then Some(NoName)
                   else if rules == [] then Some(NoRules)
                   else if exists i :: 0 <= i < |rules| && rules[i].scope !in {"ip", "default"} + old(scopeResolvers)
                   then Some(UnknownScope)
                   else None
      ensures endpoint != "" && rules != [] && (forall i :: 0 <= i < |rules| ==> rules[i].scope in ["ip", "default"])
              ==> r.None?
      ensures r.None? ==>
                && routePolicies == old(routePolicies)[endpoint := rules]
                && storage.requestCounters == AfterChange(old(storage.requestCounters), endpoint, routePolicies, now)
                && storage.View() == K.Apply(old(storage.View()), K.DropApprox(endpoint), storage.maxKeys)
    {
      if endpoint == "" {
        return Some(NoName);
      }
      if rules == [] {
        return Some(NoRules);
      }
      for i := 0 to |rules|
        invariant forall j :: 0 <= j < i ==> KnownScope(rules[j].scope)
      {
        if !KnownScope(rules[i].scope) {
          return Some(UnknownScope);
        }
      }
      routePolicies := routePolicies[endpoint := rules];
      storage.CleanupHandlerCounters(endpoint);
      storage.CleanupOrphanedCounters(ActiveRules(routePolicies), now);
      r := None;
    }

    method RemovePolicy(endpoint: string, now: real)
      modifies this`routePolicies, storage
      ensures routePolicies == old(routePolicies) - {endpoint}
      ensures storage.requestCounters == AfterChange(old(storage.requestCounters), endpoint, routePolicies, now)
      ensures storage.View() == K.Apply(old(storage.View()), K.DropApprox(endpoint), storage.maxKeys)
    {
      routePolicies := routePolicies - {endpoint};
      storage.CleanupHandlerCounters(endpoint);
      storage.CleanupOrphanedCounters(ActiveRules(routePolicies), now);
    }
  }

  /** The counter table after a change of one handler's policy. */
  function AfterChange(t: C.Table, handler: string, policies: Policies, now: real): C.Table {
    C.CleanupOrphaned(C.CleanupHandler(t, handler), ActiveRules(policies), now)
  }

  lemma ActiveWindowOfRule(policies: Policies, k: C.CounterKey)
    ensures C.ActiveWindow(ActiveRules(policies), k)
            == if HasRule(policies, k) then Some(RuleOf(policies, k).window) else None
  {
  }

  /**
    A policy change leaves exactly the counters of the other handlers' configured
    rules that still hold a live hit, each pruned by its own window.
   */
  lemma ChangeTidiesTable(t: C.Table, handler: string, policies: Policies, now: real, k: C.CounterKey)
    ensures
      var t' := AfterChange(t, handler, policies, now);
      && (k in t' <==> && k in t && k.handler != handler && HasRule(policies, k)
                       && Prune(t[k], now - RuleOf(policies, k).window as real) != [])
      && (k in t' ==> t'[k] == Prune(t[k], now - RuleOf(policies, k).window as real) && t'[k] != [])
  {
    ActiveWindowOfRule(policies, k);
  }

  // ---------------------------------------------------------------------- runs

  /** A policy change, or a hit made with the rules then in force. */
  datatype Event =
    | Update(handler: string, rules: seq<Rule>, at: real)
    | Remove(handler: string, at: real)
    | RuleHit(key: C.CounterKey, now: real, victims: set<C.CounterKey>)

  datatype State = State(policies: Policies, table: C.Table)

  predicate Current(s: State, e: Event) {
    e.RuleHit? ==> HasRule(s.policies, e.key)
  }

  function Next(s: State, e: Event, capacity: pos): State
    requires Current(s, e)
  {
    match e
    case Update(h, rules, at) =>
      var policies := s.policies[h := rules];
      State(policies, AfterChange(s.table, h, policies, at))
    case Remove(h, at) =>
      var policies := s.policies - {h};
      State(policies, AfterChange(s.table, h, policies, at))
    case RuleHit(k, now, victims) =>
      var rule := RuleOf(s.policies, k);
      s.(table := C.RecordHit(s.table, k, now, rule.window, CapOf(rule.count), capacity, victims))
  }

  /** Every evaluation of the run used the rules in force; the run starts with an empty table. */
  predicate Runs(start: Policies, events: seq<Event>, capacity: pos)
    decreases |events|, 0
  {
    events == [] ||
    var n := |events| - 1;
    Runs(start, events[..n], capacity) && Current(After(start, events[..n], capacity), events[n])
  }

  function After(start: Policies, events: seq<Event>, capacity: pos): State
    requires Runs(start, events, capacity)
    decreases |events|, 1
  {
    if events == [] then State(start, map[])
    else Next(After(start, events[..|events| - 1], capacity), events[|events| - 1], capacity)
  }

  lemma StepStaysTidy(s: State, e: Event, capacity: pos)
    requires Tidy(s.policies, s.table) && Current(s, e)
    ensures Tidy(Next(s, e, capacity).policies, Next(s, e, capacity).table)
    ensures !e.RuleHit? ==> forall k :: k in Next(s, e, capacity).table ==> k.handler != e.handler
  {
    if !e.RuleHit? {
      var policies := Next(s, e, capacity).policies;
      forall k | k in Next(s, e, capacity).table ensures HasRule(policies, k) && k.handler != e.handler {
        ChangeTidiesTable(s.table, e.handler, policies, e.at, k);
      }
    }
  }

  /**
    While every evaluation uses the rules in force, at all times every counter
    names a configured handler and a rule it has, and right after a change no
    counter of the changed handler is left.
   */
  lemma {:induction false} TableStaysTidy(start: Policies, events: seq<Event>, capacity: pos)
    requires Runs(start, events, capacity)
    ensures Tidy(After(start, events, capacity).policies, After(start, events, capacity).table)
    ensures events != [] && !events[|events| - 1].RuleHit? ==>
              forall k :: k in After(start, events, capacity).table ==> k.handler != events[|events| - 1].handler
  {
    if events != [] {
      var n := |events| - 1;
      TableStaysTidy(start, events[..n], capacity);
      StepStaysTidy(After(start, events[..n], capacity), events[n], capacity);
    }
  }

  // ------------------------------------------------- changes seen from elsewhere

  function TableEventsOf(s: State, e: Event): seq<C.Event>
    requires Current(s, e)
  {
    match e
    case RuleHit(k, now, victims) =>
      [C.Hit(k, now, RuleOf(s.policies, k).window, CapOf(RuleOf(s.policies, k).count), victims)]
    case Update(h, rules, at) => [C.DropHandler(h), C.DropOrphans(ActiveRules(s.policies[h := rules]), at)]
    case Remove(h, at) => [C.DropHandler(h), C.DropOrphans(ActiveRules(s.policies - {h}), at)]
  }

  /** The same run as events of the counter table. */
  function TableEvents(start: Policies, events: seq<Event>, capacity: pos): seq<C.Event>
    requires Runs(start, events, capacity)
  {
    if events == [] then []
    else
      var n := |events| - 1;
      TableEvents(start, events[..n], capacity) + TableEventsOf(After(start, events[..n], capacity), events[n])
  }

  lemma RunTwo(events: seq<C.Event>, e: C.Event, f: C.Event, capacity: pos)
    ensures C.Run(events + [e, f], capacity) == C.Apply(C.Apply(C.Run(events, capacity), e, capacity), f, capacity)
  {
    var first := events + [e];
    assert first + [f] == events + [e, f];
    C.RunAppend(events, e, capacity);
    C.RunAppend(first, f, capacity);
  }

  /** One step changes the table as its table events do. */
  lemma StepOnTable(s: State, e: Event, before: seq<C.Event>, capacity: pos)
    requires Current(s, e) && s.table == C.Run(before, capacity)
    ensures Next(s, e, capacity).table == C.Run(before + TableEventsOf(s, e), capacity)
  {
    var more := TableEventsOf(s, e);
    if e.RuleHit? {
      C.RunAppend(before, more[0], capacity);
    } else {
      RunTwo(before, more[0], more[1], capacity);
    }
  }

  lemma {:induction false} TableOfRun(start: Policies, events: seq<Event>, capacity: pos)
    requires Runs(start, events, capacity)
    ensures After(start, events, capacity).table == C.Run(TableEvents(start, events, capacity), capacity)
  {
    if events != [] {
      var n := |events| - 1;
      TableOfRun(start, events[..n], capacity);
      StepOnTable(After(start, events[..n], capacity), events[n], TableEvents(start, events[..n], capacity), capacity);
    }
  }

  ghost predicate NoChangeOf(events: seq<Event>, handler: string) {
    forall i :: 0 <= i < |events| && !events[i].RuleHit? ==> events[i].handler != handler
  }

  /** Updates of other handlers keep a configured rule in force and never disturb its counter. */
  lemma {:induction false} OthersDoNotDisturb(start: Policies, events: seq<Event>, capacity: pos, k: C.CounterKey)
    requires Runs(start, events, capacity) && NoChangeOf(events, k.handler) && HasRule(start, k)
    ensures HasRule(After(start, events, capacity).policies, k)
            && RuleOf(After(start, events, capacity).policies, k) == RuleOf(start, k)
    ensures C.Undisturbed(TableEvents(start, events, capacity), k, RuleOf(start, k).window)
  {
    if events != [] {
      var n := |events| - 1;
      OthersDoNotDisturb(start, events[..n], capacity, k);
      ActiveWindowOfRule(After(start, events, capacity).policies, k);
    }
  }

  /**
    A hit on a rule whose own handler was not changed is told what it would have
    been told had there been no other counter, no change and no cleanup, as long as
    its counter is not evicted with a live hit in it.
   */
  lemma HitsAreToldAsIfAlone(start: Policies, events: seq<Event>, capacity: pos)
    requires Runs(start, events, capacity) && events != [] && events[|events| - 1].RuleHit?
    requires HasRule(start, events[|events| - 1].key) && NoChangeOf(events, events[|events| - 1].key.handler)
    requires
      var k, all := events[|events| - 1].key, TableEvents(start, events, capacity);
      C.ForwardClock(all) && C.Kept(all, capacity, k, RuleOf(start, k).window)
    ensures
      var e := events[|events| - 1];
      C.HistoryOf(After(start, events, capacity).table, e.key)
      == C.Alone(TableEvents(start, events, capacity), e.key)
  {
    var k, all := events[|events| - 1].key, TableEvents(start, events, capacity);
    LastTableEvent(start, events, capacity);
    OthersDoNotDisturb(start, events, capacity, k);
    TableOfRun(start, events, capacity);
    C.KeptHitIsExact(all, capacity, k, RuleOf(start, k).window);
  }

  /** The last hit as an event of the table, by the rule that was in force from the start. */
  lemma LastTableEvent(start: Policies, events: seq<Event>, capacity: pos)
    requires Runs(start, events, capacity) && events != [] && events[|events| - 1].RuleHit?
    requires HasRule(start, events[|events| - 1].key) && NoChangeOf(events, events[|events| - 1].key.handler)
    ensures
      var e, all := events[|events| - 1], TableEvents(start, events, capacity);
      var rule := RuleOf(start, e.key);
      all != [] && all[|all| - 1] == C.Hit(e.key, e.now, rule.window, CapOf(rule.count), e.victims)
  {
    var n := |events| - 1;
    assert NoChangeOf(events[..n], events[n].key.handler);
    OthersDoNotDisturb(start, events[..n], capacity, events[n].key);
  }

  /**
    Policy updates and removals of other handlers are invisible: a hit on a rule
    whose own handler was not changed is told what it is told in the same run
    without any of those changes, provided neither run evicts its counter with a
    live hit in it.
   */
  lemma ChangesAreInvisibleElsewhere(start: Policies, events: seq<Event>, capacity: pos)
    requires Runs(start, events, capacity) && events != [] && events[|events| - 1].RuleHit?
    requires HasRule(start, events[|events| - 1].key) && NoChangeOf(events, events[|events| - 1].key.handler)
    ensures
      var e, all := events[|events| - 1], TableEvents(start, events, capacity);
      var rule := RuleOf(start, e.key);
      C.ForwardClock(all) && KeptWithAndWithout(all, capacity, e.key, rule.window) ==>
        Report(C.HistoryOf(After(start, events, capacity).table, e.key), e.now, CapOf(rule.count))
        == Report(C.HistoryOf(C.Run(C.WithoutCleanups(all), capacity), e.key), e.now, CapOf(rule.count))
  {
    var k, all := events[|events| - 1].key, TableEvents(start, events, capacity);
    if C.ForwardClock(all) && KeptWithAndWithout(all, capacity, k, RuleOf(start, k).window) {
      LastTableEvent(start, events, capacity);
      OthersDoNotDisturb(start, events, capacity, k);
      TableOfRun(start, events, capacity);
      C.PolicyChangesAreIsolated(all, capacity);
    }
  }

  /** The counter is kept in the run, and in the run without its cleanups. */
  ghost predicate KeptWithAndWithout(all: seq<C.Event>, capacity: pos, k: C.CounterKey, window: pos) {
    C.Kept(all, capacity, k, window) && C.Kept(C.WithoutCleanups(all), capacity, k, window)
  }
}
