/**
  When the rate bound survives the capacity of the counter table: exactly when
  few enough counters are in use, over the whole run or at any one time.
 */
module Eviction {
  import opened Prelude
  import opened SlidingWindow
  import opened CounterTable

  /** Window and count of the rule behind a counter. */
  datatype Limit = Limit(window: pos, count: pos)
  type Plan = CounterKey -> Limit

  /** The hits on `k` inside `span` that the table did not report as exceeding the count. */
  ghost function AdmittedOn(events: seq<Event>, capacity: pos, k: CounterKey, count: pos, span: real -> bool): nat {
    if events == [] then 0
    else
      var n := |events| - 1;
      var e := events[n];
      AdmittedOn(events[..n], capacity, k, count, span)
      + if e.Hit? && e.key == k && span(e.now) && |HistoryOf(Run(events, capacity), k)| <= count then 1 else 0
  }

  // ----------------------------------------------------------- a kept counter

  /** A run with hits, updates and cleanups of any counters that obeys rule `limit` on `k`. */
  ghost predicate Obeys(events: seq<Event>, k: CounterKey, limit: Limit) {
    && ForwardClock(events) && Undisturbed(events, k, limit.window)
    && Steady(events, k, limit.window, CapOf(limit.count))
  }

  lemma {:induction false} AdmittedAlone(
    events: seq<Event>, capacity: pos, k: CounterKey, limit: Limit, span: real -> bool)
    requires Obeys(events, k, limit) && Kept(events, capacity, k, limit.window)
    ensures AdmittedOn(events, capacity, k, limit.count, span)
            == AdmittedIn(LogOf(events, k), limit.window, limit.count, span)
  {
    if events != [] {
      var n := |events| - 1;
      var log := LogOf(events[..n], k);
      AdmittedAlone(events[..n], capacity, k, limit, span);
      if events[n].Hit? && events[n].key == k {
        CountersAreIndependent(events, capacity, k, limit.window, CapOf(limit.count));
        AdmittedGrows(log, events[n].now, limit.window, limit.count, span);
      } else {
        assert log + [] == log;
      }
    }
  }

  /**
    The rate bound of one counter: in any run that does not evict it while it
    holds a live hit, a span narrower than its window admits at most `count`
    hits, whatever happens to all other counters.
   */
  lemma KeptCounterIsBounded(events: seq<Event>, capacity: pos, k: CounterKey, limit: Limit, span: real -> bool)
    requires Obeys(events, k, limit) && Kept(events, capacity, k, limit.window) && Narrow(span, limit.window)
    ensures AdmittedOn(events, capacity, k, limit.count, span) <= limit.count
  {
    AdmittedAlone(events, capacity, k, limit, span);
    LogIsSorted(events, k);
    AdmissionBound(LogOf(events, k), limit.window, limit.count, span);
  }

  // -------------------------------------------------------- two kinds of traffic

  /** A run of hits on the given counters, each by its own rule, as the source could perform it. */
  ghost predicate Possible(events: seq<Event>, keys: set<CounterKey>, plan: Plan, capacity: pos) {
    && HitsOnly(events) && ForwardClock(events) && Legal(events, capacity)
    && (forall i :: 0 <= i < |events| ==>
          && events[i].key in keys
          && events[i].window == plan(events[i].key).window
          && events[i].cap == CapOf(plan(events[i].key).count))
  }

  /** In every possible run every counter keeps its rule's promise. */
  ghost predicate AlwaysBounded(keys: set<CounterKey>, plan: Plan, capacity: pos) {
    forall events, k, span: real -> bool |
      Possible(events, keys, plan, capacity) && k in keys && Narrow(span, plan(k).window) ::
      AdmittedOn(events, capacity, k, plan(k).count, span) <= plan(k).count
  }

  /** A run over any counters that never hits more than `m` others within a window of `k`. */
  ghost predicate Nearby(events: seq<Event>, k: CounterKey, limit: Limit, capacity: pos, m: nat) {
    Obeys(events, k, limit) && Legal(events, capacity) && FewOthers(events, k, limit.window, m)
  }

  ghost predicate BoundedNearby(k: CounterKey, limit: Limit, capacity: pos, m: nat) {
    forall events, span: real -> bool |
      Nearby(events, k, limit, capacity, m) && Narrow(span, limit.window) ::
      AdmittedOn(events, capacity, k, limit.count, span) <= limit.count
  }

  lemma FittingCountersAreBounded(keys: set<CounterKey>, plan: Plan, capacity: pos)
    requires |keys| <= capacity
    ensures AlwaysBounded(keys, plan, capacity)
  {
    forall events, k, span: real -> bool |
      Possible(events, keys, plan, capacity) && k in keys && Narrow(span, plan(k).window)
      ensures AdmittedOn(events, capacity, k, plan(k).count, span) <= plan(k).count
    {
      SubsetSize(KeysHit(events), keys);
      RoomForAllKeeps(events, capacity, k, plan(k).window);
      KeptCounterIsBounded(events, capacity, k, plan(k), span);
    }
  }

  lemma {:induction false} FewerOthers(events: seq<Event>, k: CounterKey, window: pos, m: nat, more: nat)
    requires FewOthers(events, k, window, m) && m <= more
    ensures FewOthers(events, k, window, more)
  {
    if events != [] {
      FewerOthers(events[..|events| - 1], k, window, m, more);
    }
  }

  lemma FewOthersSuffice(
    events: seq<Event>, k: CounterKey, limit: Limit, capacity: pos, m: nat, span: real -> bool)
    requires m <= capacity - TrimBy(capacity) && Nearby(events, k, limit, capacity, m) && Narrow(span, limit.window)
    ensures AdmittedOn(events, capacity, k, limit.count, span) <= limit.count
  {
    FewerOthers(events, k, limit.window, m, capacity - TrimBy(capacity));
    FewOthersKeep(events, capacity, k, limit.window);
    KeptCounterIsBounded(events, capacity, k, limit, span);
  }

  lemma FewOthersAreBounded(k: CounterKey, limit: Limit, capacity: pos, m: nat)
    requires m <= capacity - TrimBy(capacity)
    ensures BoundedNearby(k, limit, capacity, m)
  {
    forall events, span: real -> bool | Nearby(events, k, limit, capacity, m) && Narrow(span, limit.window)
      ensures AdmittedOn(events, capacity, k, limit.count, span) <= limit.count
    {
      FewOthersSuffice(events, k, limit, capacity, m, span);
    }
  }

  // ------------------------------------------------------- a run that breaks it

  /** A counter, the stale ones that the trim takes with it, and enough recent ones to make it the oldest live one. */
  datatype Crowd = Crowd(victim: CounterKey, stale: seq<CounterKey>, recent: seq<CounterKey>, plan: Plan, capacity: pos)

  ghost predicate Crowded(c: Crowd) {
    && |c.stale| == TrimBy(c.capacity) - 1 && |c.recent| == c.capacity - TrimBy(c.capacity) + 1
    && c.victim !in c.stale && c.victim !in c.recent
    && Distinct(c.stale) && Distinct(c.recent)
    && (forall k :: k in c.stale ==> k !in c.recent)
  }

  /** When the victim comes: a window after the stale ones. */
  function Noon(c: Crowd): real {
    c.plan(c.victim).window as real
  }

  function HitBy(c: Crowd, k: CounterKey, now: real, victims: set<CounterKey>): Event {
    Hit(k, now, c.plan(k).window, CapOf(c.plan(k).count), victims)
  }

  /** The first `n` entries of a list, as a set. */
  function FirstOf(s: seq<CounterKey>, n: nat): set<CounterKey>
    requires n <= |s|
  {
    if n == 0 then {} else FirstOf(s, n - 1) + {s[n - 1]}
  }

  function AllOf(s: seq<CounterKey>): set<CounterKey> {
    FirstOf(s, |s|)
  }

  lemma {:induction false} FirstOfMembers(s: seq<CounterKey>, n: nat)
    requires n <= |s|
    ensures forall k :: k in FirstOf(s, n) ==> k in s
    ensures forall i :: 0 <= i < n ==> s[i] in FirstOf(s, n)
    ensures |FirstOf(s, n)| <= n
  {
    if n > 0 {
      FirstOfMembers(s, n - 1);
    }
  }

  lemma {:induction false} FirstOfSize(s: seq<CounterKey>, n: nat)
    requires n <= |s| && Distinct(s)
    ensures |FirstOf(s, n)| == n
    ensures forall j :: n <= j < |s| ==> s[j] !in FirstOf(s, n)
  {
    if n > 0 {
      FirstOfSize(s, n - 1);
    }
  }

  /** Stale ones are hit at time zero, the victim and recent ones no earlier than noon. */
  ghost predicate Cast(c: Crowd, events: seq<Event>) {
    forall i :: 0 <= i < |events| ==> Plays(c, events[i])
  }

  ghost predicate Plays(c: Crowd, e: Event) {
    e.Hit? && if e.key in c.stale then e.now == 0.0 else (e.key == c.victim || e.key in c.recent) && e.now >= Noon(c)
  }

  lemma {:induction false} OthersInWindow(c: Crowd, events: seq<Event>, moment: real)
    requires Cast(c, events)
    ensures moment >= 0.0 ==> KeysHitAfter(events, moment) - {c.victim} <= AllOf(c.recent)
    ensures NotAfter(events, 0.0) ==> KeysHitAfter(events, moment) <= AllOf(c.stale)
  {
    if events != [] {
      var n := |events| - 1;
      OthersInWindow(c, events[..n], moment);
      FirstOfMembers(c.recent, |c.recent|);
      FirstOfMembers(c.stale, |c.stale|);
      assert Plays(c, events[n]);
    }
  }

  lemma OthersAreFew(c: Crowd, events: seq<Event>, moment: real)
    requires Crowded(c) && Cast(c, events) && (moment >= 0.0 || NotAfter(events, 0.0))
    ensures |KeysHitAfter(events, moment) - {c.victim}| <= |c.recent|
  {
    OthersInWindow(c, events, moment);
    FirstOfMembers(c.recent, |c.recent|);
    FirstOfMembers(c.stale, |c.stale|);
    SubsetSize(KeysHitAfter(events, moment) - {c.victim}, if moment >= 0.0 then AllOf(c.recent) else AllOf(c.stale));
  }

  /** The last event is the latest; it comes at time zero or after noon. */
  lemma LastIsLatest(c: Crowd, events: seq<Event>)
    requires Cast(c, events) && ForwardClock(events) && events != []
    ensures
      var e := events[|events| - 1];
      e.Hit? && NotAfter(events, e.now) && (e.now == 0.0 || e.now >= Noon(c))
  {
    assert Plays(c, events[|events| - 1]);
  }

  lemma LastHasFewOthers(c: Crowd, events: seq<Event>)
    requires Crowded(c) && Cast(c, events) && ForwardClock(events) && events != []
    ensures
      var e := events[|events| - 1];
      |KeysHitAfter(events, e.now - c.plan(c.victim).window as real) - {c.victim}| <= |c.recent|
  {
    var e := events[|events| - 1];
    LastIsLatest(c, events);
    OthersAreFew(c, events, e.now - c.plan(c.victim).window as real);
  }

  /** In such a run no window of the victim sees more others than the recent ones. */
  lemma {:induction false} CastHasFewOthers(c: Crowd, events: seq<Event>)
    requires Crowded(c) && Cast(c, events) && ForwardClock(events)
    ensures FewOthers(events, c.victim, c.plan(c.victim).window, |c.recent|)
  {
    if events != [] {
      CastHasFewOthers(c, events[..|events| - 1]);
      LastHasFewOthers(c, events);
    }
  }

  /** A possible run of the crowd that ends no later than `now`, the table it leaves and the victim's admitted hits. */
  ghost predicate Staged(
    c: Crowd, keys: set<CounterKey>, span: real -> bool, events: seq<Event>, now: real, t: Table, admitted: nat)
  {
    && Possible(events, keys, c.plan, c.capacity) && NotAfter(events, now)
    && Cast(c, events)
    && Run(events, c.capacity) == t
    && AdmittedOn(events, c.capacity, c.victim, c.plan(c.victim).count, span) == admitted
  }

  lemma PossibleMore(events: seq<Event>, e: Event, keys: set<CounterKey>, plan: Plan, capacity: pos)
    requires Possible(events, keys, plan, capacity) && e.Hit? && e.key in keys && NotAfter(events, e.now)
    requires e.window == plan(e.key).window && e.cap == CapOf(plan(e.key).count)
    requires e.key in Run(events, capacity) || LegalVictims(Run(events, capacity), capacity, e.victims)
    ensures Possible(events + [e], keys, plan, capacity) && NotAfter(events + [e], e.now)
  {
    assert (events + [e])[..|events|] == events;
  }

  lemma AdmitsMore(events: seq<Event>, e: Event, capacity: pos, k: CounterKey, count: pos, span: real -> bool)
    requires e.Hit?
    ensures
      var admits := e.key == k && span(e.now) && |HistoryOf(Apply(Run(events, capacity), e, capacity), k)| <= count;
      AdmittedOn(events + [e], capacity, k, count, span)
      == AdmittedOn(events, capacity, k, count, span) + if admits then 1 else 0
  {
    RunAppend(events, e, capacity);
    assert (events + [e])[..|events|] == events;
  }

  /** One more hit on a staged run. */
  lemma HitNext(
    c: Crowd, keys: set<CounterKey>, span: real -> bool, events: seq<Event>, t: Table, admitted: nat, e: Event)
    requires Crowded(c) && e.Hit? && Staged(c, keys, span, events, e.now, t, admitted)
    requires e == HitBy(c, e.key, e.now, e.victims) && Plays(c, e) && e.key in keys
    requires e.key in t || LegalVictims(t, c.capacity, e.victims)
    ensures
      var t' := Apply(t, e, c.capacity);
      var admits := e.key == c.victim && span(e.now) && |HistoryOf(t', c.victim)| <= c.plan(c.victim).count;
      Staged(c, keys, span, events + [e], e.now, t', if admits then admitted + 1 else admitted)
  {
    PossibleMore(events, e, keys, c.plan, c.capacity);
    CastMore(c, events, e);
    TableNext(c, span, events, t, admitted, e);
  }

  lemma TableNext(c: Crowd, span: real -> bool, events: seq<Event>, t: Table, admitted: nat, e: Event)
    requires e.Hit? && Run(events, c.capacity) == t
    requires AdmittedOn(events, c.capacity, c.victim, c.plan(c.victim).count, span) == admitted
    ensures
      var t' := Apply(t, e, c.capacity);
      var admits := e.key == c.victim && span(e.now) && |HistoryOf(t', c.victim)| <= c.plan(c.victim).count;
      && Run(events + [e], c.capacity) == t'
      && AdmittedOn(events + [e], c.capacity, c.victim, c.plan(c.victim).count, span)
         == if admits then admitted + 1 else admitted
  {
    AdmitsMore(events, e, c.capacity, c.victim, c.plan(c.victim).count, span);
    RunAppend(events, e, c.capacity);
  }

  lemma CastMore(c: Crowd, events: seq<Event>, e: Event)
    requires Cast(c, events) && Plays(c, e)
    ensures Cast(c, events + [e])
  {
  }

  /** Time may pass before the next hit. */
  lemma StagedLater(
    c: Crowd, keys: set<CounterKey>, span: real -> bool, events: seq<Event>, now: real, later: real, t: Table,
    admitted: nat)
    requires Staged(c, keys, span, events, now, t, admitted) && now <= later
    ensures Staged(c, keys, span, events, later, t, admitted)
  {
  }

  lemma FirstEntry(now: real, limit: Limit)
    ensures Recorded([], now, limit.window, CapOf(limit.count)) == [now]
  {
  }

  /** A newcomer to a table with room gets a history of its own. */
  lemma Newcomer(c: Crowd, t: Table, k: CounterKey, now: real)
    requires k !in t && |t| < c.capacity
    ensures LegalVictims(t, c.capacity, {})
    ensures Apply(t, HitBy(c, k, now, {}), c.capacity) == t[k := [now]]
  {
    FirstEntry(now, c.plan(k));
    assert MadeRoom(t, k, c.capacity, {}) == t && HistoryOf(t, k) == [];
  }

  // --------------------------------------------------------------- the stale ones

  function StaleTable(c: Crowd, n: nat): Table
    requires n <= |c.stale|
  {
    if n == 0 then map[] else StaleTable(c, n - 1)[c.stale[n - 1] := [0.0]]
  }

  lemma {:induction false} StaleTableHolds(c: Crowd, n: nat)
    requires n <= |c.stale|
    ensures StaleTable(c, n).Keys == FirstOf(c.stale, n)
    ensures forall k :: k in StaleTable(c, n) ==> StaleTable(c, n)[k] == [0.0]
  {
    if n > 0 {
      StaleTableHolds(c, n - 1);
    }
  }

  lemma StaleTableSize(c: Crowd, n: nat)
    requires Crowded(c) && n <= |c.stale|
    ensures |StaleTable(c, n)| == n
    ensures n < |c.stale| ==> c.stale[n] !in StaleTable(c, n)
  {
    StaleTableHolds(c, n);
    FirstOfSize(c.stale, n);
    assert |StaleTable(c, n)| == |StaleTable(c, n).Keys|;
  }

  ghost predicate Admits(c: Crowd, keys: set<CounterKey>) {
    c.victim in keys && (forall k :: k in c.stale || k in c.recent ==> k in keys)
  }

  lemma {:induction false} Prologue(c: Crowd, keys: set<CounterKey>, span: real -> bool, n: nat)
    returns (events: seq<Event>)
    requires Crowded(c) && Admits(c, keys) && n <= |c.stale|
    ensures Staged(c, keys, span, events, 0.0, StaleTable(c, n), 0)
  {
    events := [];
    if n > 0 {
      var before := Prologue(c, keys, span, n - 1);
      events := StaleJoins(c, keys, span, before, n - 1);
    }
  }

  lemma StaleJoins(c: Crowd, keys: set<CounterKey>, span: real -> bool, before: seq<Event>, n: nat)
    returns (events: seq<Event>)
    requires Crowded(c) && Admits(c, keys) && n < |c.stale|
    requires Staged(c, keys, span, before, 0.0, StaleTable(c, n), 0)
    ensures Staged(c, keys, span, events, 0.0, StaleTable(c, n + 1), 0)
  {
    var t, e := StaleTable(c, n), HitBy(c, c.stale[n], 0.0, {});
    StaleTableSize(c, n);
    Newcomer(c, t, c.stale[n], 0.0);
    HitNext(c, keys, span, before, t, 0, e);
    events := before + [e];
  }

  // ------------------------------------------------------- the victim fills its window

  lemma RepeatsGrow(now: real, n: nat, window: pos, cap: pos)
    requires n < cap
    ensures Recorded(Repeat(now, n), now, window, Some(cap)) == Repeat(now, n + 1)
  {
    assert Prune(Repeat(now, n), now - window as real) == Repeat(now, n);
  }

  /** The table after the victim's first `n` hits. */
  function Filling(c: Crowd, n: nat): Table {
    if n == 0 then StaleTable(c, |c.stale|) else StaleTable(c, |c.stale|)[c.victim := Repeat(Noon(c), n)]
  }

  lemma VictimIsNew(c: Crowd)
    requires Crowded(c)
    ensures c.victim !in StaleTable(c, |c.stale|) && |StaleTable(c, |c.stale|)| == TrimBy(c.capacity) - 1
  {
    StaleTableHolds(c, |c.stale|);
    StaleTableSize(c, |c.stale|);
    FirstOfMembers(c.stale, |c.stale|);
  }

  lemma FillMore(c: Crowd, n: nat)
    requires Crowded(c) && n < c.plan(c.victim).count
    ensures c.victim in Filling(c, n) || LegalVictims(Filling(c, n), c.capacity, {})
    ensures Apply(Filling(c, n), HitBy(c, c.victim, Noon(c), {}), c.capacity) == Filling(c, n + 1)
  {
    VictimIsNew(c);
    if n == 0 {
      Newcomer(c, Filling(c, 0), c.victim, Noon(c));
      assert Repeat(Noon(c), 1) == [Noon(c)];
    } else {
      RepeatsGrow(Noon(c), n, c.plan(c.victim).window, c.plan(c.victim).count + 1);
    }
  }

  lemma {:induction false} FirstAct(c: Crowd, keys: set<CounterKey>, span: real -> bool, n: nat)
    returns (events: seq<Event>)
    requires Crowded(c) && Admits(c, keys) && span(Noon(c)) && n <= c.plan(c.victim).count
    ensures Staged(c, keys, span, events, Noon(c), Filling(c, n), n)
  {
    if n == 0 {
      events := Prologue(c, keys, span, |c.stale|);
      StagedLater(c, keys, span, events, 0.0, Noon(c), Filling(c, 0), 0);
    } else {
      var before := FirstAct(c, keys, span, n - 1);
      events := OneFills(c, keys, span, before, n);
    }
  }

  lemma OneFills(c: Crowd, keys: set<CounterKey>, span: real -> bool, before: seq<Event>, n: nat)
    returns (events: seq<Event>)
    requires Crowded(c) && Admits(c, keys) && span(Noon(c)) && 0 < n <= c.plan(c.victim).count
    requires Staged(c, keys, span, before, Noon(c), Filling(c, n - 1), n - 1)
    ensures Staged(c, keys, span, events, Noon(c), Filling(c, n), n)
  {
    FillMore(c, n - 1);
    VictimHistory(c, n);
    events := VictimHits(c, keys, span, before, Filling(c, n - 1), Filling(c, n), n);
  }

  /** A hit of the victim that its rule admits. */
  lemma VictimHits(
    c: Crowd, keys: set<CounterKey>, span: real -> bool, before: seq<Event>, t: Table, t': Table, n: nat)
    returns (events: seq<Event>)
    requires Crowded(c) && Admits(c, keys) && span(Noon(c)) && 0 < n <= c.plan(c.victim).count
    requires Staged(c, keys, span, before, Noon(c), t, n - 1)
    requires c.victim in t || LegalVictims(t, c.capacity, {})
    requires Apply(t, HitBy(c, c.victim, Noon(c), {}), c.capacity) == t' && |HistoryOf(t', c.victim)| == n
    ensures Staged(c, keys, span, events, Noon(c), t', n)
  {
    var e := HitBy(c, c.victim, Noon(c), {});
    HitNext(c, keys, span, before, t, n - 1, e);
    events := before + [e];
  }

  lemma VictimHistory(c: Crowd, n: nat)
    requires n > 0
    ensures |HistoryOf(Filling(c, n), c.victim)| == n
  {
  }

  // -------------------------------------------------------------- the recent ones

  function Later(c: Crowd): real {
    Noon(c) + 0.25
  }

  /** The table once the victim's window is full and `j` recent ones have come. */
  ghost predicate Joined(c: Crowd, t: Table, j: nat)
    requires j <= |c.recent|
  {
    && t.Keys == {c.victim} + AllOf(c.stale) + FirstOf(c.recent, j)
    && c.victim in t && t[c.victim] == Repeat(Noon(c), c.plan(c.victim).count)
    && (forall k :: k in t && k in c.stale ==> t[k] == [0.0])
    && (forall k :: k in t && k in c.recent ==> t[k] == [Later(c)])
  }

  lemma EntryOf(c: Crowd, t: Table, j: nat, k: CounterKey)
    requires Crowded(c) && j <= |c.recent| && Joined(c, t, j) && k in t
    ensures t[k] != []
    ensures LastHit(t, k) == if k == c.victim then Noon(c) else if k in c.stale then 0.0 else Later(c)
    ensures k != c.victim && k !in c.stale ==> t[k] == [Later(c)]
  {
    FirstOfMembers(c.stale, |c.stale|);
    FirstOfMembers(c.recent, j);
  }

  lemma JoinedSize(c: Crowd, t: Table, j: nat)
    requires Crowded(c) && j <= |c.recent| && Joined(c, t, j)
    ensures |t| == TrimBy(c.capacity) + j && WithoutEmpty(t) == t
    ensures j < |c.recent| ==> c.recent[j] !in t
  {
    FirstOfSize(c.stale, |c.stale|);
    FirstOfMembers(c.stale, |c.stale|);
    FirstOfSize(c.recent, j);
    FirstOfMembers(c.recent, j);
    assert {c.victim} + AllOf(c.stale) !! FirstOf(c.recent, j);
    assert |t.Keys| == |{c.victim} + AllOf(c.stale)| + |FirstOf(c.recent, j)|;
    assert |t.Keys| == |t|;
    forall k | k in t ensures t[k] != [] {
      EntryOf(c, t, j, k);
    }
  }

  lemma FilledIsJoined(c: Crowd)
    requires Crowded(c)
    ensures Joined(c, Filling(c, c.plan(c.victim).count), 0)
  {
    StaleTableHolds(c, |c.stale|);
    FirstOfMembers(c.stale, |c.stale|);
  }

  lemma JoinNext(c: Crowd, t: Table, j: nat)
    requires Crowded(c) && j < |c.recent| && Joined(c, t, j)
    ensures Joined(c, t[c.recent[j] := [Later(c)]], j + 1)
  {
    assert c.recent[j] in c.recent;
  }

  datatype Scene = Prepared | Spoiled

  /** The victim's window is full, and `j` recent ones have come. */
  ghost function SceneOf(
    c: Crowd, keys: set<CounterKey>, span: real -> bool, events: seq<Event>, t: Table, j: nat): Scene
    requires j <= |c.recent|
  {
    if && Crowded(c) && Admits(c, keys) && Joined(c, t, j)
       && Staged(c, keys, span, events, Later(c), t, c.plan(c.victim).count)
    then Prepared else Spoiled
  }

  lemma WindowFilled(c: Crowd, keys: set<CounterKey>, span: real -> bool) returns (events: seq<Event>, t: Table)
    requires Crowded(c) && Admits(c, keys) && span(Noon(c))
    ensures SceneOf(c, keys, span, events, t, 0) == Prepared
  {
    events := FirstAct(c, keys, span, c.plan(c.victim).count);
    t := Filling(c, c.plan(c.victim).count);
    StagedLater(c, keys, span, events, Noon(c), Later(c), t, c.plan(c.victim).count);
    FilledIsJoined(c);
  }

  /** The recent ones come, one by one, as long as the table has room. */
  lemma SecondAct(c: Crowd, keys: set<CounterKey>, span: real -> bool, j: nat)
    returns (events: seq<Event>, t: Table)
    requires Crowded(c) && Admits(c, keys) && span(Noon(c)) && j < |c.recent|
    ensures SceneOf(c, keys, span, events, t, j) == Prepared
  {
    events, t := WindowFilled(c, keys, span);
    for i := 0 to j
      invariant SceneOf(c, keys, span, events, t, i) == Prepared
    {
      events, t := OneJoins(c, keys, span, events, t, i);
    }
  }

  lemma OneJoins(c: Crowd, keys: set<CounterKey>, span: real -> bool, before: seq<Event>, t: Table, j: nat)
    returns (events: seq<Event>, t': Table)
    requires j < |c.recent| - 1 && SceneOf(c, keys, span, before, t, j) == Prepared
    ensures SceneOf(c, keys, span, events, t', j + 1) == Prepared
  {
    RoomForOne(c, t, j);
    events, t' := OtherComes(c, keys, span, before, t, c.recent[j], c.plan(c.victim).count);
    JoinNext(c, t, j);
  }

  lemma RoomForOne(c: Crowd, t: Table, j: nat)
    requires Crowded(c) && j < |c.recent| - 1 && Joined(c, t, j)
    ensures c.recent[j] !in t && |t| < c.capacity && c.recent[j] in c.recent
  {
    JoinedSize(c, t, j);
  }

  /** A recent one that is new to a table with room. */
  lemma OtherComes(
    c: Crowd, keys: set<CounterKey>, span: real -> bool, before: seq<Event>, t: Table, k: CounterKey, admitted: nat)
    returns (events: seq<Event>, t': Table)
    requires Crowded(c) && Admits(c, keys) && k in c.recent && k !in t && |t| < c.capacity
    requires Staged(c, keys, span, before, Later(c), t, admitted)
    ensures Staged(c, keys, span, events, Later(c), t', admitted) && t' == t[k := [Later(c)]]
  {
    var e := HitBy(c, k, Later(c), {});
    Newcomer(c, t, k, Later(c));
    HitNext(c, keys, span, before, t, admitted, e);
    events, t' := before + [e], t[k := [Later(c)]];
  }

  // ---------------------------------------------------------- the trim and the return

  /** The trim that the last of the recent ones causes. */
  function Batch(c: Crowd): set<CounterKey> {
    {c.victim} + AllOf(c.stale)
  }

  function LastRecent(c: Crowd): CounterKey
    requires |c.recent| > 0
  {
    c.recent[|c.recent| - 1]
  }

  lemma BatchSize(c: Crowd)
    requires Crowded(c)
    ensures |Batch(c)| == TrimBy(c.capacity)
  {
    FirstOfSize(c.stale, |c.stale|);
    FirstOfMembers(c.stale, |c.stale|);
  }

  lemma StaleAreInBatch(c: Crowd, k: CounterKey)
    ensures k in Batch(c) <==> k == c.victim || k in c.stale
  {
    FirstOfMembers(c.stale, |c.stale|);
  }

  lemma BatchIsOldest(c: Crowd, t: Table, out: CounterKey, kept: CounterKey)
    requires Crowded(c) && Joined(c, t, |c.recent| - 1)
    requires out in t && kept in t && out in Batch(c) && kept !in Batch(c)
    ensures t[out] != [] && t[kept] != [] && LastHit(t, out) <= LastHit(t, kept)
  {
    StaleAreInBatch(c, out);
    StaleAreInBatch(c, kept);
    EntryOf(c, t, |c.recent| - 1, out);
    EntryOf(c, t, |c.recent| - 1, kept);
  }

  /** The batch is a legal choice, and it contains the victim. */
  lemma BatchIsLegal(c: Crowd, t: Table)
    requires Crowded(c) && Joined(c, t, |c.recent| - 1)
    ensures NeedsTrim(t, c.capacity) && LegalVictims(t, c.capacity, Batch(c))
  {
    JoinedSize(c, t, |c.recent| - 1);
    BatchSize(c);
    assert Batch(c) <= t.Keys;
    forall out, kept | out in Batch(c) && kept in t.Keys - Batch(c)
      ensures LastHit(WithoutEmpty(t), out) <= LastHit(WithoutEmpty(t), kept)
    {
      BatchIsOldest(c, t, out, kept);
    }
  }

  /** A newcomer to a full table gets a history of its own once the victims are gone. */
  lemma NewcomerAfterTrim(c: Crowd, t: Table, k: CounterKey, now: real, victims: set<CounterKey>)
    requires k !in t && NeedsTrim(t, c.capacity) && WithoutEmpty(t) == t
    ensures Apply(t, HitBy(c, k, now, victims), c.capacity) == (t - victims)[k := [now]]
  {
    FirstEntry(now, c.plan(k));
    assert MadeRoom(t, k, c.capacity, victims) == t - victims && HistoryOf(t, k) == [];
  }

  lemma BatchRemoves(c: Crowd, before: Table)
    requires Crowded(c) && Joined(c, before, |c.recent| - 1)
    ensures Apply(before, HitBy(c, LastRecent(c), Later(c), Batch(c)), c.capacity)
            == (before - Batch(c))[LastRecent(c) := [Later(c)]]
  {
    JoinedSize(c, before, |c.recent| - 1);
    NewcomerAfterTrim(c, before, LastRecent(c), Later(c), Batch(c));
  }

  lemma Removed(t: Table, out: set<CounterKey>)
    requires out <= t.Keys
    ensures |t - out| == |t| - |out|
  {
    assert (t - out).Keys == t.Keys - out;
    assert |t.Keys - out| == |t.Keys| - |out|;
    assert |t| == |t.Keys| && |t - out| == |(t - out).Keys|;
  }

  lemma Inserted(t: Table, k: CounterKey, h: seq<real>)
    requires k !in t
    ensures |t[k := h]| == |t| + 1
  {
    assert t[k := h].Keys == t.Keys + {k};
    assert |t.Keys + {k}| == |t.Keys| + 1;
    assert |t[k := h]| == |t[k := h].Keys| && |t| == |t.Keys|;
  }

  lemma BatchLeavesRecent(c: Crowd, before: Table, k: CounterKey)
    requires Crowded(c) && Joined(c, before, |c.recent| - 1) && k in before - Batch(c)
    ensures before[k] == [Later(c)]
  {
    StaleAreInBatch(c, k);
    EntryOf(c, before, |c.recent| - 1, k);
  }

  lemma BatchLeavesSize(c: Crowd, before: Table)
    requires Crowded(c) && Joined(c, before, |c.recent| - 1)
    ensures |before - Batch(c)| == c.capacity - TrimBy(c.capacity) && LastRecent(c) !in before
  {
    JoinedSize(c, before, |c.recent| - 1);
    BatchSize(c);
    Removed(before, Batch(c));
  }

  /** The last of the recent ones pushes the victim out, and the table is left with equally recent counters. */
  lemma BatchLeaves(c: Crowd, before: Table, t: Table)
    requires Crowded(c) && Joined(c, before, |c.recent| - 1)
    requires t == (before - Batch(c))[LastRecent(c) := [Later(c)]]
    ensures c.victim !in t && |t| == c.capacity - TrimBy(c.capacity) + 1 && LastRecent(c) in t
    ensures forall k :: k in t ==> t[k] == [Later(c)]
  {
    BatchLeavesSize(c, before);
    Inserted(before - Batch(c), LastRecent(c), [Later(c)]);
    forall k | k in before - Batch(c) ensures before[k] == [Later(c)] {
      BatchLeavesRecent(c, before, k);
    }
  }

  /** In a table of equally recent counters any one may go. */
  lemma AnyOneMayGo(t: Table, capacity: pos, k: CounterKey, now: real)
    requires k in t && (forall j :: j in t ==> t[j] == [now]) && |t| == capacity - TrimBy(capacity) + 1
    ensures LegalVictims(t, capacity, {k})
  {
    assert WithoutEmpty(t) == t;
  }

  /** The last of the recent ones drives the victim out. */
  lemma ThirdAct(c: Crowd, keys: set<CounterKey>, span: real -> bool) returns (events: seq<Event>, t: Table)
    requires Crowded(c) && Admits(c, keys) && span(Noon(c))
    ensures Staged(c, keys, span, events, Later(c), t, c.plan(c.victim).count)
    ensures c.victim !in t && LegalVictims(t, c.capacity, {LastRecent(c)})
  {
    var before, t0 := SecondAct(c, keys, span, |c.recent| - 1);
    var e := HitBy(c, LastRecent(c), Later(c), Batch(c));
    BatchIsLegal(c, t0);
    HitNext(c, keys, span, before, t0, c.plan(c.victim).count, e);
    BatchRemoves(c, t0);
    events, t := before + [e], (t0 - Batch(c))[LastRecent(c) := [Later(c)]];
    BatchLeaves(c, t0, t);
    AnyOneMayGo(t, c.capacity, LastRecent(c), Later(c));
  }

  /** The victim's return finds an empty counter, though its window is full. */
  lemma LastAct(c: Crowd, keys: set<CounterKey>, span: real -> bool) returns (events: seq<Event>)
    requires Crowded(c) && Admits(c, keys) && span(Noon(c)) && span(Noon(c) + 0.5)
    ensures Possible(events, keys, c.plan, c.capacity)
    ensures FewOthers(events, c.victim, c.plan(c.victim).window, c.capacity - TrimBy(c.capacity) + 1)
    ensures AdmittedOn(events, c.capacity, c.victim, c.plan(c.victim).count, span) == c.plan(c.victim).count + 1
  {
    var before, t := ThirdAct(c, keys, span);
    var e := HitBy(c, c.victim, Noon(c) + 0.5, {LastRecent(c)});
    StagedLater(c, keys, span, before, Later(c), Noon(c) + 0.5, t, c.plan(c.victim).count);
    HitNext(c, keys, span, before, t, c.plan(c.victim).count, e);
    FirstEntry(Noon(c) + 0.5, c.plan(c.victim));
    assert HistoryOf(Apply(t, e, c.capacity), c.victim) == [Noon(c) + 0.5];
    events := before + [e];
    CastHasFewOthers(c, events);
  }

  /** The half second in which the bound breaks. */
  function HalfSecond(c: Crowd): real -> bool {
    (t: real) => Noon(c) <= t <= Noon(c) + 0.5
  }

  lemma CrowdBreaksBound(c: Crowd, keys: set<CounterKey>)
    requires Crowded(c) && Admits(c, keys)
    ensures !AlwaysBounded(keys, c.plan, c.capacity)
    ensures !BoundedNearby(c.victim, c.plan(c.victim), c.capacity, c.capacity - TrimBy(c.capacity) + 1)
  {
    var k, limit := c.victim, c.plan(c.victim);
    var events := LastAct(c, keys, HalfSecond(c));
    OneRunSuffices(events, keys, c.plan, c.capacity, k, HalfSecond(c));
    PossibleObeys(events, keys, c.plan, c.capacity, k);
    OneNearbyRunSuffices(events, k, limit, c.capacity, c.capacity - TrimBy(c.capacity) + 1, HalfSecond(c));
  }

  lemma PossibleObeys(events: seq<Event>, keys: set<CounterKey>, plan: Plan, capacity: pos, k: CounterKey)
    requires Possible(events, keys, plan, capacity)
    ensures Obeys(events, k, plan(k)) && Legal(events, capacity)
  {
  }

  lemma OneRunSuffices(
    events: seq<Event>, keys: set<CounterKey>, plan: Plan, capacity: pos, k: CounterKey, span: real -> bool)
    requires Possible(events, keys, plan, capacity) && k in keys && Narrow(span, plan(k).window)
    requires AdmittedOn(events, capacity, k, plan(k).count, span) > plan(k).count
    ensures !AlwaysBounded(keys, plan, capacity)
  {
  }

  lemma OneNearbyRunSuffices(events: seq<Event>, k: CounterKey, limit: Limit, capacity: pos, m: nat, span: real -> bool)
    requires Nearby(events, k, limit, capacity, m) && Narrow(span, limit.window)
    requires AdmittedOn(events, capacity, k, limit.count, span) > limit.count
    ensures !BoundedNearby(k, limit, capacity, m)
  {
  }

  // ------------------------------------------------------------ the exact thresholds

  lemma {:induction false} ListKeys(keys: set<CounterKey>) returns (s: seq<CounterKey>)
    ensures |s| == |keys| && (forall k :: k in s <==> k in keys) && Distinct(s)
    decreases |keys|
  {
    if keys == {} {
      s := [];
    } else {
      var k :| k in keys;
      var rest := ListKeys(keys - {k});
      s := rest + [k];
    }
  }

  /** The victim and as many others as the table holds, cast for the run above. */
  lemma CastOf(s: seq<CounterKey>, plan: Plan, capacity: pos) returns (c: Crowd)
    requires Distinct(s) && |s| > capacity
    ensures Crowded(c) && c.victim == s[0] && c.plan == plan && c.capacity == capacity
    ensures forall k :: k in c.stale || k in c.recent ==> k in s
  {
    var trim: nat := TrimBy(capacity);
    c := Crowd(s[0], s[1..trim], s[trim..capacity + 1], plan, capacity);
    assert forall i :: 0 <= i < |c.stale| ==> c.stale[i] == s[i + 1];
    assert forall i :: 0 <= i < |c.recent| ==> c.recent[i] == s[i + trim];
  }

  /**
    The admission bound holds in every run over a set of counters exactly when
    that set fits into the counter table.
   */
  lemma BoundedIffCountersFit(keys: set<CounterKey>, plan: Plan, capacity: pos)
    ensures AlwaysBounded(keys, plan, capacity) <==> |keys| <= capacity
  {
    if |keys| <= capacity {
      FittingCountersAreBounded(keys, plan, capacity);
    } else {
      var s := ListKeys(keys);
      var c := CastOf(s, plan, capacity);
      CrowdBreaksBound(c, keys);
    }
  }

  lemma ManyOthersBreakIt(k: CounterKey, limit: Limit, capacity: pos)
    ensures !BoundedNearby(k, limit, capacity, capacity - TrimBy(capacity) + 1)
  {
    var c, keys := CastAround(k, limit, capacity);
    CrowdBreaksBound(c, keys);
  }

  lemma CastAround(k: CounterKey, limit: Limit, capacity: pos) returns (c: Crowd, keys: set<CounterKey>)
    ensures Crowded(c) && Admits(c, keys) && c.victim == k && c.plan(k) == limit && c.capacity == capacity
  {
    var s := Neighbours(k, capacity);
    c := CastOf(s, _ => limit, capacity);
    keys := set j | j in s;
  }

  /**
    Over any number of counters, with updates and cleanups mixed in, the bound of
    a counter holds in every run that hits at most `m` others within one of its
    windows exactly when `m` is at most what the capacity trim leaves.
   */
  lemma BoundedIffFewOthers(k: CounterKey, limit: Limit, capacity: pos, m: nat)
    ensures BoundedNearby(k, limit, capacity, m)
            <==> m <= if capacity >= 10 then capacity - capacity / 10 else capacity - 1
  {
    if m <= capacity - TrimBy(capacity) {
      FewOthersAreBounded(k, limit, capacity, m);
    } else {
      ManyOthersBreakIt(k, limit, capacity);
      MoreOthersBreakToo(k, limit, capacity, capacity - TrimBy(capacity) + 1, m);
    }
  }

  lemma Neighbours(k: CounterKey, n: nat) returns (s: seq<CounterKey>)
    ensures |s| == n + 1 && s[0] == k && Distinct(s)
  {
    s := seq(n + 1, i requires 0 <= i => CounterKey(k.requestKey, k.handler, k.index + i));
    assert forall i :: 0 <= i <= n ==> s[i].index == k.index + i;
  }

  lemma MoreOthersBreakToo(k: CounterKey, limit: Limit, capacity: pos, m: nat, more: nat)
    requires m <= more && !BoundedNearby(k, limit, capacity, m)
    ensures !BoundedNearby(k, limit, capacity, more)
  {
    var events, span: real -> bool :|
      Nearby(events, k, limit, capacity, m) && Narrow(span, limit.window)
      && AdmittedOn(events, capacity, k, limit.count, span) > limit.count;
    FewerOthers(events, k, limit.window, m, more);
    OneNearbyRunSuffices(events, k, limit, capacity, more, span);
  }
}
