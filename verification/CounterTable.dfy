/**
  The table of sliding-window counters kept by the in-memory store: recording
  with capacity eviction, handler and orphan cleanup, and the theorems about
  every run of the table.
 */
module CounterTable {
  import opened Prelude
  import opened SlidingWindow

  datatype CounterKey = CounterKey(requestKey: string, handler: string, index: nat)
  type Table = map<CounterKey, seq<real>>

  /** The window of each configured rule; None stands for a rule without one. */
  type ActiveRules = map<string, seq<Option<pos>>>

  function HistoryOf(t: Table, k: CounterKey): seq<real> {
    if k in t then t[k] else []
  }

  // ----------------------------------------------------------------- eviction

  function WithoutEmpty(t: Table): (r: Table)
    ensures r.Keys <= t.Keys
  {
    map k | k in t && t[k] != [] :: t[k]
  }

  function TrimBy(capacity: pos): pos {
    if capacity / 10 < 1 then 1 else capacity / 10
  }

  /** How many entries the capacity trim removes from a store of this size. */
  function Overflow(size: nat, capacity: pos): nat
    requires size >= capacity
  {
    size - (capacity - TrimBy(capacity))
  }

  predicate NeedsTrim(t: Table, capacity: pos) {
    |t| >= capacity && |WithoutEmpty(t)| >= capacity
  }

  /** A choice of victims that sorting by last recorded hit can produce; ties are free. */
  ghost predicate LegalVictims(t: Table, capacity: pos, victims: set<CounterKey>) {
    NeedsTrim(t, capacity) ==>
      var live := WithoutEmpty(t);
      && victims <= live.Keys
      && |victims| == Overflow(|live|, capacity)
      && (forall out, kept ::
            out in victims && kept in live.Keys - victims ==> LastHit(live, out) <= LastHit(live, kept))
  }

  function LastHit(t: Table, k: CounterKey): real
    requires k in t && t[k] != []
  {
    t[k][|t[k]| - 1]
  }

  function Evict(t: Table, capacity: pos, victims: set<CounterKey>): Table {
    if |t| < capacity then t
    else if |WithoutEmpty(t)| < capacity then WithoutEmpty(t)
    else WithoutEmpty(t) - victims
  }

  // --------------------------------------------------------------- operations

  function MadeRoom(t: Table, k: CounterKey, capacity: pos, victims: set<CounterKey>): Table {
    if k in t then t else Evict(t, capacity, victims)
  }

  function RecordHit(
    t: Table, k: CounterKey, now: real, window: pos, cap: Option<pos>, capacity: pos, victims: set<CounterKey>): Table
  {
    MadeRoom(t, k, capacity, victims)[k := Recorded(HistoryOf(t, k), now, window, cap)]
  }

  function CleanupHandler(t: Table, handler: string): Table {
    map k | k in t && k.handler != handler :: t[k]
  }

  function ActiveWindow(active: ActiveRules, k: CounterKey): Option<pos> {
    if k.handler in active && k.index < |active[k.handler]| then active[k.handler][k.index] else None
  }

  predicate SurvivesOrphanCleanup(t: Table, active: ActiveRules, now: real, k: CounterKey)
    requires k in t
  {
    && ActiveWindow(active, k).Some?
    && Prune(t[k], now - ActiveWindow(active, k).value as real) != []
  }

  function CleanupOrphaned(t: Table, active: ActiveRules, now: real): Table {
    map k | k in t && SurvivesOrphanCleanup(t, active, now, k) ::
      Prune(t[k], now - ActiveWindow(active, k).value as real)
  }

  // --------------------------------------------------------------------- runs

  datatype Event =
    | Hit(key: CounterKey, now: real, window: pos, cap: Option<pos>, victims: set<CounterKey>)
    | DropHandler(handler: string)
    | DropOrphans(active: ActiveRules, at: real)

  function Apply(t: Table, e: Event, capacity: pos): Table {
    match e
    case Hit(k, now, window, cap, victims) => RecordHit(t, k, now, window, cap, capacity, victims)
    case DropHandler(handler) => CleanupHandler(t, handler)
    case DropOrphans(active, now) => CleanupOrphaned(t, active, now)
  }

  function Run(events: seq<Event>, capacity: pos): Table {
    if events == [] then map[] else Apply(Run(events[..|events| - 1], capacity), events[|events| - 1], capacity)
  }

  /** Every eviction of the run removed victims the source could have chosen. */
  ghost predicate Legal(events: seq<Event>, capacity: pos) {
    events == [] ||
    var n := |events| - 1;
    && Legal(events[..n], capacity)
    && (events[n].Hit? && events[n].key !in Run(events[..n], capacity) ==>
          LegalVictims(Run(events[..n], capacity), capacity, events[n].victims))
  }

  predicate Timed(e: Event) { e.Hit? || e.DropOrphans? }

  function TimeOf(e: Event): real
    requires Timed(e)
  {
    if e.Hit? then e.now else e.at
  }

  /** The clock never runs backwards. */
  ghost predicate ForwardClock(events: seq<Event>) {
    forall i, j ::
      0 <= i < j < |events| && Timed(events[i]) && Timed(events[j]) ==> TimeOf(events[i]) <= TimeOf(events[j])
  }

  ghost predicate NotAfter(events: seq<Event>, now: real) {
    forall i :: 0 <= i < |events| && Timed(events[i]) ==> TimeOf(events[i]) <= now
  }

  /** The true log: the times of all hits on a counter, whether recorded or not. */
  function LogOf(events: seq<Event>, k: CounterKey): seq<real> {
    if events == [] then []
    else
      var e := events[|events| - 1];
      LogOf(events[..|events| - 1], k) + if e.Hit? && e.key == k then [e.now] else []
  }

  lemma {:induction false} LogFromEvents(events: seq<Event>, k: CounterKey)
    ensures forall t :: t in LogOf(events, k) ==>
              exists i :: 0 <= i < |events| && events[i].Hit? && events[i].key == k && events[i].now == t
  {
    if events != [] {
      LogFromEvents(events[..|events| - 1], k);
    }
  }

  lemma {:induction false} LogIsSorted(events: seq<Event>, k: CounterKey)
    requires ForwardClock(events)
    ensures Sorted(LogOf(events, k))
  {
    if events != [] {
      var before := LogOf(events[..|events| - 1], k);
      LogIsSorted(events[..|events| - 1], k);
      LogFromEvents(events[..|events| - 1], k);
      assert forall i :: 0 <= i < |before| ==> before[i] in before;
    }
  }

  // ----------------------------------------------------------------- soundness

  /** What one event can do to the history of one counter. */
  lemma OneStep(t: Table, e: Event, capacity: pos, k: CounterKey)
    ensures
      var h, h' := HistoryOf(t, k), HistoryOf(Apply(t, e, capacity), k);
      if e.Hit? && e.key == k then h' == Recorded(h, e.now, e.window, e.cap)
      else
        || h' in {h, []}
        || (e.DropOrphans? && ActiveWindow(e.active, k).Some?
            && h' == Prune(h, e.at - ActiveWindow(e.active, k).value as real))
  {
    match e
    case Hit(key, _, _, _, victims) =>
      if key != k && k in MadeRoom(t, key, capacity, victims) {
        assert MadeRoom(t, key, capacity, victims)[k] == t[k];
      }
    case DropHandler(_) =>
    case DropOrphans(_, _) =>
  }

  /**
    In every run, with evictions, handler cleanup and orphan cleanup anywhere,
    each history is a subsequence of the true log of its counter.
   */
  lemma {:induction false} HistoriesAreSubsequences(events: seq<Event>, capacity: pos, k: CounterKey)
    ensures Subsequence(HistoryOf(Run(events, capacity), k), LogOf(events, k))
  {
    if events != [] {
      var n := |events| - 1;
      var h, e := HistoryOf(Run(events[..n], capacity), k), events[n];
      var log := LogOf(events[..n], k);
      HistoriesAreSubsequences(events[..n], capacity, k);
      OneStep(Run(events[..n], capacity), e, capacity, k);
      if e.Hit? && e.key == k {
        RecordedSubsequence(h, log, e.now, e.window, e.cap);
      } else {
        assert log + [] == log;
        if e.DropOrphans? && ActiveWindow(e.active, k).Some? {
          PruneSubsequence(h, log, e.at - ActiveWindow(e.active, k).value as real);
        }
      }
    }
  }

  lemma {:induction false} SubsequenceMembers(h: seq<real>, log: seq<real>)
    requires Subsequence(h, log)
    ensures forall x :: x in h ==> x in log
    decreases |log|
  {
    if h != [] {
      var rest := log[..|log| - 1];
      if h[|h| - 1] == log[|log| - 1] && Subsequence(h[..|h| - 1], rest) {
        assert h == h[..|h| - 1] + [h[|h| - 1]];
        SubsequenceMembers(h[..|h| - 1], rest);
      } else {
        SubsequenceMembers(h, rest);
      }
    }
  }

  lemma {:induction false} SubsequenceSorted(h: seq<real>, log: seq<real>)
    requires Subsequence(h, log) && Sorted(log)
    ensures Sorted(h)
    decreases |log|
  {
    if h != [] {
      var rest := log[..|log| - 1];
      if h[|h| - 1] == log[|log| - 1] && Subsequence(h[..|h| - 1], rest) {
        SubsequenceSorted(h[..|h| - 1], rest);
        SubsequenceMembers(h[..|h| - 1], rest);
        forall i | 0 <= i < |h| - 1 ensures h[i] <= h[|h| - 1] {
          assert h[..|h| - 1][i] in rest;
        }
      } else {
        SubsequenceSorted(h, rest);
      }
    }
  }

  lemma {:induction false} CountAll(h: seq<real>, moment: real)
    requires forall i :: 0 <= i < |h| ==> h[i] > moment
    ensures CountAfter(h, moment) == |h|
  {
    if h != [] {
      CountAll(h[..|h| - 1], moment);
    }
  }

  lemma {:induction false} PruneThenAppend(h: seq<real>, now: real, threshold: real)
    requires threshold < now
    ensures Prune(h, threshold) + [now] == Prune(h + [now], threshold)
  {
    if h != [] {
      assert (h + [now])[1..] == h[1..] + [now];
      if h[0] <= threshold {
        PruneThenAppend(h[1..], now, threshold);
      }
    }
  }

  /** An uncapped counter that is never evicted holds exactly the log inside the window. */
  lemma {:induction false} UncappedHistory(times: seq<real>, window: pos)
    requires Sorted(times) && times != []
    ensures History(times, window, None) == Prune(times, times[|times| - 1] - window as real)
  {
    var n := |times| - 1;
    var threshold := times[n] - window as real;
    if n > 0 {
      UncappedHistory(times[..n], window);
      PruneTwice(times[..n], times[n - 1] - window as real, threshold);
    }
    PruneThenAppend(times[..n], times[n], threshold);
    assert times[..n] + [times[n]] == times;
  }

  /** What a counter without a cap and without eviction reports after these hits. */
  function UncappedCount(times: seq<real>, window: pos): nat {
    |History(times, window, None)|
  }

  lemma UncappedCounts(times: seq<real>, window: pos)
    requires Sorted(times) && times != []
    ensures UncappedCount(times, window) >= CountAfter(times, times[|times| - 1] - window as real)
  {
    var threshold := times[|times| - 1] - window as real;
    UncappedHistory(times, window);
    PruneKeepsCount(times, threshold, threshold);
  }

  /** The table's histories are sorted and never ahead of the clock. */
  lemma TableInOrder(events: seq<Event>, capacity: pos, k: CounterKey, now: real)
    requires ForwardClock(events) && NotAfter(events, now)
    ensures Sorted(HistoryOf(Run(events, capacity), k)) && NoneAfter(HistoryOf(Run(events, capacity), k), now)
  {
    var h, log := HistoryOf(Run(events, capacity), k), LogOf(events, k);
    HistoriesAreSubsequences(events, capacity, k);
    LogIsSorted(events, k);
    LogFromEvents(events, k);
    SubsequenceSorted(h, log);
    SubsequenceMembers(h, log);
    assert forall i :: 0 <= i < |h| ==> h[i] in h;
  }

  /** Right after a hit, everything in the counter lies in the hit's window. */
  lemma HitLeavesLiveHistory(events: seq<Event>, capacity: pos)
    requires ForwardClock(events) && events != [] && events[|events| - 1].Hit?
    ensures
      var e := events[|events| - 1];
      var h := HistoryOf(Run(events, capacity), e.key);
      CountAfter(h, e.now - e.window as real) == |h|
  {
    var n := |events| - 1;
    var e := events[n];
    var before := HistoryOf(Run(events[..n], capacity), e.key);
    var h := HistoryOf(Run(events, capacity), e.key);
    TableInOrder(events[..n], capacity, e.key, e.now);
    RecordedKeepsOrder(before, e.now, e.window, e.cap);
    forall i | 0 <= i < |h| ensures h[i] > e.now - e.window as real {
      assert h[i] in h;
    }
    CountAll(h, e.now - e.window as real);
  }

  /** More than `count` live hits in a part of the log are so many in the log, and in an uncapped history of it. */
  lemma LiveHitsAreLogged(h: seq<real>, log: seq<real>, now: real, window: pos, count: nat)
    requires Subsequence(h, log) && Sorted(log) && log != [] && log[|log| - 1] == now
    requires CountAfter(h, now - window as real) == |h| && |h| > count
    ensures CountAfter(log, now - window as real) >= count + 1 && UncappedCount(log, window) > count
  {
    SubsequenceCount(h, log, now - window as real);
    UncappedCounts(log, window);
  }

  /** How many hits the true log of a counter has after a moment. */
  function LoggedAfter(events: seq<Event>, k: CounterKey, moment: real): nat {
    CountAfter(LogOf(events, k), moment)
  }

  /** What the counter would report had it neither a cap nor to fear eviction. */
  function UncappedReport(events: seq<Event>, k: CounterKey, window: pos): nat {
    UncappedCount(LogOf(events, k), window)
  }

  /**
    Soundness of matching: whenever the capped, evicting, cleaned-up table
    reports more than `count` hits, the true log has at least `count + 1` hits
    in the last window, and an uncapped counter that saw the whole log matches.
   */
  lemma MatchIsSound(events: seq<Event>, capacity: pos, count: nat)
    requires ForwardClock(events) && events != [] && events[|events| - 1].Hit?
    requires |HistoryOf(Run(events, capacity), events[|events| - 1].key)| > count
    ensures
      var e := events[|events| - 1];
      LoggedAfter(events, e.key, e.now - e.window as real) >= count + 1
        && UncappedReport(events, e.key, e.window) > count
  {
    var e := events[|events| - 1];
    var log := LogOf(events, e.key);
    HitLeavesLiveHistory(events, capacity);
    HistoriesAreSubsequences(events, capacity, e.key);
    LogIsSorted(events, e.key);
    LogEndsWithHit(events, e);
    LiveHitsAreLogged(HistoryOf(Run(events, capacity), e.key), log, e.now, e.window, count);
  }

  lemma LogEndsWithHit(events: seq<Event>, e: Event)
    requires events != [] && e == events[|events| - 1] && e.Hit?
    ensures LogOf(events, e.key) != [] && LogOf(events, e.key)[|LogOf(events, e.key)| - 1] == e.now
  {
  }

  // ---------------------------------------------------- Retry-After is honoured

  ghost predicate NoHitOn(events: seq<Event>, k: CounterKey) {
    forall i :: 0 <= i < |events| && events[i].Hit? ==> events[i].key != k
  }

  lemma StepShrinks(h: seq<real>, i: nat, t: Table, e: Event, capacity: pos, k: CounterKey)
    returns (i': nat)
    requires i <= |h| && HistoryOf(t, k) == h[i..] && (e.Hit? ==> e.key != k)
    ensures i' <= |h| && HistoryOf(Apply(t, e, capacity), k) == h[i'..]
  {
    OneStep(t, e, capacity, k);
    var after := HistoryOf(Apply(t, e, capacity), k);
    if after == h[i..] {
      i' := i;
    } else if after == [] {
      i' := |h|;
    } else {
      var cut := PruneIsSuffix(h[i..], e.at - ActiveWindow(e.active, k).value as real);
      i' := i + cut;
    }
  }

  lemma RunAppend(events: seq<Event>, e: Event, capacity: pos)
    ensures Run(events + [e], capacity) == Apply(Run(events, capacity), e, capacity)
  {
    assert (events + [e])[..|events|] == events;
  }

  /** Without hits of its own, a counter only ever loses hits from its front. */
  lemma {:induction false} OnlyShrinks(
    events: seq<Event>, more: seq<Event>, capacity: pos, k: CounterKey, h: seq<real>) returns (i: nat)
    requires NoHitOn(more, k) && h == HistoryOf(Run(events, capacity), k)
    ensures i <= |h| && HistoryOf(Run(events + more, capacity), k) == h[i..]
    decreases |more|
  {
    if more == [] {
      assert events + more == events;
      i := 0;
    } else {
      var n := |more| - 1;
      i := OnlyShrinks(events, more[..n], capacity, k, h);
      i := StepShrinks(h, i, Run(events + more[..n], capacity), more[n], capacity, k);
      RunOneMore(events, more, capacity);
    }
  }

  lemma RunOneMore(events: seq<Event>, more: seq<Event>, capacity: pos)
    requires more != []
    ensures
      var n := |more| - 1;
      Run(events + more, capacity) == Apply(Run(events + more[..n], capacity), more[n], capacity)
  {
    var n := |more| - 1;
    assert events + more == events + more[..n] + [more[n]];
    RunAppend(events + more[..n], more[n], capacity);
  }

  lemma ShorterMatchesLess(h: seq<real>, i: nat, at: real, window: pos, count: pos)
    requires i <= |h| && WouldMatch(h[i..], at, window, count)
    ensures WouldMatch(h, at, window, count)
  {
    var k := PruneIsSuffix(h, at - window as real);
    var k' := PruneIsSuffix(h[i..], at - window as real);
    assert i + k' < |h| ==> h[i + k'] == h[i..][k'];
  }

  /** The last event of the run is a hit by a rule of `count` hits, and it matched. */
  ghost predicate JustMatched(events: seq<Event>, capacity: pos, count: pos) {
    && events != [] && events[|events| - 1].Hit?
    && var e := events[|events| - 1];
       e.cap == CapOf(count) && Matches(Report(HistoryOf(Run(events, capacity), e.key), e.now, e.cap), count)
  }

  /**
    In every run, a caller who was told to wait and does so is not turned away
    again: with no hit of its own in between, whatever happens to the rest of the
    table, the next hit on the counter that is no earlier than promised passes.
   */
  lemma WaitIsHonoured(
    events: seq<Event>, more: seq<Event>, again: Event, capacity: pos, count: pos)
    requires ForwardClock(events) && JustMatched(events, capacity, count)
    requires
      var e := events[|events| - 1];
      && NoHitOn(more, e.key)
      && again.Hit? && again.key == e.key && again.window == e.window && again.cap == e.cap
      && again.now
         >= e.now + RetryAfter(Report(HistoryOf(Run(events, capacity), e.key), e.now, e.cap), e.window) as real
    ensures !Matches(Report(HistoryOf(Run(events + more + [again], capacity), again.key), again.now, again.cap), count)
  {
    var n := |events| - 1;
    var e := events[n];
    var before, h := HistoryOf(Run(events[..n], capacity), e.key), HistoryOf(Run(events, capacity), e.key);
    TableInOrder(events[..n], capacity, e.key, e.now);
    OneStep(Run(events[..n], capacity), e, capacity, e.key);
    RetryAfterIsExact(before, e.now, e.window, count);
    assert !WouldMatch(h, again.now, e.window, count);
    var i := OnlyShrinks(events, more, capacity, e.key, h);
    var all := events + more + [again];
    assert all[..|all| - 1] == events + more;
    OneStep(Run(events + more, capacity), again, capacity, e.key);
    if WouldMatch(h[i..], again.now, e.window, count) {
      ShorterMatchesLess(h, i, again.now, e.window, count);
    }
  }

  // ------------------------------------------------------------------- bounds

  lemma SubmapSize(small: Table, big: Table)
    requires small.Keys <= big.Keys
    ensures |small| <= |big|
  {
    if small.Keys != big.Keys {
      SubsetSize(small.Keys, big.Keys);
    }
    assert |small| == |small.Keys| && |big| == |big.Keys|;
  }

  lemma SubsetSize<T>(small: set<T>, big: set<T>)
    requires small <= big
    ensures |small| <= |big|
  {
    assert big == small + (big - small);
  }

  lemma LiveSize(t: Table)
    ensures |WithoutEmpty(t)| == |set k | k in t && t[k] != []| <= |t|
  {
    assert WithoutEmpty(t).Keys == set k | k in t && t[k] != [];
    SubmapSize(WithoutEmpty(t), t);
  }

  /**
    The trim leaves nine tenths of the capacity, rounded up, but always makes room; it
    keeps only counters at least as recent as those it drops.
   */
  lemma EvictMakesRoom(t: Table, capacity: pos, victims: set<CounterKey>)
    requires LegalVictims(t, capacity, victims)
    ensures |Evict(t, capacity, victims)| < capacity
    ensures |set k | k in t && t[k] != []| >= capacity ==>
              |Evict(t, capacity, victims)| == if capacity >= 10 then capacity - capacity / 10 else capacity - 1
    ensures forall out, kept :: NeedsTrim(t, capacity) && out in victims && kept in Evict(t, capacity, victims)
              ==> LastHit(WithoutEmpty(t), out) <= LastHit(WithoutEmpty(t), kept)
  {
    LiveSize(t);
    if NeedsTrim(t, capacity) {
      var live := WithoutEmpty(t);
      assert (live - victims).Keys == live.Keys - victims;
      assert |live - victims| == |live.Keys - victims| == |live| - |victims|;
    }
  }

  /** Some counter of a non-empty choice has the oldest last hit. */
  lemma {:induction false} OldestIn(t: Table, keys: set<CounterKey>) returns (k: CounterKey)
    requires keys != {} && (forall j :: j in keys ==> j in t && t[j] != [])
    ensures k in keys && forall j :: j in keys ==> LastHit(t, k) <= LastHit(t, j)
    decreases |keys|
  {
    k :| k in keys;
    if keys != {k} {
      var rest := OldestIn(t, keys - {k});
      if LastHit(t, rest) < LastHit(t, k) {
        k := rest;
      }
    }
  }

  lemma {:induction false} OldestOf(t: Table, n: nat) returns (out: set<CounterKey>)
    requires n <= |t| && (forall j :: j in t ==> t[j] != [])
    ensures out <= t.Keys && |out| == n
    ensures forall k, j :: k in out && j in t.Keys - out ==> LastHit(t, k) <= LastHit(t, j)
  {
    out := {};
    if n > 0 {
      var before := OldestOf(t, n - 1);
      assert |t.Keys - before| == |t.Keys| - |before| && |t| == |t.Keys|;
      var next := OldestIn(t, t.Keys - before);
      out := before + {next};
    }
  }

  /** An eviction always finds victims to choose. */
  lemma SomeVictims(t: Table, capacity: pos) returns (victims: set<CounterKey>)
    ensures LegalVictims(t, capacity, victims)
  {
    victims := {};
    if NeedsTrim(t, capacity) {
      victims := OldestOf(WithoutEmpty(t), Overflow(|WithoutEmpty(t)|, capacity));
    }
  }

  /** Every reachable table respects its capacity. */
  lemma {:induction false} TableIsBounded(events: seq<Event>, capacity: pos)
    requires Legal(events, capacity)
    ensures |Run(events, capacity)| <= capacity
  {
    if events != [] {
      var n := |events| - 1;
      var t, e := Run(events[..n], capacity), events[n];
      TableIsBounded(events[..n], capacity);
      match e {
        case Hit(k, now, window, cap, victims) =>
          var room := MadeRoom(t, k, capacity, victims);
          if k in t {
            assert Apply(t, e, capacity).Keys == t.Keys;
            SubmapSize(Apply(t, e, capacity), t);
          } else {
            EvictMakesRoom(t, capacity, victims);
            assert Apply(t, e, capacity).Keys == room.Keys + {k};
            assert |room.Keys + {k}| <= |room.Keys| + 1;
            assert |Apply(t, e, capacity)| == |room.Keys + {k}|;
          }
        case DropHandler(_) => SubmapSize(Apply(t, e, capacity), t);
        case DropOrphans(_, _) => SubmapSize(Apply(t, e, capacity), t);
      }
    }
  }

  lemma StepKeepsCap(t: Table, e: Event, capacity: pos, k: CounterKey, cap: pos)
    requires |HistoryOf(t, k)| <= cap && (e.Hit? && e.key == k ==> e.cap == Some(cap))
    ensures |HistoryOf(Apply(t, e, capacity), k)| <= cap
  {
    OneStep(t, e, capacity, k);
    if e.Hit? && e.key == k {
      var cut := PruneIsSuffix(HistoryOf(t, k), e.now - e.window as real);
    } else if e.DropOrphans? && ActiveWindow(e.active, k).Some? {
      var cut := PruneIsSuffix(HistoryOf(t, k), e.at - ActiveWindow(e.active, k).value as real);
    }
  }

  /** With one fixed cap per counter, no history outgrows its cap. */
  lemma {:induction false} HistoriesAreBounded(events: seq<Event>, capacity: pos, k: CounterKey, cap: pos)
    requires forall i :: 0 <= i < |events| && events[i].Hit? && events[i].key == k ==> events[i].cap == Some(cap)
    ensures |HistoryOf(Run(events, capacity), k)| <= cap
  {
    if events != [] {
      var n := |events| - 1;
      HistoriesAreBounded(events[..n], capacity, k, cap);
      StepKeepsCap(Run(events[..n], capacity), events[n], capacity, k, cap);
    }
  }

  // ------------------------------------------------------ runs without eviction

  /** Every counter that the run ever hits. */
  function KeysHit(events: seq<Event>): set<CounterKey> {
    set i | 0 <= i < |events| && events[i].Hit? :: events[i].key
  }

  lemma {:induction false} TableNamesOnlyHitKeys(events: seq<Event>, capacity: pos)
    ensures Run(events, capacity).Keys <= KeysHit(events)
  {
    if events != [] {
      var n := |events| - 1;
      TableNamesOnlyHitKeys(events[..n], capacity);
      assert KeysHit(events[..n]) <= KeysHit(events);
      if events[n].Hit? {
        assert events[n].key in KeysHit(events);
      }
    }
  }

  /** While at most `capacity` counters were ever hit, nothing is evicted. */
  lemma NoEviction(events: seq<Event>, capacity: pos)
    requires events != [] && events[|events| - 1].Hit? && |KeysHit(events)| <= capacity
    ensures
      var n := |events| - 1;
      var t := Run(events[..n], capacity);
      MadeRoom(t, events[n].key, capacity, events[n].victims) == t
  {
    var n := |events| - 1;
    var t, k := Run(events[..n], capacity), events[n].key;
    TableNamesOnlyHitKeys(events[..n], capacity);
    if k !in t {
      assert k in KeysHit(events);
      assert t.Keys <= KeysHit(events) - {k};
      SubsetSize(t.Keys, KeysHit(events) - {k});
      assert |t| == |t.Keys|;
    }
  }

  lemma PrefixHitsFewer(events: seq<Event>, n: nat)
    requires n <= |events|
    ensures |KeysHit(events[..n])| <= |KeysHit(events)|
  {
    SubsetSize(KeysHit(events[..n]), KeysHit(events));
  }

  predicate HitsOnly(events: seq<Event>) {
    forall i :: 0 <= i < |events| ==> events[i].Hit?
  }

  /** All hits on one counter use the same window and cap. */
  predicate Steady(events: seq<Event>, k: CounterKey, window: pos, cap: Option<pos>) {
    forall i ::
      0 <= i < |events| && events[i].Hit? && events[i].key == k ==> events[i].window == window && events[i].cap == cap
  }

  /** Two histories that no hit from `now` on can tell apart. */
  predicate SameFrom(a: seq<real>, b: seq<real>, now: real, window: pos) {
    Prune(a, now - window as real) == Prune(b, now - window as real)
  }

  lemma SameLater(a: seq<real>, b: seq<real>, now: real, later: real, window: pos)
    requires SameFrom(a, b, now, window) && now <= later
    ensures SameFrom(a, b, later, window)
  {
    PruneTwice(a, now - window as real, later - window as real);
    PruneTwice(b, now - window as real, later - window as real);
  }

  /** What an orphan cleanup does to the history of a configured counter. */
  lemma CleanupPrunes(t: Table, active: ActiveRules, at: real, k: CounterKey, window: pos)
    requires ActiveWindow(active, k) == Some(window)
    ensures HistoryOf(CleanupOrphaned(t, active, at), k) == Prune(HistoryOf(t, k), at - window as real)
  {
  }

  // ------------------------------------------------------- runs that keep a counter

  /** Hits and orphan cleanups use the window configured for counter `k`, whose handler is not updated. */
  ghost predicate Undisturbed(events: seq<Event>, k: CounterKey, window: pos) {
    forall i :: 0 <= i < |events| ==>
      match events[i]
      case Hit(key, _, w, _, _) => key == k ==> w == window
      case DropOrphans(active, _) => ActiveWindow(active, k) == Some(window)
      case DropHandler(handler) => handler != k.handler
  }

  /** A hit on another counter does not evict `k` while it holds a live hit. */
  predicate Spares(t: Table, e: Event, capacity: pos, k: CounterKey, window: pos) {
    e.Hit? && e.key != k ==> SameFrom(HistoryOf(t, k), HistoryOf(Apply(t, e, capacity), k), e.now, window)
  }

  /** Counter `k` is never evicted while it holds a live hit. */
  ghost predicate Kept(events: seq<Event>, capacity: pos, k: CounterKey, window: pos) {
    events == [] ||
    var n := |events| - 1;
    Kept(events[..n], capacity, k, window) && Spares(Run(events[..n], capacity), events[n], capacity, k, window)
  }

  lemma {:induction false} KeptPrefix(events: seq<Event>, capacity: pos, k: CounterKey, window: pos, n: nat)
    requires Kept(events, capacity, k, window) && n <= |events|
    ensures Kept(events[..n], capacity, k, window)
  {
    if n < |events| {
      KeptPrefix(events[..|events| - 1], capacity, k, window, n);
      assert events[..|events| - 1][..n] == events[..n];
    } else {
      assert events[..n] == events;
    }
  }

  /** The history of counter `k` had there been no other counter and no cleanup. */
  function Alone(events: seq<Event>, k: CounterKey): seq<real> {
    if events == [] then []
    else
      var e := events[|events| - 1];
      var before := Alone(events[..|events| - 1], k);
      if e.Hit? && e.key == k then Recorded(before, e.now, e.window, e.cap) else before
  }

  lemma {:induction false} AloneIsHistory(events: seq<Event>, k: CounterKey, window: pos, cap: Option<pos>)
    requires Steady(events, k, window, cap)
    ensures Alone(events, k) == History(LogOf(events, k), window, cap)
  {
    if events != [] {
      var n := |events| - 1;
      var log := LogOf(events[..n], k);
      AloneIsHistory(events[..n], k, window, cap);
      if events[n].Hit? && events[n].key == k {
        assert (log + [events[n].now])[..|log|] == log;
      } else {
        assert log + [] == log;
      }
    }
  }

  /** One event on the table and on the counter alone. */
  lemma StepKeepsSame(t: Table, a: seq<real>, e: Event, capacity: pos, k: CounterKey, window: pos, at: real, now: real)
    requires SameFrom(HistoryOf(t, k), a, at, window) && at <= now && (Timed(e) ==> TimeOf(e) == at)
    requires Undisturbed([e], k, window) && Spares(t, e, capacity, k, window)
    ensures
      var a' := if e.Hit? && e.key == k then Recorded(a, e.now, e.window, e.cap) else a;
      SameFrom(HistoryOf(Apply(t, e, capacity), k), a', now, window)
  {
    var h, h' := HistoryOf(t, k), HistoryOf(Apply(t, e, capacity), k);
    assert Undisturbed([e], k, window) && [e][0] == e;
    SameLater(h, a, at, now, window);
    match e
    case Hit(key, _, _, _, _) =>
      if key == k {
        OneStep(t, e, capacity, k);
      } else {
        SameLater(h, h', at, now, window);
      }
    case DropOrphans(active, _) =>
      CleanupPrunes(t, active, at, k, window);
      PruneTwice(h, at - window as real, now - window as real);
    case DropHandler(_) =>
      assert h' == h;
  }

  /**
    Rule independence: as long as a counter is not evicted with a live hit in it,
    no later hit can tell its history from that of the counter running alone,
    whatever hits on other counters, updates of other handlers and orphan
    cleanups are mixed in.
   */
  lemma {:induction false} KeptRunsAlone(events: seq<Event>, capacity: pos, k: CounterKey, window: pos, now: real)
    requires ForwardClock(events) && NotAfter(events, now)
    requires Undisturbed(events, k, window) && Kept(events, capacity, k, window)
    ensures SameFrom(HistoryOf(Run(events, capacity), k), Alone(events, k), now, window)
    decreases |events|
  {
    if events != [] {
      var n := |events| - 1;
      var e := events[n];
      var at := if Timed(e) then TimeOf(e) else now;
      KeptRunsAlone(events[..n], capacity, k, window, at);
      StepKeepsSame(Run(events[..n], capacity), Alone(events[..n], k), e, capacity, k, window, at, now);
    }
  }

  /** At its own hits the counter's history is exactly that of the counter alone. */
  lemma KeptHitIsExact(events: seq<Event>, capacity: pos, k: CounterKey, window: pos)
    requires events != [] && events[|events| - 1].Hit? && events[|events| - 1].key == k
    requires ForwardClock(events) && Undisturbed(events, k, window) && Kept(events, capacity, k, window)
    ensures HistoryOf(Run(events, capacity), k) == Alone(events, k)
  {
    var n := |events| - 1;
    KeptRunsAlone(events[..n], capacity, k, window, events[n].now);
    OneStep(Run(events[..n], capacity), events[n], capacity, k);
  }

  lemma CountersAreIndependent(events: seq<Event>, capacity: pos, k: CounterKey, window: pos, cap: Option<pos>)
    requires events != [] && events[|events| - 1].Hit? && events[|events| - 1].key == k
    requires ForwardClock(events) && Undisturbed(events, k, window) && Steady(events, k, window, cap)
    requires Kept(events, capacity, k, window)
    ensures HistoryOf(Run(events, capacity), k) == History(LogOf(events, k), window, cap)
  {
    KeptHitIsExact(events, capacity, k, window);
    AloneIsHistory(events, k, window, cap);
  }

  // --------------------------------------------------------- what keeps a counter

  /** A table that has room for every counter ever hit keeps them all. */
  lemma {:induction false} RoomForAllKeeps(events: seq<Event>, capacity: pos, k: CounterKey, window: pos)
    requires |KeysHit(events)| <= capacity
    ensures Kept(events, capacity, k, window)
  {
    if events != [] {
      var n := |events| - 1;
      PrefixHitsFewer(events, n);
      RoomForAllKeeps(events[..n], capacity, k, window);
      if events[n].Hit? {
        NoEviction(events, capacity);
      }
    }
  }

  /** The counters hit after a moment. */
  function KeysHitAfter(events: seq<Event>, moment: real): set<CounterKey> {
    if events == [] then {}
    else
      var e := events[|events| - 1];
      KeysHitAfter(events[..|events| - 1], moment) + if e.Hit? && e.now > moment then {e.key} else {}
  }

  lemma {:induction false} HitAfter(events: seq<Event>, moment: real, i: nat)
    requires i < |events| && events[i].Hit? && events[i].now > moment
    ensures events[i].key in KeysHitAfter(events, moment)
  {
    if i < |events| - 1 {
      HitAfter(events[..|events| - 1], moment, i);
    }
  }

  /** No hit makes it more than `m` other counters within the window that ends with the hit. */
  ghost predicate FewOthers(events: seq<Event>, k: CounterKey, window: pos, m: nat) {
    events == [] ||
    var n := |events| - 1;
    && FewOthers(events[..n], k, window, m)
    && (events[n].Hit? ==> |KeysHitAfter(events, events[n].now - window as real) - {k}| <= m)
  }

  lemma LastIsLive(h: seq<real>, threshold: real)
    requires Sorted(h) && Prune(h, threshold) != []
    ensures h != [] && h[|h| - 1] > threshold
  {
    var cut := PruneIsSuffix(h, threshold);
  }

  /** What the table holds with a recent last hit was hit recently. */
  lemma RecentWereHit(events: seq<Event>, capacity: pos, k: CounterKey, moment: real)
    requires k in Run(events, capacity) && Run(events, capacity)[k] != [] && LastHit(Run(events, capacity), k) > moment
    ensures k in KeysHitAfter(events, moment)
  {
    var last := LastHit(Run(events, capacity), k);
    HistoriesAreSubsequences(events, capacity, k);
    SubsequenceMembers(HistoryOf(Run(events, capacity), k), LogOf(events, k));
    assert last in HistoryOf(Run(events, capacity), k);
    LogFromEvents(events, k);
    var i :| 0 <= i < |events| && events[i].Hit? && events[i].key == k && events[i].now == last;
    HitAfter(events, moment, i);
  }

  /** Only a victim of the capacity trim can be lost with a live hit in it. */
  lemma NotLost(t: Table, capacity: pos, e: Event, k: CounterKey, window: pos)
    requires e.Hit?
    requires
      || e.key == k || e.key in t || !NeedsTrim(t, capacity) || k !in e.victims
      || k !in t || Prune(t[k], e.now - window as real) == []
    ensures Spares(t, e, capacity, k, window)
  {
    OneStep(t, e, capacity, k);
  }

  lemma TrimComparesLastHits(t: Table, capacity: pos, victims: set<CounterKey>, out: CounterKey, kept: CounterKey)
    requires NeedsTrim(t, capacity) && LegalVictims(t, capacity, victims)
    requires out in victims && kept in WithoutEmpty(t).Keys - victims
    ensures out in t && t[out] != [] && kept in t && t[kept] != [] && LastHit(t, out) <= LastHit(t, kept)
  {
    assert LastHit(WithoutEmpty(t), out) <= LastHit(WithoutEmpty(t), kept);
  }

  /** The trim keeps only counters that are as recent. */
  lemma SurvivorsAreRecent(events: seq<Event>, capacity: pos, e: Event, k: CounterKey, moment: real)
    requires e.Hit? && NeedsTrim(Run(events, capacity), capacity)
             && LegalVictims(Run(events, capacity), capacity, e.victims)
    requires
      var t := Run(events, capacity);
      k in e.victims && k in t && t[k] != [] && LastHit(t, k) > moment
    ensures WithoutEmpty(Run(events, capacity)).Keys - e.victims <= KeysHitAfter(events, moment)
  {
    var t := Run(events, capacity);
    forall j | j in WithoutEmpty(t).Keys - e.victims ensures j in KeysHitAfter(events, moment) {
      TrimComparesLastHits(t, capacity, e.victims, k, j);
      RecentWereHit(events, capacity, j, moment);
    }
  }

  lemma HowManySurvive(t: Table, capacity: pos, victims: set<CounterKey>)
    requires NeedsTrim(t, capacity) && LegalVictims(t, capacity, victims)
    ensures |WithoutEmpty(t).Keys - victims| == capacity - TrimBy(capacity)
  {
    var live := WithoutEmpty(t);
    assert |live.Keys - victims| == |live.Keys| - |victims| && |live| == |live.Keys|;
  }

  lemma AlsoHitAfter(events: seq<Event>, e: Event, moment: real)
    requires e.Hit? && e.now > moment
    ensures KeysHitAfter(events + [e], moment) == KeysHitAfter(events, moment) + {e.key}
  {
    assert (events + [e])[..|events|] == events;
  }

  /** An eviction that takes a live counter means many others were hit within its window. */
  lemma EvictedAmongRecent(events: seq<Event>, capacity: pos, e: Event, k: CounterKey, moment: real)
    requires ForwardClock(events) && e.Hit? && e.key != k && e.key !in Run(events, capacity) && e.now > moment
    requires NeedsTrim(Run(events, capacity), capacity) && LegalVictims(Run(events, capacity), capacity, e.victims)
    requires
      var t := Run(events, capacity);
      k in e.victims && k in t && Prune(t[k], moment) != []
    ensures |KeysHitAfter(events + [e], moment) - {k}| > capacity - TrimBy(capacity)
  {
    var t := Run(events, capacity);
    var kept := WithoutEmpty(t).Keys - e.victims;
    LogIsSorted(events, k);
    HistoriesAreSubsequences(events, capacity, k);
    SubsequenceSorted(t[k], LogOf(events, k));
    LastIsLive(t[k], moment);
    SurvivorsAreRecent(events, capacity, e, k, moment);
    HowManySurvive(t, capacity, e.victims);
    AlsoHitAfter(events, e, moment);
    OneMoreThan(kept, e.key, k, KeysHitAfter(events + [e], moment));
  }

  lemma OneMoreThan<A>(kept: set<A>, added: A, out: A, all: set<A>)
    requires kept + {added} <= all && added !in kept && out !in kept && out != added
    ensures |all - {out}| > |kept|
  {
    SubsetSize(kept + {added}, all - {out});
    assert |kept + {added}| == |kept| + 1;
  }

  /**
    The trim takes the oldest counters first, so a counter with a live hit is only
    evicted when more than nine tenths of the capacity, rounded up, or all but one
    of a small table, are hit within one window, however many over the whole run.
   */
  lemma FewOthersKeep(events: seq<Event>, capacity: pos, k: CounterKey, window: pos)
    requires Legal(events, capacity) && ForwardClock(events)
    requires FewOthers(events, k, window, if capacity >= 10 then capacity - capacity / 10 else capacity - 1)
    ensures Kept(events, capacity, k, window)
  {
    NoMoreOthersKeep(events, capacity, k, window, capacity - TrimBy(capacity));
  }

  lemma {:induction false} NoMoreOthersKeep(
    events: seq<Event>, capacity: pos, k: CounterKey, window: pos, m: nat)
    requires Legal(events, capacity) && ForwardClock(events)
    requires FewOthers(events, k, window, m) && m <= capacity - TrimBy(capacity)
    ensures Kept(events, capacity, k, window)
  {
    if events != [] {
      var n := |events| - 1;
      NoMoreOthersKeep(events[..n], capacity, k, window, m);
      LastSpares(events, capacity, k, window, m);
    }
  }

  lemma LastSpares(events: seq<Event>, capacity: pos, k: CounterKey, window: pos, m: nat)
    requires Legal(events, capacity) && ForwardClock(events) && events != []
    requires FewOthers(events, k, window, m) && m <= capacity - TrimBy(capacity)
    ensures Spares(Run(events[..|events| - 1], capacity), events[|events| - 1], capacity, k, window)
  {
    var n := |events| - 1;
    var before, e := events[..n], events[n];
    LastFewOthers(events, capacity, k, window, m);
    assert events == before + [e];
    FewOthersSpare(before, e, capacity, k, window);
  }

  lemma LastFewOthers(events: seq<Event>, capacity: pos, k: CounterKey, window: pos, m: nat)
    requires Legal(events, capacity) && ForwardClock(events) && events != [] && FewOthers(events, k, window, m)
    ensures
      var n := |events| - 1;
      var before, e := events[..n], events[n];
      && ForwardClock(before)
      && (e.Hit? && e.key !in Run(before, capacity) ==> LegalVictims(Run(before, capacity), capacity, e.victims))
      && (e.Hit? ==> |KeysHitAfter(events, e.now - window as real) - {k}| <= m)
  {
  }

  lemma FewOthersSpare(events: seq<Event>, e: Event, capacity: pos, k: CounterKey, window: pos)
    requires ForwardClock(events)
    requires e.Hit? && e.key !in Run(events, capacity) ==> LegalVictims(Run(events, capacity), capacity, e.victims)
    requires e.Hit? ==> |KeysHitAfter(events + [e], e.now - window as real) - {k}| <= capacity - TrimBy(capacity)
    ensures Spares(Run(events, capacity), e, capacity, k, window)
  {
    if e.Hit? {
      var t, moment := Run(events, capacity), e.now - window as real;
      if e.key != k && e.key !in t && NeedsTrim(t, capacity) && k in e.victims && k in t && Prune(t[k], moment) != [] {
        EvictedAmongRecent(events, capacity, e, k, moment);
      } else {
        NotLost(t, capacity, e, k, window);
      }
    }
  }

  // ------------------------------------------------------------ orphan cleanup

  /** The answers given to the hits of a run. */
  function Answers(events: seq<Event>, capacity: pos): seq<HitResult> {
    if events == [] then []
    else
      var e := events[|events| - 1];
      Answers(events[..|events| - 1], capacity)
      + if e.Hit? then [Report(HistoryOf(Run(events, capacity), e.key), e.now, e.cap)] else []
  }

  /** The same run with its cleanups left out. */
  function WithoutCleanups(events: seq<Event>): (r: seq<Event>) {
    if events == [] then []
    else
      var e := events[|events| - 1];
      WithoutCleanups(events[..|events| - 1]) + if e.Hit? then [e] else []
  }

  lemma {:induction false} ErasedFrom(events: seq<Event>)
    ensures forall e :: e in WithoutCleanups(events) ==> e in events && e.Hit?
  {
    if events != [] {
      ErasedFrom(events[..|events| - 1]);
    }
  }

  lemma ErasedNames(events: seq<Event>)
    ensures KeysHit(WithoutCleanups(events)) <= KeysHit(events)
  {
    var erased := WithoutCleanups(events);
    ErasedFrom(events);
    forall k | k in KeysHit(erased) ensures k in KeysHit(events) {
      var i :| 0 <= i < |erased| && erased[i].Hit? && erased[i].key == k;
      assert erased[i] in erased;
    }
  }

  lemma ErasedUndisturbed(events: seq<Event>, k: CounterKey, window: pos)
    requires Undisturbed(events, k, window)
    ensures Undisturbed(WithoutCleanups(events), k, window)
  {
    var erased := WithoutCleanups(events);
    ErasedFrom(events);
    assert forall i :: 0 <= i < |erased| ==> erased[i] in erased;
  }

  lemma {:induction false} ErasedInOrder(events: seq<Event>)
    requires ForwardClock(events)
    ensures ForwardClock(WithoutCleanups(events))
  {
    if events != [] {
      var rest := WithoutCleanups(events[..|events| - 1]);
      ErasedInOrder(events[..|events| - 1]);
      ErasedFrom(events[..|events| - 1]);
      assert forall i :: 0 <= i < |rest| ==> rest[i] in rest;
    }
  }

  lemma {:induction false} AloneIgnoresCleanups(events: seq<Event>, k: CounterKey)
    ensures Alone(WithoutCleanups(events), k) == Alone(events, k)
  {
    if events != [] {
      var n := |events| - 1;
      var rest := WithoutCleanups(events[..n]);
      AloneIgnoresCleanups(events[..n], k);
      assert (rest + [events[n]])[..|rest|] == rest;
      assert rest + [] == rest;
    }
  }

  /** What a hit is told, as the last event of a run. */
  function LastAnswer(events: seq<Event>, capacity: pos): HitResult
    requires events != [] && events[|events| - 1].Hit?
  {
    var e := events[|events| - 1];
    Report(HistoryOf(Run(events, capacity), e.key), e.now, e.cap)
  }

  /**
    Policy changes are isolated: a hit is told the same as in the run without any
    cleanup, however many updates of other handlers, each with its orphan cleanup,
    were mixed in, provided neither run evicts its counter with a live hit in it.
   */
  lemma PolicyChangesAreIsolated(events: seq<Event>, capacity: pos)
    requires events != [] && events[|events| - 1].Hit? && ForwardClock(events)
    requires
      var e := events[|events| - 1];
      && Undisturbed(events, e.key, e.window)
      && Kept(events, capacity, e.key, e.window) && Kept(WithoutCleanups(events), capacity, e.key, e.window)
    ensures
      var erased := WithoutCleanups(events);
      erased != [] && erased[|erased| - 1] == events[|events| - 1]
      && LastAnswer(events, capacity) == LastAnswer(erased, capacity)
  {
    var e := events[|events| - 1];
    KeptHitIsExact(events, capacity, e.key, e.window);
    ErasedInOrder(events);
    ErasedUndisturbed(events, e.key, e.window);
    KeptHitIsExact(WithoutCleanups(events), capacity, e.key, e.window);
    AloneIgnoresCleanups(events, e.key);
  }

  ghost predicate Configured(events: seq<Event>, window: CounterKey -> pos) {
    forall k :: k in KeysHit(events) ==> Undisturbed(events, k, window(k))
  }

  lemma ConfiguredPrefix(events: seq<Event>, window: CounterKey -> pos)
    requires events != [] && Configured(events, window)
    ensures Configured(events[..|events| - 1], window)
  {
    var before := events[..|events| - 1];
    assert KeysHit(before) <= KeysHit(events);
    forall k | k in KeysHit(before) ensures Undisturbed(before, k, window(k)) {
      assert Undisturbed(events, k, window(k));
    }
  }

  /**
    Orphan cleanup is unobservable: while the table stays below its capacity, a
    run of hits on configured rules gets the same answers whether or not orphan
    cleanups are mixed into it.
   */
  lemma {:induction false} OrphanCleanupIsUnobservable(events: seq<Event>, capacity: pos, window: CounterKey -> pos)
    requires ForwardClock(events) && Configured(events, window) && |KeysHit(events)| <= capacity
    ensures Answers(events, capacity) == Answers(WithoutCleanups(events), capacity)
  {
    if events != [] {
      var n := |events| - 1;
      PrefixHitsFewer(events, n);
      ConfiguredPrefix(events, window);
      OrphanCleanupIsUnobservable(events[..n], capacity, window);
      if events[n].Hit? {
        SameLastAnswer(events, capacity, window);
        var erased := WithoutCleanups(events);
        assert erased[..|erased| - 1] == WithoutCleanups(events[..n]);
      } else {
        assert WithoutCleanups(events) == WithoutCleanups(events[..n]);
      }
    }
  }

  lemma SameLastAnswer(events: seq<Event>, capacity: pos, window: CounterKey -> pos)
    requires events != [] && events[|events| - 1].Hit? && ForwardClock(events)
    requires Configured(events, window) && |KeysHit(events)| <= capacity
    ensures
      var erased := WithoutCleanups(events);
      erased != [] && erased[|erased| - 1] == events[|events| - 1]
      && LastAnswer(events, capacity) == LastAnswer(erased, capacity)
  {
    var e := events[|events| - 1];
    assert e.key in KeysHit(events);
    assert Undisturbed(events, e.key, window(e.key));
    ErasedNames(events);
    SubsetSize(KeysHit(WithoutCleanups(events)), KeysHit(events));
    RoomForAllKeeps(events, capacity, e.key, e.window);
    RoomForAllKeeps(WithoutCleanups(events), capacity, e.key, e.window);
    PolicyChangesAreIsolated(events, capacity);
  }
}
