/**
  The sliding-window script run by Redis on a sorted set with a time to live,
  the generation namespace around it, and its agreement with the in-memory
  counters.
 */
module Redis {
  import opened Prelude
  import opened SlidingWindow
  import opened KeyStrings
  import opened Memory
  import K = KeyValue
  import T = CounterTable

  /** A sorted set, reduced to its scores, and the moment its key may disappear. */
  datatype ZSet = ZSet(scores: seq<real>, deadline: real)

  /** The script's two ways to return. */
  datatype Reply =
    | WithOldest(hitCount: nat, oldest: real, now: real, retry: real)
    | Bare(hitCount: nat, now: real)

  // -------------------------------------------------------- sorted-set commands

  /** ZREMRANGEBYSCORE from minus infinity up to and including the threshold. */
  function RemoveUpTo(scores: seq<real>, threshold: real): seq<real> {
    if scores == [] then []
    else (if scores[0] > threshold then [scores[0]] else []) + RemoveUpTo(scores[1..], threshold)
  }

  /** ZADD of a fresh member: it goes to its place in score order. */
  function Add(scores: seq<real>, score: real): seq<real> {
    if scores == [] || scores[|scores| - 1] <= score then scores + [score]
    else Add(scores[..|scores| - 1], score) + [scores[|scores| - 1]]
  }

  // ------------------------------------------------------------------- the script

  /** The scores that one run of the script leaves; `entries` is 0 for "no cap". */
  function ScriptScores(scores: seq<real>, now: real, window: pos, entries: nat): seq<real> {
    var kept := RemoveUpTo(scores, now - window as real);
    if entries == 0 || |kept| < entries then Add(kept, now) else kept
  }

  function ScriptReply(scores: seq<real>, now: real, entries: nat): Reply {
    if scores == [] then Bare(0, now)
    else
      var at := if entries > 1 && |scores| >= entries then |scores| - entries + 1 else 0;
      WithOldest(|scores|, scores[0], now, scores[at])
  }

  function ParseReply(r: Reply): HitResult {
    match r
    case WithOldest(hitCount, oldest, now, retry) => HitResult(hitCount, Some(oldest), now, Some(retry))
    case Bare(hitCount, now) => HitResult(hitCount, None, now, None)
  }

  function Entries(maxHits: Option<pos>): nat {
    if maxHits.None? then 0 else maxHits.value
  }

  function GenerationOf(generations: map<string, nat>, handler: string): nat {
    if handler in generations then generations[handler] else 0
  }

  /** A handler's keys carry the number of changes of its policy, and nothing of the kind before the first. */
  lemma KeyFormat(generations: map<string, nat>, prefix: string, requestKey: string, handler: string, index: nat)
    ensures
      var key := RedisCounterKey(prefix, requestKey, handler, index, GenerationOf(generations, handler));
      var changed := handler in generations && generations[handler] > 0;
      var version := if changed then "v" + Decimal(generations[handler]) + ":" else "";
      key == prefix + ":counter:" + (handler + ":" + (version + (Decimal(index) + ":" + requestKey)))
  {
    var g := GenerationOf(generations, handler);
    assert GenerationPart(g) == if g > 0 then "v" + Decimal(g) + ":" else "";
  }

  class RedisStorage {
    const prefix: string
    const counterFallbackStorage: InMemoryStorage
    var sets: map<string, ZSet>
    var handlerGenerations: map<string, nat>

    constructor (prefix: string, counterFallbackStorage: InMemoryStorage)
      ensures this.prefix == prefix && this.counterFallbackStorage == counterFallbackStorage
      ensures sets == map[] && handlerGenerations == map[]
    {
      this.prefix, this.counterFallbackStorage := prefix, counterFallbackStorage;
      sets := map[];
      handlerGenerations := map[];
    }

    function BuildCounterKey(requestKey: string, handler: string, index: nat): string
      reads this`handlerGenerations
    {
      RedisCounterKey(prefix, requestKey, handler, index, GenerationOf(handlerGenerations, handler))
    }

    /** `reaped` says whether the key's time to live had removed it before the script ran. */
    method RecordHit(
      requestKey: string, handler: string, index: nat, window: pos, maxHits: Option<pos>, now: real, reaped: bool)
      returns (r: HitResult)
      modifies this`sets
      ensures
        var key := BuildCounterKey(requestKey, handler, index);
        var before := if key in old(sets) && !reaped then old(sets)[key].scores else [];
        var after := ScriptScores(before, now, window, Entries(maxHits));
        && sets == old(sets)[key := ZSet(after, now + window as real)]
        && r == ParseReply(ScriptReply(after, now, Entries(maxHits)))
        && after != [] && r.oldest == Some(after[0])
    {
      var key := BuildCounterKey(requestKey, handler, index);
      var maxHitEntries := Entries(maxHits);
      var scores := if key in sets && !reaped then sets[key].scores else [];

      var hitCount;
      scores, hitCount := PruneAndAdd(scores, now, window, maxHitEntries);
      var reply := ReplyWith(scores, hitCount, now, maxHitEntries);
      sets := sets[key := ZSet(scores, now + window as real)];
      r := ParseReply(reply);
    }

    /** The first half of the script: the expired scores go and, below the cap, the hit is added. */
    method PruneAndAdd(before: seq<real>, now: real, window: pos, maxHitEntries: nat)
      returns (scores: seq<real>, hitCount: nat)
      ensures scores == ScriptScores(before, now, window, maxHitEntries) && scores != [] && hitCount == |scores|
    {
      var threshold := now - window as real;
      scores := RemoveUpTo(before, threshold);
      hitCount := |scores|;
      if maxHitEntries == 0 || hitCount < maxHitEntries {
        AddGrows(scores, now);
        scores := Add(scores, now);
        hitCount := |scores|;
      }
    }

    /** The second half of the script: the oldest score and the one to wait for. */
    method ReplyWith(scores: seq<real>, hitCount: nat, now: real, maxHitEntries: nat) returns (reply: Reply)
      requires scores != [] && hitCount == |scores|
      ensures reply == ScriptReply(scores, now, maxHitEntries)
    {
      var oldest := scores[0];
      var retryIndex := 0;
      if maxHitEntries > 1 && hitCount >= maxHitEntries {
        retryIndex := hitCount - maxHitEntries + 1;
      }
      var retry := scores[retryIndex];
      reply := WithOldest(hitCount, oldest, now, retry);
    }

    method CleanupHandlerCounters(handler: string)
      modifies this`handlerGenerations, counterFallbackStorage
      ensures handlerGenerations
              == old(handlerGenerations)[handler := GenerationOf(old(handlerGenerations), handler) + 1]
      ensures counterFallbackStorage.requestCounters
              == T.CleanupHandler(old(counterFallbackStorage.requestCounters), handler)
      ensures counterFallbackStorage.View()
              == K.Apply(old(counterFallbackStorage.View()), K.DropApprox(handler), counterFallbackStorage.maxKeys)
    {
      handlerGenerations := handlerGenerations[handler := GenerationOf(handlerGenerations, handler) + 1];
      counterFallbackStorage.CleanupHandlerCounters(handler);
    }

    /** The sorted sets are left to their time to live; only the fallback store is cleaned up. */
    method CleanupOrphanedCounters(active: T.ActiveRules, now: real)
      modifies counterFallbackStorage`requestCounters
      ensures counterFallbackStorage.requestCounters
              == T.CleanupOrphaned(old(counterFallbackStorage.requestCounters), active, now)
    {
      counterFallbackStorage.CleanupOrphanedCounters(active, now);
    }
  }

  // ----------------------------------------------------------- one script run

  lemma {:induction false} AddGrows(scores: seq<real>, score: real)
    ensures |Add(scores, score)| == |scores| + 1
  {
    if scores != [] && scores[|scores| - 1] > score {
      AddGrows(scores[..|scores| - 1], score);
    }
  }

  /** The script always leaves a non-empty set, so its bare return is unreachable. */
  lemma ReplyAlwaysHasOldest(scores: seq<real>, now: real, window: pos, entries: nat)
    ensures ScriptScores(scores, now, window, entries) != []
    ensures ScriptReply(ScriptScores(scores, now, window, entries), now, entries).WithOldest?
  {
    AddGrows(RemoveUpTo(scores, now - window as real), now);
  }

  /** Removing a score range and popping from the front agree on a sorted history. */
  lemma {:induction false} RemoveIsPrune(scores: seq<real>, threshold: real)
    requires Sorted(scores)
    ensures RemoveUpTo(scores, threshold) == Prune(scores, threshold)
  {
    if scores != [] {
      RemoveIsPrune(scores[1..], threshold);
      if scores[0] > threshold {
        assert Prune(scores[1..], threshold) == scores[1..];
      }
    }
  }

  /** On a non-decreasing clock the script keeps exactly the deque of the in-memory store. */
  lemma ScriptIsRecorded(scores: seq<real>, now: real, window: pos, cap: Option<pos>)
    requires Sorted(scores) && NoneAfter(scores, now)
    ensures ScriptScores(scores, now, window, Entries(cap)) == Recorded(scores, now, window, cap)
  {
    RemoveIsPrune(scores, now - window as real);
    PruneKeepsOrder(scores, now - window as real, now);
  }

  /** What the evaluator can see of two answers. */
  predicate SameDecision(a: HitResult, b: HitResult) {
    a.hitCount == b.hitCount && a.current == b.current && a.oldest == b.oldest && RetryBasis(a) == RetryBasis(b)
  }

  /** Read from the same non-empty history, both answers decide alike. */
  lemma SameHistorySameDecision(h: seq<real>, now: real, cap: Option<pos>)
    requires h != []
    ensures
      var redis, memory := ParseReply(ScriptReply(h, now, Entries(cap))), Report(h, now, cap);
      && SameDecision(redis, memory)
      && (forall count: pos :: Matches(redis, count) == Matches(memory, count))
      && (forall window: pos :: RetryAfter(redis, window) == RetryAfter(memory, window))
  {
  }

  // -------------------------------------------------------------- time to live

  lemma {:induction false} AllExpired(scores: seq<real>, threshold: real)
    requires forall i :: 0 <= i < |scores| ==> scores[i] <= threshold
    ensures RemoveUpTo(scores, threshold) == []
  {
    if scores != [] {
      AllExpired(scores[1..], threshold);
    }
  }

  /** A set last written at `at` under window `last` may vanish unnoticed before a script run with window `next`. */
  ghost predicate TtlUnobservable(last: pos, next: pos) {
    forall scores: seq<real>, at: real, now: real, entries: nat |
      NoneAfter(scores, at) && Sorted(scores) && now >= at + last as real ::
      ScriptScores(scores, now, next, entries) == ScriptScores([], now, next, entries)
  }

  /** The key's time to live is unobservable exactly when the window has not grown since the last write. */
  lemma TtlUnobservableIffWindowNotGrown(last: pos, next: pos)
    ensures TtlUnobservable(last, next) <==> next <= last
  {
    if next <= last {
      forall scores: seq<real>, at: real, now: real, entries: nat |
        NoneAfter(scores, at) && Sorted(scores) && now >= at + last as real
        ensures ScriptScores(scores, now, next, entries) == ScriptScores([], now, next, entries)
      {
        AllExpired(scores, now - next as real);
      }
    } else {
      var at, now := 0.0, last as real;
      var kept := ScriptScores([at], now, next, 0);
      assert RemoveUpTo([at], now - next as real) == [at];
      AddGrows([at], now);
      assert |kept| == 2;
      assert NoneAfter([at], at) && Sorted([at]);
      assert |ScriptScores([], now, next, 0)| == 1;
    }
  }

  // ---------------------------------------------------------------------- runs

  /** The windows of a handler's rules in each generation of its policy; none while it has no policy. */
  type Plan = (string, nat) -> seq<pos>

  /** A hit by a rule in force, or the cleanups that a change of a handler's policy triggers. */
  datatype Event =
    | Hit(requestKey: string, handler: string, index: nat, cap: Option<pos>, now: real, reaped: bool,
          victims: set<T.CounterKey>)
    | Change(handler: string, at: real)

  datatype State = State(sets: map<string, ZSet>, generations: map<string, nat>)

  function ScoresAt(sets: map<string, ZSet>, key: string): seq<real> {
    if key in sets then sets[key].scores else []
  }

  predicate InForce(plan: Plan, generations: map<string, nat>, handler: string, index: nat) {
    index < |plan(handler, GenerationOf(generations, handler))|
  }

  /** The window of a rule in force. */
  function WindowOf(plan: Plan, generations: map<string, nat>, handler: string, index: nat): pos {
    if InForce(plan, generations, handler, index) then plan(handler, GenerationOf(generations, handler))[index] else 1
  }

  function Step(s: State, prefix: string, plan: Plan, e: Event): State {
    match e
    case Hit(r, h, i, cap, now, reaped, _) =>
      var key := RedisCounterKey(prefix, r, h, i, GenerationOf(s.generations, h));
      var w := WindowOf(plan, s.generations, h, i);
      var before := if reaped then [] else ScoresAt(s.sets, key);
      s.(sets := s.sets[key := ZSet(ScriptScores(before, now, w, Entries(cap)), now + w as real)])
    case Change(h, _) =>
      s.(generations := s.generations[h := GenerationOf(s.generations, h) + 1])
  }

  function RunRedis(events: seq<Event>, prefix: string, plan: Plan): State {
    if events == [] then State(map[], map[])
    else Step(RunRedis(events[..|events| - 1], prefix, plan), prefix, plan, events[|events| - 1])
  }

  function Answer(events: seq<Event>, prefix: string, plan: Plan): HitResult
    requires events != [] && events[|events| - 1].Hit?
  {
    var e := events[|events| - 1];
    var s := RunRedis(events, prefix, plan);
    var key := RedisCounterKey(prefix, e.requestKey, e.handler, e.index, GenerationOf(s.generations, e.handler));
    ParseReply(ScriptReply(ScoresAt(s.sets, key), e.now, Entries(e.cap)))
  }

  // ------------------------------------------------------ the same traffic in memory

  /** The windows of all rules in force, as handed to the orphan cleanup. */
  function Active(handlers: set<string>, plan: Plan, generations: map<string, nat>): T.ActiveRules {
    map h | h in handlers :: EachActive(plan(h, GenerationOf(generations, h)))
  }

  function EachActive(windows: seq<pos>): seq<Option<pos>> {
    seq(|windows|, i requires 0 <= i < |windows| => Some(windows[i]))
  }

  function TableHit(plan: Plan, generations: map<string, nat>, e: Event): T.Event
    requires e.Hit?
  {
    T.Hit(T.CounterKey(e.requestKey, e.handler, e.index), e.now,
          WindowOf(plan, generations, e.handler, e.index), e.cap, e.victims)
  }

  /** One event on the in-memory table; a change drops the handler's counters and cleans up orphans. */
  function TableStep(t: T.Table, handlers: set<string>, plan: Plan, s: State, e: Event, capacity: pos): T.Table {
    match e
    case Hit(_, _, _, _, _, _, _) => T.Apply(t, TableHit(plan, s.generations, e), capacity)
    case Change(h, at) =>
      T.CleanupOrphaned(
        T.CleanupHandler(t, h),
        Active(handlers, plan, s.generations[h := GenerationOf(s.generations, h) + 1]), at)
  }

  function RunTable(events: seq<Event>, handlers: set<string>, prefix: string, plan: Plan, capacity: pos): T.Table {
    if events == [] then map[]
    else
      var rest := events[..|events| - 1];
      TableStep(RunTable(rest, handlers, prefix, plan, capacity), handlers, plan, RunRedis(rest, prefix, plan),
                events[|events| - 1], capacity)
  }

  /** The in-memory table never evicts counter `k` while it holds a live hit. */
  ghost predicate Kept(
    events: seq<Event>, handlers: set<string>, prefix: string, plan: Plan, capacity: pos, k: T.CounterKey)
  {
    events == [] ||
    var rest, e := events[..|events| - 1], events[|events| - 1];
    var s := RunRedis(rest, prefix, plan);
    && Kept(rest, handlers, prefix, plan, capacity, k)
    && (e.Hit? ==>
          T.Spares(RunTable(rest, handlers, prefix, plan, capacity), TableHit(plan, s.generations, e), capacity, k,
                   WindowOf(plan, s.generations, k.handler, k.index)))
  }

  /** All counters ever hit. */
  function KeysUsed(events: seq<Event>): set<T.CounterKey> {
    if events == [] then {}
    else
      var e := events[|events| - 1];
      KeysUsed(events[..|events| - 1]) + if e.Hit? then {T.CounterKey(e.requestKey, e.handler, e.index)} else {}
  }

  lemma {:induction false} TableNamesOnlyUsedKeys(
    events: seq<Event>, handlers: set<string>, prefix: string, plan: Plan, capacity: pos)
    ensures RunTable(events, handlers, prefix, plan, capacity).Keys <= KeysUsed(events)
  {
    if events != [] {
      TableNamesOnlyUsedKeys(events[..|events| - 1], handlers, prefix, plan, capacity);
    }
  }

  /** Room for all counters ever hit keeps each of them. */
  lemma {:induction false} RoomKeepsEach(
    events: seq<Event>, handlers: set<string>, prefix: string, plan: Plan, capacity: pos, k: T.CounterKey)
    requires |KeysUsed(events)| <= capacity
    ensures Kept(events, handlers, prefix, plan, capacity, k)
  {
    if events != [] {
      var rest, e := events[..|events| - 1], events[|events| - 1];
      T.SubsetSize(KeysUsed(rest), KeysUsed(events));
      RoomKeepsEach(rest, handlers, prefix, plan, capacity, k);
      if e.Hit? {
        RoomSpares(rest, handlers, prefix, plan, capacity, e, k);
      }
    }
  }

  lemma RoomSpares(
    rest: seq<Event>, handlers: set<string>, prefix: string, plan: Plan, capacity: pos, e: Event, k: T.CounterKey)
    requires e.Hit? && |KeysUsed(rest) + {T.CounterKey(e.requestKey, e.handler, e.index)}| <= capacity
    ensures
      var s := RunRedis(rest, prefix, plan);
      T.Spares(RunTable(rest, handlers, prefix, plan, capacity), TableHit(plan, s.generations, e), capacity, k,
               WindowOf(plan, s.generations, k.handler, k.index))
  {
    var t, hit := RunTable(rest, handlers, prefix, plan, capacity), T.CounterKey(e.requestKey, e.handler, e.index);
    TableNamesOnlyUsedKeys(rest, handlers, prefix, plan, capacity);
    if hit !in t {
      T.SubsetSize(t.Keys + {hit}, KeysUsed(rest) + {hit});
      assert |t.Keys + {hit}| == |t.Keys| + 1 && |t| == |t.Keys|;
    }
  }

  // ------------------------------------------------------------------- agreement

  /** Times never decrease, hits are by rules in force, and a key is only reaped once its deadline has come. */
  ghost predicate Plausible(events: seq<Event>, handlers: set<string>, prefix: string, plan: Plan, now: real) {
    events == [] ||
    var rest, e := events[..|events| - 1], events[|events| - 1];
    match e
    case Hit(r, h, i, _, at, reaped, _) =>
      var s := RunRedis(rest, prefix, plan);
      var key := RedisCounterKey(prefix, r, h, i, GenerationOf(s.generations, h));
      && at <= now && h in handlers && InForce(plan, s.generations, h, i)
      && Plausible(rest, handlers, prefix, plan, at)
      && (reaped && key in s.sets ==> s.sets[key].deadline <= at)
    case Change(h, at) => at <= now && h in handlers && Plausible(rest, handlers, prefix, plan, at)
  }

  /**
    One Redis set mirrors one in-memory history as long as its rule is in force:
    no later hit can tell them apart, and the set was written no later than its
    deadline allows.
   */
  ghost predicate Mirrors(s: State, t: T.Table, prefix: string, plan: Plan, now: real, k: T.CounterKey) {
    var key := RedisCounterKey(prefix, k.requestKey, k.handler, k.index, GenerationOf(s.generations, k.handler));
    var scores := ScoresAt(s.sets, key);
    var w := WindowOf(plan, s.generations, k.handler, k.index);
    && Sorted(scores) && NoneAfter(scores, now)
    && (key in s.sets ==> NoneAfter(scores, s.sets[key].deadline - w as real))
    && (InForce(plan, s.generations, k.handler, k.index) ==> T.SameFrom(scores, T.HistoryOf(t, k), now, w))
  }

  /** Counters of a generation not yet reached do not exist. */
  ghost predicate NoFutureSets(s: State, handlers: set<string>, prefix: string) {
    forall r, h, i, g: nat | h in handlers && g > GenerationOf(s.generations, h) ::
      RedisCounterKey(prefix, r, h, i, g) !in s.sets
  }

  lemma {:induction false} NoFutureSetsHolds(
    events: seq<Event>, handlers: set<string>, prefix: string, plan: Plan, now: real)
    requires Apart(handlers) && Plausible(events, handlers, prefix, plan, now)
    ensures NoFutureSets(RunRedis(events, prefix, plan), handlers, prefix)
    decreases |events|
  {
    if events != [] {
      var n := |events| - 1;
      var e := events[n];
      var s := RunRedis(events[..n], prefix, plan);
      var s' := RunRedis(events, prefix, plan);
      NoFutureSetsHolds(events[..n], handlers, prefix, plan, if e.Hit? then e.now else e.at);
      forall r, h, i, g: nat | h in handlers && g > GenerationOf(s'.generations, h)
        ensures RedisCounterKey(prefix, r, h, i, g) !in s'.sets
      {
        if e.Hit? {
          var written := RedisCounterKey(prefix, e.requestKey, e.handler, e.index,
              GenerationOf(s.generations, e.handler));
          if written == RedisCounterKey(prefix, r, h, i, g) {
            RedisKeysDistinguish(handlers, prefix, e.requestKey, e.handler, e.index,
                GenerationOf(s.generations, e.handler), r, h, i, g);
          }
        }
      }
    }
  }

  lemma {:induction false} AllPruned(scores: seq<real>, threshold: real)
    requires NoneAfter(scores, threshold)
    ensures Prune(scores, threshold) == []
  {
    if scores != [] {
      AllPruned(scores[1..], threshold);
    }
  }

  /** Losing an expired set, or not, the script records what the deque records. */
  lemma ScriptMatchesDeque(scores: seq<real>, h: seq<real>, now: real, window: pos, cap: Option<pos>, reaped: bool)
    requires Sorted(scores) && NoneAfter(scores, now) && T.SameFrom(scores, h, now, window)
    requires reaped ==> NoneAfter(scores, now - window as real)
    ensures
      var after := ScriptScores(if reaped then [] else scores, now, window, Entries(cap));
      after == Recorded(h, now, window, cap) && Sorted(after) && NoneAfter(after, now)
  {
    if reaped {
      AllPruned(scores, now - window as real);
      ScriptIsRecorded([], now, window, cap);
      RecordedKeepsOrder([], now, window, cap);
    } else {
      ScriptIsRecorded(scores, now, window, cap);
      RecordedKeepsOrder(scores, now, window, cap);
    }
  }

  lemma OwnHitMirrors(s: State, t: T.Table, prefix: string, plan: Plan, e: Event, capacity: pos, k: T.CounterKey)
    requires e.Hit? && k == T.CounterKey(e.requestKey, e.handler, e.index)
             && InForce(plan, s.generations, k.handler, k.index)
    requires Mirrors(s, t, prefix, plan, e.now, k)
    requires
      var key := RedisCounterKey(prefix, k.requestKey, k.handler, k.index, GenerationOf(s.generations, k.handler));
      e.reaped && key in s.sets ==> s.sets[key].deadline <= e.now
    ensures
      var key := RedisCounterKey(prefix, k.requestKey, k.handler, k.index, GenerationOf(s.generations, k.handler));
      ScoresAt(Step(s, prefix, plan, e).sets, key)
        == T.HistoryOf(T.Apply(t, TableHit(plan, s.generations, e), capacity), k)
    ensures Mirrors(Step(s, prefix, plan, e), T.Apply(t, TableHit(plan, s.generations, e), capacity), prefix, plan,
              e.now, k)
  {
    var w := WindowOf(plan, s.generations, k.handler, k.index);
    var key := RedisCounterKey(prefix, k.requestKey, k.handler, k.index, GenerationOf(s.generations, k.handler));
    ScriptMatchesDeque(ScoresAt(s.sets, key), T.HistoryOf(t, k), e.now, w, e.cap, e.reaped);
    T.OneStep(t, TableHit(plan, s.generations, e), capacity, k);
  }

  /** A hit on another counter changes neither side of the mirror. */
  lemma OtherHitMirrors(
    s: State, t: T.Table, handlers: set<string>, prefix: string, plan: Plan, e: Event, capacity: pos, k: T.CounterKey)
    requires e.Hit? && Apart(handlers) && e.handler in handlers && k.handler in handlers
    requires k != T.CounterKey(e.requestKey, e.handler, e.index) && Mirrors(s, t, prefix, plan, e.now, k)
    requires T.Spares(t, TableHit(plan, s.generations, e), capacity, k,
               WindowOf(plan, s.generations, k.handler, k.index))
    ensures Mirrors(Step(s, prefix, plan, e), T.Apply(t, TableHit(plan, s.generations, e), capacity), prefix, plan,
              e.now, k)
  {
    var g, gk := GenerationOf(s.generations, e.handler), GenerationOf(s.generations, k.handler);
    if RedisCounterKey(prefix, e.requestKey, e.handler, e.index, g)
       == RedisCounterKey(prefix, k.requestKey, k.handler, k.index, gk) {
      RedisKeysDistinguish(handlers, prefix, e.requestKey, e.handler, e.index, g, k.requestKey, k.handler, k.index, gk);
    }
  }

  /** What the cleanups of a policy change leave of a counter. */
  lemma ChangedTable(t: T.Table, handlers: set<string>, plan: Plan, s: State, e: Event, capacity: pos, k: T.CounterKey)
    requires e.Change? && k.handler in handlers
    requires InForce(plan, Step(s, "", plan, e).generations, k.handler, k.index)
    ensures
      var w := WindowOf(plan, Step(s, "", plan, e).generations, k.handler, k.index);
      var kept := if k.handler == e.handler then [] else T.HistoryOf(t, k);
      T.HistoryOf(TableStep(t, handlers, plan, s, e, capacity), k) == Prune(kept, e.at - w as real)
  {
    var generations := Step(s, "", plan, e).generations;
    var dropped := T.CleanupHandler(t, e.handler);
    var w := WindowOf(plan, generations, k.handler, k.index);
    assert T.ActiveWindow(Active(handlers, plan, generations), k) == Some(w);
    T.CleanupPrunes(dropped, Active(handlers, plan, generations), e.at, k, w);
    assert T.HistoryOf(dropped, k) == if k.handler == e.handler then [] else T.HistoryOf(t, k);
  }

  /** Cleanups leave what is mirrored of the other handlers, and start the changed one afresh on both sides. */
  lemma ChangeMirrors(
    s: State, t: T.Table, handlers: set<string>, prefix: string, plan: Plan, e: Event, capacity: pos, k: T.CounterKey)
    requires e.Change? && k.handler in handlers && NoFutureSets(s, handlers, prefix)
    requires Mirrors(s, t, prefix, plan, e.at, k)
    ensures Mirrors(Step(s, prefix, plan, e), TableStep(t, handlers, plan, s, e, capacity), prefix, plan, e.at, k)
  {
    var generations := Step(s, prefix, plan, e).generations;
    if InForce(plan, generations, k.handler, k.index) {
      var w := WindowOf(plan, generations, k.handler, k.index);
      ChangedTable(t, handlers, plan, s, e, capacity, k);
      if k.handler != e.handler {
        PruneTwice(T.HistoryOf(t, k), e.at - w as real, e.at - w as real);
      }
    }
  }

  lemma MirrorsLater(s: State, t: T.Table, prefix: string, plan: Plan, now: real, later: real, k: T.CounterKey)
    requires Mirrors(s, t, prefix, plan, now, k) && now <= later
    ensures Mirrors(s, t, prefix, plan, later, k)
  {
    var w := WindowOf(plan, s.generations, k.handler, k.index);
    if InForce(plan, s.generations, k.handler, k.index) {
      var key := RedisCounterKey(prefix, k.requestKey, k.handler, k.index, GenerationOf(s.generations, k.handler));
      T.SameLater(ScoresAt(s.sets, key), T.HistoryOf(t, k), now, later, w);
    }
  }

  /** In every run each current Redis set mirrors its in-memory counter. */
  lemma {:induction false} StoresMirror(
    events: seq<Event>, handlers: set<string>, prefix: string, plan: Plan, capacity: pos, now: real, k: T.CounterKey)
    requires Apart(handlers) && k.handler in handlers && Plausible(events, handlers, prefix, plan, now)
    requires Kept(events, handlers, prefix, plan, capacity, k)
    ensures Mirrors(RunRedis(events, prefix, plan), RunTable(events, handlers, prefix, plan, capacity), prefix, plan,
              now, k)
    decreases |events|
  {
    if events != [] {
      var rest, e := events[..|events| - 1], events[|events| - 1];
      var at := if e.Hit? then e.now else e.at;
      var s, t := RunRedis(rest, prefix, plan), RunTable(rest, handlers, prefix, plan, capacity);
      StoresMirror(rest, handlers, prefix, plan, capacity, at, k);
      if e.Change? {
        NoFutureSetsHolds(rest, handlers, prefix, plan, at);
        ChangeMirrors(s, t, handlers, prefix, plan, e, capacity, k);
      } else if k == T.CounterKey(e.requestKey, e.handler, e.index) {
        OwnHitMirrors(s, t, prefix, plan, e, capacity, k);
      } else {
        OtherHitMirrors(s, t, handlers, prefix, plan, e, capacity, k);
      }
      MirrorsLater(RunRedis(events, prefix, plan), RunTable(events, handlers, prefix, plan, capacity), prefix, plan,
          at, now, k);
    }
  }

  /**
    Redis and the in-memory store decide alike: for any traffic on any number of
    counters, of handlers whose keys can be told apart, with changes of any
    handler's policy and the cleanups they trigger mixed in, with keys reaped at
    any moment their time to live permits, and as long as the in-memory table does
    not evict the counter with a live hit in it, every hit gets the same count,
    the same oldest timestamp, the same match and the same `Retry-After`.
   */
  lemma RedisAgreesWithMemory(
    events: seq<Event>, handlers: set<string>, prefix: string, plan: Plan, capacity: pos, now: real)
    requires events != [] && events[|events| - 1].Hit?
    requires Apart(handlers) && Plausible(events, handlers, prefix, plan, now)
    ensures
      var e := events[|events| - 1];
      var k := T.CounterKey(e.requestKey, e.handler, e.index);
      Kept(events, handlers, prefix, plan, capacity, k) ==>
        var redis := Answer(events, prefix, plan);
        var memory := Report(T.HistoryOf(RunTable(events, handlers, prefix, plan, capacity), k), e.now, e.cap);
        && SameDecision(redis, memory)
        && (forall count: pos :: Matches(redis, count) == Matches(memory, count))
        && (forall window: pos :: RetryAfter(redis, window) == RetryAfter(memory, window))
  {
    var rest, e := events[..|events| - 1], events[|events| - 1];
    var s, t := RunRedis(rest, prefix, plan), RunTable(rest, handlers, prefix, plan, capacity);
    var k := T.CounterKey(e.requestKey, e.handler, e.index);
    if Kept(events, handlers, prefix, plan, capacity, k) {
      StoresMirror(rest, handlers, prefix, plan, capacity, e.now, k);
      OwnHitMirrors(s, t, prefix, plan, e, capacity, k);
      HitIsRecorded(t, TableHit(plan, s.generations, e), capacity);
      SameHistorySameDecision(T.HistoryOf(T.Apply(t, TableHit(plan, s.generations, e), capacity), k), e.now, e.cap);
    }
  }

  lemma HitIsRecorded(t: T.Table, e: T.Event, capacity: pos)
    requires e.Hit?
    ensures T.HistoryOf(T.Apply(t, e, capacity), e.key) != []
  {
    T.OneStep(t, e, capacity, e.key);
    var kept := Prune(T.HistoryOf(t, e.key), e.now - e.window as real);
    assert e.cap.Some? && |kept| >= e.cap.value ==> kept != [];
  }
}
