/**
  The in-memory store itself: an object that updates its dictionaries in place.
  Every method is tied to the specification functions of CounterTable and
  KeyValue, about which the theorems are proved. The clock reading is passed in.
 */
module Memory {
  import opened Prelude
  import opened SlidingWindow
  import opened TtlMap
  import opened KeyStrings
  import C = CounterTable
  import K = KeyValue

  /** Python's `sorted` with a numeric key; ties come in some order. */
  method OldestFirst<A(==)>(stamps: map<A, real>) returns (order: seq<A>)
    ensures forall k :: k in order <==> k in stamps
    ensures |order| == |stamps|
    ensures Distinct(order)
    ensures forall i, j :: 0 <= i < j < |order| ==> stamps[order[i]] <= stamps[order[j]]
  {
    order := [];
    var todo := stamps.Keys;
    while todo != {}
      invariant todo <= stamps.Keys
      invariant forall k :: k in order <==> k in stamps && k !in todo
      invariant |order| + |todo| == |stamps|
      invariant Distinct(order)
      invariant forall i, j :: 0 <= i < j < |order| ==> stamps[order[i]] <= stamps[order[j]]
      decreases |todo|
    {
      var k :| k in todo;
      order := Insert(order, stamps, k);
      todo := todo - {k};
    }
  }

  method Insert<A(==)>(order: seq<A>, stamps: map<A, real>, k: A) returns (r: seq<A>)
    requires k !in order && k in stamps && (forall x :: x in order ==> x in stamps)
    requires Distinct(order)
    requires forall i, j :: 0 <= i < j < |order| ==> stamps[order[i]] <= stamps[order[j]]
    ensures |r| == |order| + 1 && Distinct(r) && (forall x :: x in r <==> x == k || x in order)
    ensures forall i, j :: 0 <= i < j < |r| ==> stamps[r[i]] <= stamps[r[j]]
  {
    var at := 0;
    while at < |order| && stamps[order[at]] <= stamps[k]
      invariant 0 <= at <= |order|
      invariant forall i :: 0 <= i < at ==> stamps[order[i]] <= stamps[k]
    {
      at := at + 1;
    }
    r := order[..at] + [k] + order[at..];
    InsertedAt(order, at, k);
  }

  lemma InsertedAt<A>(order: seq<A>, at: nat, k: A)
    requires at <= |order|
    ensures
      var r := order[..at] + [k] + order[at..];
      && |r| == |order| + 1
      && (forall i :: 0 <= i < |r| ==> r[i] == if i < at then order[i] else if i == at then k else order[i - 1])
      && (forall x :: x in r <==> x == k || x in order)
  {
    assert order == order[..at] + order[at..];
  }

  function Elements<A>(s: seq<A>): set<A> {
    set x | x in s
  }

  lemma ElementsGrow<A>(s: seq<A>, i: nat)
    requires i < |s|
    ensures Elements(s[..i + 1]) == Elements(s[..i]) + {s[i]}
  {
    assert s[..i + 1] == s[..i] + [s[i]];
  }

  lemma {:induction false} DistinctSize<A>(s: seq<A>)
    requires Distinct(s)
    ensures |Elements(s)| == |s|
  {
    if s != [] {
      var n := |s| - 1;
      DistinctSize(s[..n]);
      ElementsGrow(s, n);
      assert s[..n + 1] == s;
    }
  }

  /** The first entries of a sorted list are no newer than the rest. */
  lemma FirstAreOldest<A>(order: seq<A>, stamps: map<A, real>, n: nat)
    requires Distinct(order) && n <= |order| && (forall k :: k in order <==> k in stamps)
    requires forall i, j :: 0 <= i < j < |order| ==> stamps[order[i]] <= stamps[order[j]]
    ensures Elements(order[..n]) <= stamps.Keys && |Elements(order[..n])| == n
    ensures forall out, kept :: out in Elements(order[..n]) && kept in stamps.Keys - Elements(order[..n])
              ==> stamps[out] <= stamps[kept]
  {
    DistinctSize(order[..n]);
    forall out, kept | out in Elements(order[..n]) && kept in stamps.Keys - Elements(order[..n])
      ensures stamps[out] <= stamps[kept]
    {
      var i :| 0 <= i < n && order[i] == out;
      assert kept in order;
      var j :| 0 <= j < |order| && order[j] == kept;
      assert order[..n][i] == out;
      assert forall m :: 0 <= m < n ==> order[m] == order[..n][m];
    }
  }

  lemma DeleteTwice(s: K.Memory, a: set<string>, b: set<string>)
    ensures K.DeleteKeys(K.DeleteKeys(s, a), b) == K.DeleteKeys(s, a + b)
  {
    assert s.values - a - b == s.values - (a + b);
    assert s.expires - a - b == s.expires - (a + b);
    assert s.lastAccess - a - b == s.lastAccess - (a + b);
  }

  /** The keys of `start` outside `todo` have been examined and `gone` are those that had expired. */
  ghost predicate Examined(start: K.Memory, s: K.Memory, gone: set<string>, todo: set<string>, now: real) {
    && gone !! todo && gone + todo <= start.values.Keys
    && gone <= K.ExpiredKeys(start, now) <= gone + todo
    && s == K.DeleteKeys(start, gone)
  }

  /** One turn of the sweep over expired keys. */
  lemma SweepStarts(s: K.Memory, now: real)
    ensures Examined(s, s, {}, s.values.Keys, now)
  {
    assert s.values - {} == s.values && s.expires - {} == s.expires && s.lastAccess - {} == s.lastAccess;
  }

  lemma SweepEnds(start: K.Memory, s: K.Memory, gone: set<string>, now: real)
    requires Examined(start, s, gone, {}, now)
    ensures gone == K.ExpiredKeys(start, now) && s == K.DeleteKeys(start, K.ExpiredKeys(start, now))
    ensures gone == {} ==> s == start
  {
    SweepStarts(start, now);
  }

  lemma SweepTurn(
    start: K.Memory, s: K.Memory, gone: set<string>, todo: set<string>, candidate: string, now: real)
    requires Examined(start, s, gone, todo, now) && candidate in todo
    ensures Examined(start, K.DeleteIfExpired(s, candidate, now),
                     if K.Expired(s, candidate, now) then gone + {candidate} else gone, todo - {candidate}, now)
  {
    DeleteTwice(start, gone, {candidate});
    assert K.Expired(s, candidate, now) == K.Expired(start, candidate, now);
  }

  lemma TrimTurn(live: C.Table, order: seq<C.CounterKey>, i: nat)
    requires i < |order|
    ensures live - Elements(order[..i]) - {order[i]} == live - Elements(order[..i + 1])
  {
    ElementsGrow(order, i);
  }

  function Swept(history: seq<real>, active: C.ActiveRules, now: real, k: C.CounterKey): seq<real> {
    var w := C.ActiveWindow(active, k);
    if w.Some? then Prune(history, now - w.value as real) else history
  }

  /** The counters left of `todo` have been swept; `stale` names those to drop. */
  ghost predicate SweptSoFar(
    start: C.Table, t: C.Table, todo: set<C.CounterKey>, stale: set<C.CounterKey>, active: C.ActiveRules, now: real)
  {
    && todo <= start.Keys && t.Keys == start.Keys
    && (forall k :: k in start ==> t[k] == if k in todo then start[k] else Swept(start[k], active, now, k))
    && (forall k :: k in start ==> (k in stale <==> k !in todo && !C.SurvivesOrphanCleanup(start, active, now, k)))
  }

  lemma SweptOne(
    start: C.Table, t: C.Table, todo: set<C.CounterKey>, stale: set<C.CounterKey>, active: C.ActiveRules, now: real,
    k: C.CounterKey)
    requires SweptSoFar(start, t, todo, stale, active, now) && k in todo
    ensures SweptSoFar(start, t[k := Swept(t[k], active, now, k)], todo - {k},
                       if C.SurvivesOrphanCleanup(t, active, now, k) then stale else stale + {k}, active, now)
  {
    var t' := t[k := Swept(t[k], active, now, k)];
    assert t'.Keys == start.Keys;
  }

  lemma SweptAll(start: C.Table, t: C.Table, stale: set<C.CounterKey>, active: C.ActiveRules, now: real)
    requires SweptSoFar(start, t, {}, stale, active, now)
    ensures t - stale == C.CleanupOrphaned(start, active, now)
  {
  }

  class InMemoryStorage {
    const maxKeys: pos
    const maxCounters: pos
    var values: map<string, Value>
    var expires: map<string, real>
    var lastAccess: map<string, real>
    var requestCounters: C.Table

    constructor (maxKeys: pos, maxCounters: pos)
      ensures this.maxKeys == maxKeys && this.maxCounters == maxCounters
      ensures View() == K.EMPTY && requestCounters == map[]
    {
      this.maxKeys := maxKeys;
      this.maxCounters := maxCounters;
      values, expires, lastAccess, requestCounters := map[], map[], map[], map[];
    }

    /** The key/value half as one value. */
    function View(): K.Memory
      reads this`values, this`expires, this`lastAccess
    {
      K.Memory(values, expires, lastAccess)
    }

    // ------------------------------------------------------------ key/value half

    method Get(key: string, now: real) returns (value: Option<Value>)
      modifies this`values, this`expires, this`lastAccess
      ensures (View(), Found(value)) == K.Step(old(View()), TtlMap.Get(key), now, maxKeys, {})
    {
      var gone := DeleteIfExpired(key, now);
      if gone {
        return None;
      }
      value := if key in values then Some(values[key]) else None;
      if key in values {
        TouchKey(key, now);
      }
    }

    method Set(key: string, value: Value, expire: Option<pos>, now: real)
      returns (r: Response, ghost victims: set<string>)
      requires K.WellFormed(View(), maxKeys)
      modifies this`values, this`expires, this`lastAccess
      ensures K.LegalStep(old(View()), TtlMap.Set(key, value, expire), now, maxKeys, victims)
      ensures (View(), r) == K.Step(old(View()), TtlMap.Set(key, value, expire), now, maxKeys, victims)
    {
      var ok;
      ok, victims := EvictKeysIfNeeded(key, now);
      if !ok {
        return Unavailable, victims;
      }
      values := values[key := value];
      TouchKey(key, now);
      SetExpiry(key, now, expire);
      r := Done;
    }

    method Incr(key: string, expire: Option<pos>, now: real) returns (r: Response, ghost victims: set<string>)
      requires K.WellFormed(View(), maxKeys)
      modifies this`values, this`expires, this`lastAccess
      ensures K.LegalStep(old(View()), TtlMap.Incr(key, expire), now, maxKeys, victims)
      ensures (View(), r) == K.Step(old(View()), TtlMap.Incr(key, expire), now, maxKeys, victims)
    {
      var gone := DeleteIfExpired(key, now);
      if gone {
        K.DeleteKeepsWellFormed(old(View()), {key}, maxKeys);
      }
      var ok;
      ok, victims := EvictKeysIfNeeded(key, now);
      if !ok {
        return Unavailable, victims;
      }
      r := IncrementValue(key, expire, now);
    }

    method IncrementValue(key: string, expire: Option<pos>, now: real) returns (r: Response)
      modifies this`values, this`expires, this`lastAccess
      ensures (View(), r) == K.CountOne(old(View()), key, now, expire)
    {
      var base := if key in values then AsInt(values[key]) else Some(0);
      if base.None? {
        return NotANumber;
      }
      var current := base.value + 1;
      values := values[key := Number(current)];
      TouchKey(key, now);
      if expire.Some? {
        SetExpiry(key, now, expire);
      }
      r := Count(current);
    }

    method Delete(key: string)
      modifies this`values, this`expires, this`lastAccess
      ensures View() == K.DeleteKeys(old(View()), {key})
    {
      DeleteKey(key);
    }

    method EvictKeysIfNeeded(key: string, now: real) returns (ok: bool, ghost victims: set<string>)
      requires K.WellFormed(View(), maxKeys)
      modifies this`values, this`expires, this`lastAccess
      ensures K.LegalLru(old(View()), key, now, maxKeys, victims)
      ensures
        var room := K.MakeRoom(old(View()), key, now, maxKeys, victims);
        && ok == room.Some?
        && View() == if ok then room.value else old(View())
      ensures
        var ordinary := |K.OrdinaryKeys(old(View()))|;
        var batch := if maxKeys >= 10 then maxKeys / 10 else 1;
        key !in old(values) && |old(values)| == maxKeys && K.ExpiredKeys(old(View()), now) == {} ==>
          |victims| == if ordinary < batch then ordinary else batch
    {
      victims := {};
      if key in values || |values| < maxKeys {
        return true, victims;
      }
      var removed := DeleteAllExpired(now);
      if removed {
        return true, victims;
      }
      ok, victims := EvictLeastRecent();
    }

    /** The batch eviction of a full store in which nothing has expired. */
    method EvictLeastRecent() returns (ok: bool, ghost victims: set<string>)
      requires |values| >= maxKeys
      modifies this`values, this`expires, this`lastAccess
      ensures
        var s := old(View());
        && ok == (K.OrdinaryKeys(s) != {})
        && victims <= K.OrdinaryKeys(s) && |victims| == K.LruCount(s, maxKeys)
        && (forall out, kept ::
              out in victims && kept in K.OrdinaryKeys(s) - victims ==> s.lastAccess[out] <= s.lastAccess[kept])
        && View() == if ok then K.DeleteKeys(s, victims) else s
      ensures
        var ordinary := |K.OrdinaryKeys(old(View()))|;
        var batch := if maxKeys >= 10 then maxKeys / 10 else 1;
        |old(values)| == maxKeys ==> |victims| == if ordinary < batch then ordinary else batch
    {
      var overflow := C.Overflow(|values|, maxKeys);
      var stamps := map k | k in lastAccess && !K.IsIp(k) :: lastAccess[k];
      assert stamps.Keys == K.OrdinaryKeys(View());
      var oldestKeys := OldestFirst(stamps);
      var n := if |oldestKeys| < overflow then |oldestKeys| else overflow;
      FirstAreOldest(oldestKeys, stamps, n);
      victims := Elements(oldestKeys[..n]);
      assert |oldestKeys| == |stamps.Keys|;
      if oldestKeys == [] {
        return false, victims;
      }
      assert oldestKeys[0] in K.OrdinaryKeys(View());
      DeleteAll(oldestKeys[..n]);
      ok := true;
    }

    /** The sweep over every key of a full store. */
    method DeleteAllExpired(now: real) returns (removed: bool)
      modifies this`values, this`expires, this`lastAccess
      ensures View() == K.DeleteKeys(old(View()), K.ExpiredKeys(old(View()), now))
      ensures removed == (K.ExpiredKeys(old(View()), now) != {})
      ensures !removed ==> View() == old(View())
    {
      removed := false;
      ghost var start := View();
      var todo := values.Keys;
      ghost var gone: set<string> := {};
      SweepStarts(start, now);
      while todo != {}
        invariant Examined(start, View(), gone, todo, now)
        invariant removed == (gone != {})
        decreases |todo|
      {
        var candidate :| candidate in todo;
        SweepTurn(start, View(), gone, todo, candidate, now);
        var expired := DeleteIfExpired(candidate, now);
        if expired {
          removed, gone := true, gone + {candidate};
        }
        todo := todo - {candidate};
      }
      SweepEnds(start, View(), gone, now);
    }

    method DeleteAll(keys: seq<string>)
      modifies this`values, this`expires, this`lastAccess
      ensures View() == K.DeleteKeys(old(View()), Elements(keys))
    {
      ghost var start := View();
      for i := 0 to |keys|
        invariant View() == K.DeleteKeys(start, Elements(keys[..i]))
      {
        DeleteKey(keys[i]);
        ElementsGrow(keys, i);
        DeleteTwice(start, Elements(keys[..i]), {keys[i]});
      }
      assert keys[..|keys|] == keys;
    }

    method SetExpiry(key: string, now: real, expire: Option<pos>)
      modifies this`expires
      ensures View() == K.SetExpiry(old(View()), key, now, expire)
    {
      if expire.None? {
        expires := expires - {key};
        return;
      }
      expires := expires[key := now + expire.value as real];
    }

    method DeleteIfExpired(key: string, now: real) returns (gone: bool)
      modifies this`values, this`expires, this`lastAccess
      ensures gone == K.Expired(old(View()), key, now)
      ensures View() == K.DeleteIfExpired(old(View()), key, now)
    {
      if key !in expires || expires[key] > now {
        return false;
      }
      DeleteKey(key);
      gone := true;
    }

    method DeleteKey(key: string)
      modifies this`values, this`expires, this`lastAccess
      ensures View() == K.DeleteKeys(old(View()), {key})
    {
      values := values - {key};
      expires := expires - {key};
      lastAccess := lastAccess - {key};
    }

    method TouchKey(key: string, now: real)
      modifies this`lastAccess
      ensures View() == K.Touch(old(View()), key, now)
    {
      lastAccess := lastAccess[key := now];
    }

    // -------------------------------------------------------------- counter half

    method RecordHit(requestKey: string, handler: string, index: nat, window: pos, maxHits: Option<pos>, now: real)
      returns (r: HitResult, ghost victims: set<C.CounterKey>)
      modifies this`requestCounters
      ensures
        var k := C.CounterKey(requestKey, handler, index);
        && (k !in old(requestCounters) ==> C.LegalVictims(old(requestCounters), maxCounters, victims))
        && requestCounters == C.RecordHit(old(requestCounters), k, now, window, maxHits, maxCounters, victims)
        && r == Report(requestCounters[k], now, maxHits)
    {
      var k := C.CounterKey(requestKey, handler, index);
      victims := {};
      if k !in requestCounters {
        victims := EvictCountersIfNeeded();
        requestCounters := requestCounters[k := []];
      }
      var history := CleanupCounter(requestCounters[k], now, window);
      if maxHits.None? || |history| < maxHits.value {
        history := history + [now];
      }
      requestCounters := requestCounters[k := history];
      r := HitResult(
        |history|,
        if history != [] then Some(history[0]) else None,
        now,
        if maxHits.Some? && maxHits.value > 1 && |history| >= maxHits.value
        then Some(history[|history| - maxHits.value + 1]) else None);
    }

    method EvictCountersIfNeeded() returns (ghost victims: set<C.CounterKey>)
      modifies this`requestCounters
      ensures C.LegalVictims(old(requestCounters), maxCounters, victims)
      ensures requestCounters == C.Evict(old(requestCounters), maxCounters, victims)
      ensures |set k | k in old(requestCounters) && old(requestCounters)[k] != []| >= maxCounters ==>
                |requestCounters| == if maxCounters >= 10 then maxCounters - maxCounters / 10 else maxCounters - 1
    {
      victims := {};
      C.LiveSize(requestCounters);
      if |requestCounters| < maxCounters {
        return;
      }
      ghost var before := requestCounters;
      requestCounters := C.WithoutEmpty(requestCounters);
      if |requestCounters| < maxCounters {
        return;
      }
      victims := TrimOldest();
      C.EvictMakesRoom(before, maxCounters, victims);
    }

    /** The capacity trim, on a table from which the empty histories are gone. */
    method TrimOldest() returns (ghost victims: set<C.CounterKey>)
      requires |requestCounters| >= maxCounters && (forall k :: k in requestCounters ==> requestCounters[k] != [])
      modifies this`requestCounters
      ensures
        var live := old(requestCounters);
        && victims <= live.Keys && |victims| == C.Overflow(|live|, maxCounters)
        && (forall out, kept ::
              out in victims && kept in live.Keys - victims ==> C.LastHit(live, out) <= C.LastHit(live, kept))
        && requestCounters == live - victims
    {
      ghost var live := requestCounters;
      var overflow := C.Overflow(|requestCounters|, maxCounters);
      var stamps := map k | k in requestCounters :: C.LastHit(requestCounters, k);
      assert stamps.Keys == live.Keys;
      assert |stamps| == |stamps.Keys|;
      var oldestKeys := OldestFirst(stamps);
      FirstAreOldest(oldestKeys, stamps, overflow);
      victims := Elements(oldestKeys[..overflow]);
      for i := 0 to overflow
        invariant requestCounters == live - Elements(oldestKeys[..i])
      {
        requestCounters := requestCounters - {oldestKeys[i]};
        TrimTurn(live, oldestKeys, i);
      }
    }

    method CleanupHandlerCounters(handler: string)
      modifies this
      ensures requestCounters == C.CleanupHandler(old(requestCounters), handler)
      ensures View() == K.Apply(old(View()), K.DropApprox(handler), maxKeys)
    {
      requestCounters := map k | k in requestCounters && k.handler != handler :: requestCounters[k];
      DeleteApproxKeys(handler);
    }

    method DeleteApproxKeys(handler: string)
      modifies this`values, this`expires, this`lastAccess
      ensures View() == K.DeleteKeys(old(View()), K.ApproxKeys(old(View()), handler))
    {
      var approxPrefix := ApproxHandlerPrefix(handler);
      ghost var start := View();
      var todo := set k | k in values && IsPrefix(approxPrefix, k);
      ghost var done: set<string> := {};
      SweepStarts(start, 0.0);
      while todo != {}
        invariant done + todo == K.ApproxKeys(start, handler)
        invariant View() == K.DeleteKeys(start, done)
        decreases |todo|
      {
        var approxKey :| approxKey in todo;
        DeleteTwice(start, done, {approxKey});
        DeleteKey(approxKey);
        todo, done := todo - {approxKey}, done + {approxKey};
      }
    }

    method CleanupOrphanedCounters(active: C.ActiveRules, now: real)
      modifies this`requestCounters
      ensures requestCounters == C.CleanupOrphaned(old(requestCounters), active, now)
    {
      ghost var start := requestCounters;
      var todo := requestCounters.Keys;
      var staleKeys: set<C.CounterKey> := {};
      while todo != {}
        invariant SweptSoFar(start, requestCounters, todo, staleKeys, active, now)
        decreases |todo|
      {
        var k :| k in todo;
        SweptOne(start, requestCounters, todo, staleKeys, active, now, k);
        var stale := SweepOne(k, active, now);
        if stale {
          staleKeys := staleKeys + {k};
        }
        todo := todo - {k};
      }
      SweptAll(start, requestCounters, staleKeys, active, now);
      requestCounters := requestCounters - staleKeys;
    }

    /** One turn of the orphan sweep; answers whether the counter is stale. */
    method SweepOne(k: C.CounterKey, active: C.ActiveRules, now: real) returns (stale: bool)
      requires k in requestCounters
      modifies this`requestCounters
      ensures requestCounters == old(requestCounters)[k := Swept(old(requestCounters)[k], active, now, k)]
      ensures stale == !C.SurvivesOrphanCleanup(old(requestCounters), active, now, k)
    {
      if k.handler !in active || k.index >= |active[k.handler]| {
        return true;
      }
      var windowSeconds := active[k.handler][k.index];
      if windowSeconds.None? {
        return true;
      }
      var history := CleanupCounter(requestCounters[k], now, windowSeconds.value);
      requestCounters := requestCounters[k := history];
      stale := history == [];
    }
  }
}
