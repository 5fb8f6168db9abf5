/**
  The key/value half of the in-memory store: lazy expiry, capacity eviction
  that spares `ip:` entries, and its agreement with the simple expiring map.
 */
module KeyValue {
  import opened Prelude
  import opened TtlMap
  import opened KeyStrings
  import opened CounterTable

  datatype Memory = Memory(values: map<string, Value>, expires: map<string, real>, lastAccess: map<string, real>)

  const EMPTY := Memory(map[], map[], map[])
  const IP_PREFIX := "ip:"

  predicate IsIp(k: string) {
    IsPrefix(IP_PREFIX, k)
  }

  predicate WellFormed(s: Memory, capacity: pos) {
    s.lastAccess.Keys == s.values.Keys && s.expires.Keys <= s.values.Keys && |s.values| <= capacity
  }

  /** The expiring map this state stands for. */
  function Abs(s: Memory): Store {
    map k | k in s.values :: Entry(s.values[k], if k in s.expires then Some(s.expires[k]) else None)
  }

  // --------------------------------------------------------------- operations

  predicate Expired(s: Memory, k: string, now: real) {
    k in s.expires && s.expires[k] <= now
  }

  function DeleteKeys(s: Memory, keys: set<string>): Memory {
    Memory(s.values - keys, s.expires - keys, s.lastAccess - keys)
  }

  function DeleteIfExpired(s: Memory, k: string, now: real): Memory {
    if Expired(s, k, now) then DeleteKeys(s, {k}) else s
  }

  function ExpiredKeys(s: Memory, now: real): set<string> {
    set k | k in s.values && Expired(s, k, now)
  }

  function OrdinaryKeys(s: Memory): set<string> {
    set k | k in s.lastAccess && !IsIp(k)
  }

  predicate IsFull(s: Memory, k: string, capacity: pos) {
    k !in s.values && |s.values| >= capacity
  }

  /** A full store with nothing expired has to push out ordinary keys. */
  predicate NeedsLru(s: Memory, k: string, now: real, capacity: pos) {
    IsFull(s, k, capacity) && ExpiredKeys(s, now) == {}
  }

  function LruCount(s: Memory, capacity: pos): nat
    requires |s.values| >= capacity
  {
    var overflow := Overflow(|s.values|, capacity);
    if |OrdinaryKeys(s)| < overflow then |OrdinaryKeys(s)| else overflow
  }

  /** A choice of victims that sorting by last access can produce; ties are free. */
  ghost predicate LegalLru(s: Memory, k: string, now: real, capacity: pos, victims: set<string>) {
    NeedsLru(s, k, now, capacity) ==>
      && victims <= OrdinaryKeys(s)
      && |victims| == LruCount(s, capacity)
      && (forall out, kept ::
            out in victims && kept in OrdinaryKeys(s) - victims ==> s.lastAccess[out] <= s.lastAccess[kept])
  }

  /** None stands for StorageUnavailableError. */
  function MakeRoom(s: Memory, k: string, now: real, capacity: pos, victims: set<string>): Option<Memory> {
    if !IsFull(s, k, capacity) then Some(s)
    else if ExpiredKeys(s, now) != {} then Some(DeleteKeys(s, ExpiredKeys(s, now)))
    else if OrdinaryKeys(s) == {} then None
    else Some(DeleteKeys(s, victims))
  }

  function Touch(s: Memory, k: string, now: real): Memory {
    s.(lastAccess := s.lastAccess[k := now])
  }

  function WriteValue(s: Memory, k: string, v: Value, now: real): Memory {
    Touch(s.(values := s.values[k := v]), k, now)
  }

  function SetExpiry(s: Memory, k: string, now: real, expire: Option<pos>): Memory {
    s.(expires := if expire.None? then s.expires - {k} else s.expires[k := now + expire.value as real])
  }

  function GetNext(s: Memory, k: string, now: real): Memory {
    if Expired(s, k, now) then DeleteKeys(s, {k})
    else if k in s.values then Touch(s, k, now)
    else s
  }

  function GetValue(s: Memory, k: string, now: real): Option<Value> {
    if !Expired(s, k, now) && k in s.values then Some(s.values[k]) else None
  }

  /** The counting itself, once there is room. */
  function CountOne(s: Memory, k: string, now: real, expire: Option<pos>): (Memory, Response) {
    var base := if k in s.values then AsInt(s.values[k]) else Some(0);
    if base.None? then (s, NotANumber)
    else
      var s' := WriteValue(s, k, Number(base.value + 1), now);
      (if expire.Some? then SetExpiry(s', k, now, expire) else s', Count(base.value + 1))
  }

  function Step(s: Memory, op: Op, now: real, capacity: pos, victims: set<string>): (Memory, Response) {
    match op
    case Get(k) => (GetNext(s, k, now), Found(GetValue(s, k, now)))
    case Set(k, v, expire) =>
      var room := MakeRoom(s, k, now, capacity, victims);
      if room.None? then (s, Unavailable)
      else (SetExpiry(WriteValue(room.value, k, v, now), k, now, expire), Done)
    case Incr(k, expire) =>
      var s1 := DeleteIfExpired(s, k, now);
      var room := MakeRoom(s1, k, now, capacity, victims);
      if room.None? then (s1, Unavailable) else CountOne(room.value, k, now, expire)
    case Delete(k) => (DeleteKeys(s, {k}), Done)
  }

  /** The state on which room is made: `incr` first drops its own expired key. */
  function BeforeRoom(s: Memory, op: Op, now: real): Memory {
    if op.Incr? then DeleteIfExpired(s, op.key, now) else s
  }

  ghost predicate LegalStep(s: Memory, op: Op, now: real, capacity: pos, victims: set<string>) {
    op.Set? || op.Incr? ==> LegalLru(BeforeRoom(s, op, now), op.key, now, capacity, victims)
  }

  // ----------------------------------------------------------- store invariant

  lemma DeletedSize(s: Memory, keys: set<string>)
    requires keys <= s.values.Keys
    ensures |DeleteKeys(s, keys).values| == |s.values| - |keys|
  {
    assert (s.values - keys).Keys == s.values.Keys - keys;
    assert |s.values - keys| == |s.values.Keys - keys| == |s.values| - |keys|;
  }

  lemma DeleteKeepsWellFormed(s: Memory, keys: set<string>, capacity: pos)
    requires WellFormed(s, capacity)
    ensures WellFormed(DeleteKeys(s, keys), capacity)
  {
    var gone := keys * s.values.Keys;
    DeletedSize(s, gone);
    assert DeleteKeys(s, keys).values == DeleteKeys(s, gone).values;
  }

  /** Making room, when it succeeds, leaves space for the new key. */
  lemma RoomIsMade(s: Memory, k: string, now: real, capacity: pos, victims: set<string>)
    requires WellFormed(s, capacity) && LegalLru(s, k, now, capacity, victims)
    ensures
      var room := MakeRoom(s, k, now, capacity, victims);
      room.Some? ==> WellFormed(room.value, capacity) && (k in room.value.values || |room.value.values| < capacity)
  {
    if IsFull(s, k, capacity) {
      if ExpiredKeys(s, now) != {} {
        DeleteKeepsWellFormed(s, ExpiredKeys(s, now), capacity);
        DeletedSize(s, ExpiredKeys(s, now));
      } else if OrdinaryKeys(s) != {} {
        assert |OrdinaryKeys(s)| > 0;
        DeleteKeepsWellFormed(s, victims, capacity);
        DeletedSize(s, victims);
      }
    }
  }

  lemma StoreKeepsWellFormed(s: Memory, k: string, v: Value, now: real, expire: Option<pos>, capacity: pos)
    requires WellFormed(s, capacity) && (k in s.values || |s.values| < capacity)
    ensures WellFormed(WriteValue(s, k, v, now), capacity)
    ensures WellFormed(SetExpiry(WriteValue(s, k, v, now), k, now, expire), capacity)
  {
    assert s.values[k := v].Keys == s.values.Keys + {k};
    assert |s.values[k := v]| == |s.values.Keys + {k}|;
    if k in s.values {
      assert s.values.Keys + {k} == s.values.Keys;
    }
  }

  lemma CountKeepsWellFormed(s: Memory, k: string, now: real, expire: Option<pos>, capacity: pos)
    requires WellFormed(s, capacity) && (k in s.values || |s.values| < capacity)
    ensures WellFormed(CountOne(s, k, now, expire).0, capacity)
  {
    var r := CountOne(s, k, now, expire).1;
    if r.Count? {
      StoreKeepsWellFormed(s, k, Number(r.n), now, expire, capacity);
    }
  }

  /** `_last_access` and `_values` keep the same keys, `_expires` a subset, and the size stays bounded. */
  lemma StepKeepsWellFormed(s: Memory, op: Op, now: real, capacity: pos, victims: set<string>)
    requires WellFormed(s, capacity) && LegalStep(s, op, now, capacity, victims)
    ensures WellFormed(Step(s, op, now, capacity, victims).0, capacity)
  {
    var k := op.key;
    DeleteKeepsWellFormed(s, {k}, capacity);
    if op.Set? || op.Incr? {
      var s1 := BeforeRoom(s, op, now);
      RoomIsMade(s1, k, now, capacity, victims);
      var room := MakeRoom(s1, k, now, capacity, victims);
      if room.Some? {
        if op.Set? {
          StoreKeepsWellFormed(room.value, k, op.value, now, op.expire, capacity);
        } else {
          CountKeepsWellFormed(room.value, k, now, op.expire, capacity);
        }
      }
    } else if op.Get? && !Expired(s, k, now) && k in s.values {
      assert Touch(s, k, now).lastAccess.Keys == s.lastAccess.Keys;
    }
  }

  /** A full store of live `ip:` entries that lacks the key. */
  predicate FullOfLiveIps(s: Memory, k: string, now: real, capacity: pos) {
    && k !in s.values && |s.values| == capacity
    && (forall j :: j in s.values ==> IsIp(j) && !Expired(s, j, now))
  }

  /** StorageUnavailableError comes exactly for a new key on a full store of live `ip:` entries, and changes nothing. */
  lemma UnavailableExactly(s: Memory, op: Op, now: real, capacity: pos, victims: set<string>)
    requires WellFormed(s, capacity)
    ensures Step(s, op, now, capacity, victims).1.Unavailable?
            <==> (op.Set? || op.Incr?) && FullOfLiveIps(s, op.key, now, capacity)
    ensures Step(s, op, now, capacity, victims).1.Unavailable? ==> Step(s, op, now, capacity, victims).0 == s
  {
    if op.Set? || op.Incr? {
      var s1 := BeforeRoom(s, op, now);
      if op.key in s.values && s1 != s {
        DeletedSize(s, {op.key});
      }
      assert forall j :: j in s.values && !IsIp(j) ==> j in OrdinaryKeys(s);
      assert forall j :: j in s.values && Expired(s, j, now) ==> j in ExpiredKeys(s, now);
      assert FullOfLiveIps(s, op.key, now, capacity) ==> OrdinaryKeys(s) == {} && ExpiredKeys(s, now) == {};
    }
  }

  /** The eviction of a full store with nothing expired takes the least recently accessed ordinary keys. */
  lemma EvictionIsLru(s: Memory, k: string, now: real, capacity: pos, victims: set<string>)
    requires WellFormed(s, capacity) && NeedsLru(s, k, now, capacity) && OrdinaryKeys(s) != {}
    requires LegalLru(s, k, now, capacity, victims)
    ensures
      var room := MakeRoom(s, k, now, capacity, victims);
      && room.Some?
      && (forall j :: j in s.values && IsIp(j) ==> j in room.value.values && room.value.values[j] == s.values[j])
      && (forall out, kept :: out in s.values && out !in room.value.values && kept in room.value.values && !IsIp(kept)
            ==> s.lastAccess[out] <= s.lastAccess[kept])
      && (var batch := if capacity >= 10 then capacity / 10 else 1;
          |s.values| - |room.value.values| == if |OrdinaryKeys(s)| < batch then |OrdinaryKeys(s)| else batch)
  {
    DeletedSize(s, victims);
  }

  // --------------------------------------------------- agreement with the map

  lemma DeleteExpiredUnseen(s: Memory, keys: set<string>, now: real, k: string)
    requires forall j :: j in keys ==> Expired(s, j, now)
    ensures Live(Abs(DeleteKeys(s, keys)), k, now) == Live(Abs(s), k, now)
  {
  }

  /** Making room hides nothing that is live, except the victims of an LRU eviction. */
  lemma RoomUnseen(s: Memory, k: string, now: real, capacity: pos, victims: set<string>, j: string)
    requires LegalLru(s, k, now, capacity, victims) && (IsIp(j) || !NeedsLru(s, k, now, capacity))
    requires MakeRoom(s, k, now, capacity, victims).Some?
    ensures Live(Abs(MakeRoom(s, k, now, capacity, victims).value), j, now) == Live(Abs(s), j, now)
  {
    if IsFull(s, k, capacity) && ExpiredKeys(s, now) != {} {
      DeleteExpiredUnseen(s, ExpiredKeys(s, now), now, j);
    }
  }

  /** Writing a key is visible through that key alone. */
  lemma WriteSeen(s: Memory, k: string, v: Value, now: real, j: string)
    ensures
      var s' := WriteValue(s, k, v, now);
      && (j != k ==> Live(Abs(s'), j, now) == Live(Abs(s), j, now))
      && (j == k ==> k in Abs(s') && Abs(s')[k] == Entry(v, if k in s.expires then Some(s.expires[k]) else None))
  {
  }

  lemma ExpirySeen(s: Memory, k: string, now: real, expire: Option<pos>, j: string)
    requires k in s.values
    ensures
      var s' := SetExpiry(s, k, now, expire);
      && (j != k ==> Live(Abs(s'), j, now) == Live(Abs(s), j, now))
      && (j == k ==> k in Abs(s') && Abs(s')[k] == Entry(s.values[k], Deadline(expire, now)))
  {
  }

  /** One step agrees with the expiring map at key `j`. */
  ghost predicate AgreesAt(s: Memory, op: Op, now: real, after: Memory, r: Response, j: string) {
    var live := Live(Abs(s), j, now);
    if r.Unavailable? || op.key != j then Live(Abs(after), j, now) == live
    else r == Reply(live, op) && Live(Abs(after), j, now) == Left(live, op, now)
  }

  ghost predicate Spared(s: Memory, op: Op, now: real, capacity: pos, j: string) {
    IsIp(j) || (op.Set? || op.Incr? ==> !NeedsLru(BeforeRoom(s, op, now), op.key, now, capacity))
  }

  lemma SetAgrees(s: Memory, op: Op, now: real, capacity: pos, victims: set<string>, j: string)
    requires op.Set? && LegalStep(s, op, now, capacity, victims) && Spared(s, op, now, capacity, j)
    ensures var (s', r) := Step(s, op, now, capacity, victims); AgreesAt(s, op, now, s', r, j)
  {
    var room := MakeRoom(s, op.key, now, capacity, victims);
    if room.Some? {
      RoomUnseen(s, op.key, now, capacity, victims, j);
      SetSeen(room.value, op.key, op.value, now, op.expire, j);
    }
  }

  lemma SetSeen(s: Memory, k: string, v: Value, now: real, expire: Option<pos>, j: string)
    ensures
      var s' := SetExpiry(WriteValue(s, k, v, now), k, now, expire);
      Live(Abs(s'), j, now) == if j == k then Some(Entry(v, Deadline(expire, now))) else Live(Abs(s), j, now)
  {
    WriteSeen(s, k, v, now, j);
    ExpirySeen(WriteValue(s, k, v, now), k, now, expire, j);
  }

  lemma IncrAgrees(s: Memory, op: Op, now: real, capacity: pos, victims: set<string>, j: string)
    requires WellFormed(s, capacity) && op.Incr?
    requires LegalStep(s, op, now, capacity, victims) && Spared(s, op, now, capacity, j)
    ensures var (s', r) := Step(s, op, now, capacity, victims); AgreesAt(s, op, now, s', r, j)
  {
    var k := op.key;
    var s1 := BeforeRoom(s, op, now);
    assert Live(Abs(s1), j, now) == Live(Abs(s), j, now) && Live(Abs(s1), k, now) == Live(Abs(s), k, now) by {
      if s1 != s {
        DeleteExpiredUnseen(s, {k}, now, j);
        DeleteExpiredUnseen(s, {k}, now, k);
      }
    }
    assert !Expired(s1, k, now);
    var room := MakeRoom(s1, k, now, capacity, victims);
    if room.Some? {
      RoomUnseen(s1, k, now, capacity, victims, j);
      RoomKeepsKey(s1, k, now, capacity, victims);
      CountSeen(room.value, k, now, op.expire, j);
    }
  }

  lemma CountSeen(s: Memory, k: string, now: real, expire: Option<pos>, j: string)
    requires s.expires.Keys <= s.values.Keys && !Expired(s, k, now)
    ensures
      var (s', r) := CountOne(s, k, now, expire);
      var live := Live(Abs(s), k, now);
      && r == Reply(live, Incr(k, expire))
      && Live(Abs(s'), j, now) == if j == k then Left(live, Incr(k, expire), now) else Live(Abs(s), j, now)
  {
    var r := CountOne(s, k, now, expire).1;
    if r.Count? {
      WriteSeen(s, k, Number(r.n), now, j);
      ExpirySeen(WriteValue(s, k, Number(r.n), now), k, now, expire, j);
    }
  }

  lemma RoomKeepsKey(s: Memory, k: string, now: real, capacity: pos, victims: set<string>)
    requires s.lastAccess.Keys == s.values.Keys && s.expires.Keys <= s.values.Keys
    requires LegalLru(s, k, now, capacity, victims) && MakeRoom(s, k, now, capacity, victims).Some?
    ensures
      var s' := MakeRoom(s, k, now, capacity, victims).value;
      && (k in s'.values <==> k in s.values) && (k in s.values ==> s' == s)
      && s'.expires.Keys <= s'.values.Keys
  {
  }

  /** One call agrees with the expiring map at every key it may not evict. */
  lemma StepAgrees(s: Memory, op: Op, now: real, capacity: pos, victims: set<string>, j: string)
    requires WellFormed(s, capacity) && LegalStep(s, op, now, capacity, victims) && Spared(s, op, now, capacity, j)
    ensures var (s', r) := Step(s, op, now, capacity, victims); AgreesAt(s, op, now, s', r, j)
  {
    if op.Set? {
      SetAgrees(s, op, now, capacity, victims, j);
    } else if op.Incr? {
      IncrAgrees(s, op, now, capacity, victims, j);
    }
  }

  // ---------------------------------------------------------------------- runs

  /** A call on the store, or the deletion of a handler's bucket counters. */
  datatype Event =
    | Access(op: Op, now: real, victims: set<string>)
    | DropApprox(handler: string)

  function ApproxKeys(s: Memory, handler: string): set<string> {
    set k | k in s.values && IsPrefix(ApproxHandlerPrefix(handler), k)
  }

  function Apply(s: Memory, e: Event, capacity: pos): Memory {
    match e
    case Access(op, now, victims) => Step(s, op, now, capacity, victims).0
    case DropApprox(handler) => DeleteKeys(s, ApproxKeys(s, handler))
  }

  function RunStore(events: seq<Event>, capacity: pos): Memory {
    if events == [] then EMPTY
    else Apply(RunStore(events[..|events| - 1], capacity), events[|events| - 1], capacity)
  }

  /** The answer to the last call of a run. */
  function LastAnswer(events: seq<Event>, capacity: pos): Response
    requires events != [] && events[|events| - 1].Access?
  {
    var e := events[|events| - 1];
    Step(RunStore(events[..|events| - 1], capacity), e.op, e.now, capacity, e.victims).1
  }

  ghost predicate LegalRun(events: seq<Event>, capacity: pos) {
    events == [] ||
    var n := |events| - 1;
    && LegalRun(events[..n], capacity)
    && (events[n].Access? ==>
          LegalStep(RunStore(events[..n], capacity), events[n].op, events[n].now, capacity, events[n].victims))
  }

  ghost predicate Before(events: seq<Event>, now: real) {
    events == [] ||
    var n := |events| - 1;
    if events[n].Access? then events[n].now <= now && Before(events[..n], events[n].now) else Before(events[..n], now)
  }

  lemma {:induction false} StoreStaysWellFormed(events: seq<Event>, capacity: pos)
    requires LegalRun(events, capacity)
    ensures WellFormed(RunStore(events, capacity), capacity)
  {
    if events != [] {
      var n := |events| - 1;
      StoreStaysWellFormed(events[..n], capacity);
      var s := RunStore(events[..n], capacity);
      match events[n] {
        case Access(op, now, victims) => StepKeepsWellFormed(s, op, now, capacity, victims);
        case DropApprox(handler) => DeleteKeepsWellFormed(s, ApproxKeys(s, handler), capacity);
      }
    }
  }

  // ------------------------------------------------ least recently used, in truth

  /** Reading, writing or counting a key is an access to it, unless the call raises. */
  predicate IsAccess(op: Op, r: Response) {
    !op.Delete? && !r.NotANumber? && !r.Unavailable?
  }

  /** When the traffic last accessed a key, told from the calls and their answers alone. */
  function LastAccessOf(events: seq<Event>, capacity: pos, k: string): Option<real> {
    if events == [] then None
    else
      var e := events[|events| - 1];
      if e.Access? && e.op.key == k && IsAccess(e.op, LastAnswer(events, capacity)) then Some(e.now)
      else LastAccessOf(events[..|events| - 1], capacity, k)
  }

  lemma RoomKeepsAccess(s: Memory, k: string, now: real, capacity: pos, victims: set<string>, j: string)
    requires s.lastAccess.Keys == s.values.Keys && MakeRoom(s, k, now, capacity, victims).Some?
    requires j in MakeRoom(s, k, now, capacity, victims).value.values
    ensures
      var s' := MakeRoom(s, k, now, capacity, victims).value;
      j in s.values && j in s'.lastAccess && s'.lastAccess[j] == s.lastAccess[j]
  {
  }

  ghost predicate AccessFollows(s: Memory, op: Op, now: real, s': Memory, r: Response, j: string) {
    && j in s'.lastAccess
    && if j == op.key && IsAccess(op, r) then s'.lastAccess[j] == now
       else j in s.values && j in s.lastAccess && s'.lastAccess[j] == s.lastAccess[j]
  }

  lemma CountOneTouches(s: Memory, k: string, now: real, expire: Option<pos>)
    ensures
      var (s', r) := CountOne(s, k, now, expire);
      && (r.Count? || (r.NotANumber? && s' == s))
      && (r.Count? ==> s'.values.Keys == s.values.Keys + {k} && s'.lastAccess == s.lastAccess[k := now])
  {
  }

  lemma CountKeepsAccess(s: Memory, op: Op, now: real, capacity: pos, victims: set<string>, j: string)
    requires op.Incr? && s.lastAccess.Keys == s.values.Keys && j in Step(s, op, now, capacity, victims).0.values
    ensures AccessFollows(s, op, now, Step(s, op, now, capacity, victims).0, Step(s, op, now, capacity, victims).1, j)
  {
    var s1 := BeforeRoom(s, op, now);
    var room := MakeRoom(s1, op.key, now, capacity, victims);
    if room.Some? {
      CountOneTouches(room.value, op.key, now, op.expire);
      if j in room.value.values {
        RoomKeepsAccess(s1, op.key, now, capacity, victims, j);
      }
    }
  }

  lemma WriteKeepsAccess(s: Memory, op: Op, now: real, capacity: pos, victims: set<string>, j: string)
    requires op.Set? && s.lastAccess.Keys == s.values.Keys && j in Step(s, op, now, capacity, victims).0.values
    ensures
      var (s', r) := Step(s, op, now, capacity, victims);
      AccessFollows(s, op, now, s', r, j)
  {
    if MakeRoom(s, op.key, now, capacity, victims).Some? && j != op.key {
      RoomKeepsAccess(s, op.key, now, capacity, victims, j);
    }
  }

  lemma StepKeepsAccess(s: Memory, op: Op, now: real, capacity: pos, victims: set<string>, j: string)
    requires s.lastAccess.Keys == s.values.Keys && j in Step(s, op, now, capacity, victims).0.values
    ensures
      var (s', r) := Step(s, op, now, capacity, victims);
      AccessFollows(s, op, now, s', r, j)
  {
    match op
    case Set(_, _, _) => WriteKeepsAccess(s, op, now, capacity, victims, j);
    case Incr(_, _) => CountKeepsAccess(s, op, now, capacity, victims, j);
    case Get(_) =>
    case Delete(_) =>
  }

  /** The access times the store keeps are those of the traffic. */
  lemma {:induction false} AccessTimesAreTrue(events: seq<Event>, capacity: pos, k: string)
    requires LegalRun(events, capacity) && k in RunStore(events, capacity).values
    ensures k in RunStore(events, capacity).lastAccess
    ensures LastAccessOf(events, capacity, k) == Some(RunStore(events, capacity).lastAccess[k])
  {
    var n := |events| - 1;
    var s := RunStore(events[..n], capacity);
    StoreStaysWellFormed(events[..n], capacity);
    match events[n]
    case Access(op, now, victims) =>
      StepKeepsAccess(s, op, now, capacity, victims, k);
      if !(op.key == k && IsAccess(op, LastAnswer(events, capacity))) {
        AccessTimesAreTrue(events[..n], capacity, k);
      }
    case DropApprox(_) =>
      AccessTimesAreTrue(events[..n], capacity, k);
  }

  /** What the last call of a run pushed out although it had not expired. */
  ghost predicate PushedOut(events: seq<Event>, capacity: pos, out: string)
    requires events != [] && events[|events| - 1].Access?
  {
    var s, e := RunStore(events[..|events| - 1], capacity), events[|events| - 1];
    && !e.op.Delete? && out in s.values && !Expired(s, out, e.now) && out !in RunStore(events, capacity).values
  }

  /** An ordinary key, other than the one the last call was about, that is there after it. */
  ghost predicate Stayed(events: seq<Event>, capacity: pos, kept: string)
    requires events != [] && events[|events| - 1].Access?
  {
    kept in RunStore(events, capacity).values && !IsIp(kept) && kept != events[|events| - 1].op.key
  }

  ghost predicate NoLaterThan(a: Option<real>, b: Option<real>) {
    a.Some? && b.Some? && a.value <= b.value
  }

  /**
    In every run, a live key that a call pushes out is an ordinary one, and no
    ordinary key that survives the call was accessed earlier than it.
   */
  lemma LeastRecentlyUsedGoFirst(events: seq<Event>, capacity: pos, out: string, kept: string)
    requires LegalRun(events, capacity) && events != [] && events[|events| - 1].Access?
    ensures PushedOut(events, capacity, out) ==> !IsIp(out)
    ensures PushedOut(events, capacity, out) && Stayed(events, capacity, kept) ==>
              var before := events[..|events| - 1];
              NoLaterThan(LastAccessOf(before, capacity, out), LastAccessOf(before, capacity, kept))
  {
    var n := |events| - 1;
    var s, e := RunStore(events[..n], capacity), events[n];
    if PushedOut(events, capacity, out) {
      StoreStaysWellFormed(events[..n], capacity);
      PushedOutByLru(s, e.op, e.now, capacity, e.victims, out);
      AccessTimesAreTrue(events[..n], capacity, out);
      if Stayed(events, capacity, kept) {
        StepKeepsAccess(s, e.op, e.now, capacity, e.victims, kept);
        AccessTimesAreTrue(events[..n], capacity, kept);
        SurvivorIsNoVictim(s, e.op, e.now, capacity, e.victims, kept);
      }
    }
  }

  /** Only a least-recently-used eviction pushes out a live key. */
  lemma PushedOutByLru(s: Memory, op: Op, now: real, capacity: pos, victims: set<string>, out: string)
    requires WellFormed(s, capacity) && LegalStep(s, op, now, capacity, victims) && !op.Delete?
    requires out in s.values && !Expired(s, out, now) && out !in Step(s, op, now, capacity, victims).0.values
    ensures (op.Set? || op.Incr?) && BeforeRoom(s, op, now) == s && NeedsLru(s, op.key, now, capacity) && out in victims
  {
    if op.Set? || op.Incr? {
      var s1 := BeforeRoom(s, op, now);
      var room := MakeRoom(s1, op.key, now, capacity, victims);
      assert out in s1.values && !Expired(s1, out, now);
      assert room.Some? && out !in room.value.values by {
        if room.Some? && op.Incr? {
          CountOneTouches(room.value, op.key, now, op.expire);
        }
      }
      PushedOutOfRoom(s1, op.key, now, capacity, victims, out);
      if s1 != s {
        DeletedSize(s, {op.key});
      }
    }
  }

  lemma PushedOutOfRoom(s: Memory, k: string, now: real, capacity: pos, victims: set<string>, out: string)
    requires out in s.values && !Expired(s, out, now)
    requires MakeRoom(s, k, now, capacity, victims).Some? && out !in MakeRoom(s, k, now, capacity, victims).value.values
    ensures NeedsLru(s, k, now, capacity) && out in victims
  {
  }

  lemma SurvivorIsNoVictim(s: Memory, op: Op, now: real, capacity: pos, victims: set<string>, kept: string)
    requires (op.Set? || op.Incr?) && BeforeRoom(s, op, now) == s && NeedsLru(s, op.key, now, capacity)
    requires kept != op.key && kept in Step(s, op, now, capacity, victims).0.values && OrdinaryKeys(s) != {}
    ensures kept !in victims
  {
  }

  // --------------------------------------------------- control entries never leak

  /**
    The last write that took effect on a key: a successful `set`, or a `delete`.
    Everything else in the run is irrelevant to it.
   */
  function LastWrite(events: seq<Event>, capacity: pos, k: string): Option<Entry> {
    if events == [] then None
    else
      var before := LastWrite(events[..|events| - 1], capacity, k);
      match events[|events| - 1]
      case Access(Set(key, v, expire), now, _) =>
        if key == k && !LastAnswer(events, capacity).Unavailable? then Some(Entry(v, Deadline(expire, now))) else before
      case Access(Delete(key), _, _) => if key == k then None else before
      case _ => before
  }

  ghost predicate NeverIncremented(events: seq<Event>, k: string) {
    forall i :: 0 <= i < |events| && events[i].Access? && events[i].op.Incr? ==> events[i].op.key != k
  }

  /** What a reader at `now` may see of an entry. */
  function Visible(e: Option<Entry>, now: real): Option<Entry> {
    if e.Some? && Alive(e.value, now) then e else None
  }

  lemma IpKeysAreNotBuckets(k: string, handler: string)
    requires IsIp(k)
    ensures !IsPrefix(ApproxHandlerPrefix(handler), k)
  {
    assert ApproxHandlerPrefix(handler)[0] == '_';
    assert k[..3][0] == 'i';
  }

  lemma ControlStep(s: Memory, e: Event, capacity: pos, k: string, write: Option<Entry>, now: real)
    requires WellFormed(s, capacity) && IsIp(k) && e.Access? && e.now <= now
    requires LegalStep(s, e.op, e.now, capacity, e.victims)
    requires e.op.Incr? ==> e.op.key != k
    requires Live(Abs(s), k, e.now) == Visible(write, e.now)
    ensures
      var (s', r) := Step(s, e.op, e.now, capacity, e.victims);
      var write' :=
        if e.op.key == k && e.op.Set? && !r.Unavailable? then Some(Entry(e.op.value, Deadline(e.op.expire, e.now)))
        else if e.op.key == k && e.op.Delete? then None
        else write;
      && s' == Apply(s, e, capacity)
      && Live(Abs(s'), k, now) == Visible(write', now)
  {
    var s' := Apply(s, e, capacity);
    StepAgrees(s, e.op, e.now, capacity, e.victims, k);
    LiveLater(Abs(s'), k, e.now, now);
  }

  /**
    For an `ip:` key that is only set, read and deleted, the store shows exactly
    the last successful write until its deadline, whatever else happens to the
    store: capacity evictions, sweeps of expired keys, counters on other keys.
   */
  lemma {:induction false} ControlEntriesAreExact(events: seq<Event>, capacity: pos, k: string, now: real)
    requires LegalRun(events, capacity) && Before(events, now)
    requires IsIp(k) && NeverIncremented(events, k)
    ensures Live(Abs(RunStore(events, capacity)), k, now) == Visible(LastWrite(events, capacity, k), now)
    decreases |events|
  {
    if events != [] {
      var n := |events| - 1;
      var e := events[n];
      var s := RunStore(events[..n], capacity);
      StoreStaysWellFormed(events[..n], capacity);
      if e.Access? {
        ControlEntriesAreExact(events[..n], capacity, k, e.now);
        ControlStep(s, e, capacity, k, LastWrite(events[..n], capacity, k), now);
      } else {
        ControlEntriesAreExact(events[..n], capacity, k, now);
        IpKeysAreNotBuckets(k, e.handler);
      }
    }
  }

  // ------------------------------------------------------------ below capacity

  predicate AccessOnly(events: seq<Event>) {
    forall i :: 0 <= i < |events| ==> events[i].Access?
  }

  function KeysUsed(events: seq<Event>): set<string> {
    set i | 0 <= i < |events| && events[i].Access? :: events[i].op.key
  }

  function Calls(events: seq<Event>): seq<Call>
    requires AccessOnly(events)
  {
    seq(|events|, i requires 0 <= i < |events| => Call(events[i].op, events[i].now))
  }

  function AllAnswers(events: seq<Event>, capacity: pos): seq<Response>
    requires AccessOnly(events)
  {
    if events == [] then [] else AllAnswers(events[..|events| - 1], capacity) + [LastAnswer(events, capacity)]
  }

  /** A call adds no key but its own. */
  lemma StepAddsOnlyItsKey(s: Memory, op: Op, now: real, capacity: pos, victims: set<string>, j: string)
    requires j != op.key && j in Step(s, op, now, capacity, victims).0.values
    ensures j in s.values
  {
    match op {
      case Get(k) => assert j in GetNext(s, k, now).values;
      case Set(k, v, expire) =>
        RoomAddsNothing(s, k, now, capacity, victims, j);
      case Incr(k, expire) =>
        IncrAddsOnlyItsKey(s, op, now, capacity, victims, j);
      case Delete(k) => assert j in DeleteKeys(s, {k}).values;
    }
  }

  lemma IncrAddsOnlyItsKey(s: Memory, op: Op, now: real, capacity: pos, victims: set<string>, j: string)
    requires op.Incr? && j != op.key && j in Step(s, op, now, capacity, victims).0.values
    ensures j in s.values
  {
    var s1 := BeforeRoom(s, op, now);
    var room := MakeRoom(s1, op.key, now, capacity, victims);
    RoomAddsNothing(s1, op.key, now, capacity, victims, j);
    if room.Some? {
      CountOneTouches(room.value, op.key, now, op.expire);
    }
  }

  lemma RoomAddsNothing(s: Memory, k: string, now: real, capacity: pos, victims: set<string>, j: string)
    ensures MakeRoom(s, k, now, capacity, victims).Some? && j in MakeRoom(s, k, now, capacity, victims).value.values
            ==> j in s.values
  {
  }

  lemma {:induction false} StoreNamesOnlyUsedKeys(events: seq<Event>, capacity: pos)
    ensures RunStore(events, capacity).values.Keys <= KeysUsed(events)
  {
    if events != [] {
      var n := |events| - 1;
      var e := events[n];
      StoreNamesOnlyUsedKeys(events[..n], capacity);
      assert KeysUsed(events[..n]) <= KeysUsed(events);
      if e.Access? {
        assert e.op.key in KeysUsed(events);
        forall j | j in RunStore(events, capacity).values && j != e.op.key ensures j in KeysUsed(events) {
          StepAddsOnlyItsKey(RunStore(events[..n], capacity), e.op, e.now, capacity, e.victims, j);
        }
      }
    }
  }

  lemma NotFullBelowCapacity(s: Memory, k: string, keys: set<string>, capacity: pos)
    requires s.values.Keys <= keys && k in keys && |keys| <= capacity
    ensures !IsFull(s, k, capacity)
  {
    if k !in s.values {
      SubsetSize(s.values.Keys, keys - {k});
      assert |s.values| == |s.values.Keys|;
    }
  }

  ghost predicate SameStore(s: Memory, calls: seq<Call>, now: real) {
    forall j :: Agree(Abs(s), TtlMap.Run(calls), j, now)
  }

  lemma PlainStep(s: Memory, calls: seq<Call>, e: Event, keys: set<string>, capacity: pos, now: real)
    requires e.Access? && e.now <= now && WellFormed(s, capacity)
    requires LegalStep(s, e.op, e.now, capacity, e.victims)
    requires s.values.Keys <= keys && e.op.key in keys && |keys| <= capacity
    requires SameStore(s, calls, e.now)
    ensures
      var (s', r) := Step(s, e.op, e.now, capacity, e.victims);
      && r == TtlMap.Answer(TtlMap.Run(calls), e.op, e.now)
      && SameStore(s', calls + [Call(e.op, e.now)], now)
  {
    var k := e.op.key;
    var (s', r) := Step(s, e.op, e.now, capacity, e.victims);
    var m := TtlMap.Run(calls);
    var calls' := calls + [Call(e.op, e.now)];
    assert calls'[..|calls|] == calls;
    NotFullBelowCapacity(s, k, keys, capacity);
    NotFullBelowCapacity(BeforeRoom(s, e.op, e.now), k, keys, capacity);
    UnavailableExactly(s, e.op, e.now, capacity, e.victims);
    forall j ensures Agree(Abs(s'), TtlMap.Run(calls'), j, now) {
      StepAgrees(s, e.op, e.now, capacity, e.victims, j);
      assert Agree(Abs(s), m, j, e.now);
      AgreeLater(Abs(s'), TtlMap.Run(calls'), j, e.now, now);
    }
    StepAgrees(s, e.op, e.now, capacity, e.victims, k);
    assert Agree(Abs(s), m, k, e.now);
  }

  lemma CallsExtend(events: seq<Event>)
    requires AccessOnly(events) && events != []
    ensures
      var n := |events| - 1;
      Calls(events) == Calls(events[..n]) + [Call(events[n].op, events[n].now)]
  {
  }

  lemma AnswersExtend(calls: seq<Call>, c: Call)
    ensures TtlMap.Answers(calls + [c]) == TtlMap.Answers(calls) + [TtlMap.Answer(TtlMap.Run(calls), c.op, c.now)]
  {
    assert (calls + [c])[..|calls|] == calls;
  }

  lemma {:induction false} StoreMatchesMap(events: seq<Event>, keys: set<string>, capacity: pos, now: real)
    requires AccessOnly(events) && LegalRun(events, capacity) && Before(events, now)
    requires KeysUsed(events) <= keys && |keys| <= capacity
    ensures SameStore(RunStore(events, capacity), Calls(events), now)
    ensures AllAnswers(events, capacity) == TtlMap.Answers(Calls(events))
    decreases |events|
  {
    if events != [] {
      var n := |events| - 1;
      var e := events[n];
      var s, calls := RunStore(events[..n], capacity), Calls(events[..n]);
      assert KeysUsed(events[..n]) <= KeysUsed(events) && e.op.key in KeysUsed(events);
      StoreMatchesMap(events[..n], keys, capacity, e.now);
      assert s.values.Keys <= keys by { StoreNamesOnlyUsedKeys(events[..n], capacity); }
      assert WellFormed(s, capacity) by { StoreStaysWellFormed(events[..n], capacity); }
      CallsExtend(events);
      PlainStep(s, calls, e, keys, capacity, now);
      AnswersExtend(calls, Call(e.op, e.now));
    }
  }

  /** Below its capacity the store gives, call by call, the answers of the expiring map. */
  lemma BelowCapacityIsExact(events: seq<Event>, capacity: pos, now: real)
    requires AccessOnly(events) && LegalRun(events, capacity) && Before(events, now)
    requires |KeysUsed(events)| <= capacity
    ensures AllAnswers(events, capacity) == TtlMap.Answers(Calls(events))
  {
    StoreMatchesMap(events, KeysUsed(events), capacity, now);
  }
}
