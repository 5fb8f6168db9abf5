/**
  The experimental store on a shared dictionary: expiry records live in the
  same dictionary under a reserved prefix, and writes sweep expired keys at
  most once per interval.
 */
module Manager {
  import opened Prelude
  import opened TtlMap
  import opened KeyStrings
  import K = KeyValue

  type Dict = map<string, Value>

  const EXPIRY_PREFIX := "__rbl_exp__:"
  const CLEANUP_INTERVAL := 1.0

  /** `next` is the earliest moment of the next sweep; None is minus infinity. */
  datatype State = State(dict: Dict, next: Option<real>)

  predicate Reserved(k: string) {
    IsPrefix(EXPIRY_PREFIX, k)
  }

  function ExpiryKey(k: string): string {
    EXPIRY_PREFIX + k
  }

  function KeyOf(expiryKey: string): string
    requires Reserved(expiryKey)
  {
    expiryKey[|EXPIRY_PREFIX|..]
  }

  lemma ExpiryKeys(j: string, k: string)
    ensures Reserved(ExpiryKey(k)) && KeyOf(ExpiryKey(k)) == k
    ensures ExpiryKey(j) == ExpiryKey(k) <==> j == k
    ensures Reserved(j) ==> ExpiryKey(KeyOf(j)) == j
  {
    assert ExpiryKey(j)[|EXPIRY_PREFIX|..] == j && ExpiryKey(k)[|EXPIRY_PREFIX|..] == k;
  }

  // --------------------------------------------------------------- operations

  /** The stored deadline, when it is a number. */
  function DeadlineIn(d: Dict, expiryKey: string): Option<real> {
    if expiryKey !in d then None
    else
      match d[expiryKey]
      case Float(r) => Some(r)
      case Number(n) => Some(n as real)
      case Text(_, i) => if i.Some? then Some(i.value as real) else None
  }

  predicate Overdue(d: Dict, k: string, now: real) {
    var at := DeadlineIn(d, ExpiryKey(k));
    at.Some? && at.value <= now
  }

  function WithoutKey(d: Dict, k: string): Dict {
    d - {k, ExpiryKey(k)}
  }

  function WithoutExpired(d: Dict, k: string, now: real): Dict {
    if Overdue(d, k, now) then WithoutKey(d, k) else d
  }

  predicate SweepTakes(d: Dict, k: string, now: real) {
    && k in d && Reserved(k)
    && DeadlineIn(d, k).Some? && DeadlineIn(d, k).value <= now
  }

  /** What a sweep leaves: overdue keys and their records are gone. */
  function Sweep(d: Dict, now: real): Dict {
    map k | k in d && !Overdue(d, k, now) && !(Reserved(k) && SweepTakes(d, k, now)) :: d[k]
  }

  function AfterCleanup(s: State, now: real): State {
    if s.next.Some? && now < s.next.value then s else State(Sweep(s.dict, now), Some(now + CLEANUP_INTERVAL))
  }

  function WithExpiry(d: Dict, k: string, now: real, expire: Option<pos>): Dict {
    if expire.None? then d - {ExpiryKey(k)} else d[ExpiryKey(k) := Float(now + expire.value as real)]
  }

  function Step(s: State, op: Op, now: real): (State, Response) {
    match op
    case Get(k) =>
      if Overdue(s.dict, k, now) then (s.(dict := WithoutKey(s.dict, k)), Found(None))
      else (s, Found(if k in s.dict then Some(s.dict[k]) else None))
    case Set(k, v, expire) =>
      var s1 := AfterCleanup(s, now);
      (s1.(dict := WithExpiry(s1.dict[k := v], k, now, expire)), Done)
    case Incr(k, expire) =>
      var s1 := AfterCleanup(s, now);
      var d := WithoutExpired(s1.dict, k, now);
      var base := if k in d then AsInt(d[k]) else Some(0);
      if base.None? then (s1.(dict := d), NotANumber)
      else
        var d' := d[k := Number(base.value + 1)];
        (s1.(dict := if expire.Some? then WithExpiry(d', k, now, expire) else d'), Count(base.value + 1))
    case Delete(k) => (s.(dict := WithoutKey(s.dict, k)), Done)
  }

  // ------------------------------------------------------------------ the store

  class ManagerStorage {
    var sharedDict: Dict
    var nextCleanup: Option<real>

    constructor ()
      ensures View() == State(map[], None)
    {
      sharedDict := map[];
      nextCleanup := None;
    }

    function View(): State
      reads this
    {
      State(sharedDict, nextCleanup)
    }

    method Get(key: string, now: real) returns (value: Option<Value>)
      modifies this`sharedDict
      ensures (View(), Found(value)) == Step(old(View()), TtlMap.Get(key), now)
    {
      var gone := DeleteIfExpired(key, now);
      if gone {
        return None;
      }
      value := if key in sharedDict then Some(sharedDict[key]) else None;
    }

    method Set(key: string, value: Value, expire: Option<pos>, now: real)
      modifies this
      ensures (View(), Done) == Step(old(View()), TtlMap.Set(key, value, expire), now)
    {
      CleanupExpired(now);
      sharedDict := sharedDict[key := value];
      SetExpiry(key, now, expire);
    }

    method Incr(key: string, expire: Option<pos>, now: real) returns (r: Response)
      modifies this
      ensures (View(), r) == Step(old(View()), TtlMap.Incr(key, expire), now)
    {
      CleanupExpired(now);
      var gone := DeleteIfExpired(key, now);
      var base := if key in sharedDict then AsInt(sharedDict[key]) else Some(0);
      if base.None? {
        return NotANumber;
      }
      var current := base.value + 1;
      sharedDict := sharedDict[key := Number(current)];
      if expire.Some? {
        SetExpiry(key, now, expire);
      }
      r := Count(current);
    }

    method Delete(key: string)
      modifies this`sharedDict
      ensures View() == old(View()).(dict := WithoutKey(old(sharedDict), key))
    {
      DeleteKey(key);
    }

    method CleanupExpired(now: real)
      modifies this
      ensures View() == AfterCleanup(old(View()), now)
    {
      if nextCleanup.Some? && now < nextCleanup.value {
        return;
      }
      var start := sharedDict;
      var todo := sharedDict.Keys;
      SweepStarts(start, now);
      while todo != {}
        invariant PartlySwept(start, sharedDict, todo, now) && nextCleanup == old(nextCleanup)
        decreases |todo|
      {
        var candidate :| candidate in todo;
        SweepTurn(start, sharedDict, todo, candidate, now);
        SweepOne(candidate, start, now);
        todo := todo - {candidate};
      }
      SweepEnds(start, sharedDict, now);
      nextCleanup := Some(now + CLEANUP_INTERVAL);
    }

    /** One item of the snapshot. */
    method SweepOne(candidate: string, snapshot: Dict, now: real)
      modifies this`sharedDict
      ensures sharedDict == Swept(snapshot, old(sharedDict), candidate, now)
    {
      if IsPrefix(EXPIRY_PREFIX, candidate) {
        var expiresAt := DeadlineIn(snapshot, candidate);
        if expiresAt.Some? && expiresAt.value <= now {
          DeleteKey(candidate[|EXPIRY_PREFIX|..]);
        }
      }
    }

    method SetExpiry(key: string, now: real, expire: Option<pos>)
      modifies this`sharedDict
      ensures sharedDict == WithExpiry(old(sharedDict), key, now, expire)
    {
      var expiryKey := ExpiryKey(key);
      if expire.None? {
        sharedDict := sharedDict - {expiryKey};
        return;
      }
      sharedDict := sharedDict[expiryKey := Float(now + expire.value as real)];
    }

    method DeleteIfExpired(key: string, now: real) returns (gone: bool)
      modifies this`sharedDict
      ensures gone == Overdue(old(sharedDict), key, now)
      ensures sharedDict == WithoutExpired(old(sharedDict), key, now)
    {
      var expiresAt := DeadlineIn(sharedDict, ExpiryKey(key));
      if expiresAt.None? || expiresAt.value > now {
        return false;
      }
      DeleteKey(key);
      gone := true;
    }

    method DeleteKey(key: string)
      modifies this`sharedDict
      ensures sharedDict == WithoutKey(old(sharedDict), key)
    {
      sharedDict := sharedDict - {key};
      sharedDict := sharedDict - {ExpiryKey(key)};
    }
  }

  // ------------------------------------------------------------------ the sweep

  function Swept(snapshot: Dict, d: Dict, candidate: string, now: real): Dict {
    if SweepTakes(snapshot, candidate, now) then WithoutKey(d, KeyOf(candidate)) else d
  }

  /** The sweep has dealt with the snapshot items outside `todo`. */
  ghost predicate PartlySwept(start: Dict, d: Dict, todo: set<string>, now: real) {
    && todo <= start.Keys
    && (forall k :: k in d <==> k in start && !TakenBy(start, todo, ExpiryKey(k), now) && !TakenBy(start, todo, k, now))
    && (forall k :: k in d ==> d[k] == start[k])
  }

  predicate TakenBy(start: Dict, todo: set<string>, e: string, now: real) {
    e !in todo && SweepTakes(start, e, now)
  }

  lemma SweepStarts(start: Dict, now: real)
    ensures PartlySwept(start, start, start.Keys, now)
  {
  }

  lemma SweepTurn(start: Dict, d: Dict, todo: set<string>, candidate: string, now: real)
    requires PartlySwept(start, d, todo, now) && candidate in todo
    ensures PartlySwept(start, Swept(start, d, candidate, now), todo - {candidate}, now)
  {
    var d' := Swept(start, d, candidate, now);
    forall k
      ensures k in d' <==> k in start && !TakenBy(start, todo - {candidate}, ExpiryKey(k), now)
                           && !TakenBy(start, todo - {candidate}, k, now)
    {
      ExpiryKeys(candidate, k);
    }
  }

  lemma SweepEnds(start: Dict, d: Dict, now: real)
    requires PartlySwept(start, d, {}, now)
    ensures d == Sweep(start, now)
  {
    forall k ensures Overdue(start, k, now) == TakenBy(start, {}, ExpiryKey(k), now) {
      ExpiryKeys(k, k);
    }
  }

  // ------------------------------------------------------- agreement with the map

  /** Reserved keys are exactly the deadline records of stored ordinary keys. */
  ghost predicate WellFormed(d: Dict) {
    forall k :: k in d && Reserved(k) ==> d[k].Float? && !Reserved(KeyOf(k)) && KeyOf(k) in d
  }

  function Abs(d: Dict): Store {
    map k | k in d && !Reserved(k) :: Entry(d[k], DeadlineIn(d, ExpiryKey(k)))
  }

  lemma LiveEntry(d: Dict, j: string, now: real)
    requires !Reserved(j)
    ensures Live(Abs(d), j, now)
            == if j in d && !Overdue(d, j, now) then Some(Entry(d[j], DeadlineIn(d, ExpiryKey(j)))) else None
  {
  }

  lemma DeleteUnseen(d: Dict, k: string, j: string, now: real)
    requires WellFormed(d) && !Reserved(k) && !Reserved(j)
    ensures WellFormed(WithoutKey(d, k))
    ensures Live(Abs(WithoutKey(d, k)), j, now) == if j == k then None else Live(Abs(d), j, now)
  {
    ExpiryKeys(j, k);
    forall e | e in WithoutKey(d, k) && Reserved(e) ensures KeyOf(e) in WithoutKey(d, k) {
      ExpiryKeys(e, k);
      ExpiryKeys(KeyOf(e), k);
    }
  }

  lemma SweepUnseen(d: Dict, j: string, now: real)
    requires WellFormed(d) && !Reserved(j)
    ensures WellFormed(Sweep(d, now))
    ensures Live(Abs(Sweep(d, now)), j, now) == Live(Abs(d), j, now)
  {
    ExpiryKeys(j, j);
    var d' := Sweep(d, now);
    forall e | e in d' && Reserved(e) ensures KeyOf(e) in d' {
      ExpiryKeys(e, e);
      ExpiryKeys(KeyOf(e), e);
    }
    LiveEntry(d, j, now);
    LiveEntry(d', j, now);
    if ExpiryKey(j) in d && !Overdue(d, j, now) {
      ExpiryKeys(ExpiryKey(j), j);
      ExpiryKeys(ExpiryKey(j), ExpiryKey(j));
      assert ExpiryKey(ExpiryKey(j)) !in d;
    }
  }

  lemma WriteSeen(d: Dict, k: string, v: Value, now: real, expire: Option<pos>, j: string)
    requires WellFormed(d) && !Reserved(k) && !Reserved(j)
    ensures WellFormed(d[k := v]) && WellFormed(WithExpiry(d[k := v], k, now, expire))
    ensures
      var d' := d[k := v];
      j != k ==> Live(Abs(d'), j, now) == Live(Abs(d), j, now)
    ensures k in Abs(d[k := v]) && Abs(d[k := v])[k] == Entry(v, DeadlineIn(d, ExpiryKey(k)))
    ensures
      var d' := WithExpiry(d[k := v], k, now, expire);
      && (j != k ==> Live(Abs(d'), j, now) == Live(Abs(d), j, now))
      && k in Abs(d') && Abs(d')[k] == Entry(v, Deadline(expire, now))
  {
    ExpiryKeys(j, k);
    ExpiryKeys(k, k);
  }

  /** One call agrees with the expiring map at every ordinary key. */
  ghost predicate AgreesAt(s: State, op: Op, now: real, after: State, r: Response, j: string) {
    var live := Live(Abs(s.dict), j, now);
    if op.key != j then Live(Abs(after.dict), j, now) == live
    else r == Reply(live, op) && Live(Abs(after.dict), j, now) == Left(live, op, now)
  }

  lemma CleanupUnseen(s: State, j: string, now: real)
    requires WellFormed(s.dict) && !Reserved(j)
    ensures WellFormed(AfterCleanup(s, now).dict)
    ensures Live(Abs(AfterCleanup(s, now).dict), j, now) == Live(Abs(s.dict), j, now)
  {
    SweepUnseen(s.dict, j, now);
  }

  lemma IncrAgrees(s: State, op: Op, now: real, j: string)
    requires WellFormed(s.dict) && op.Incr? && !Reserved(op.key) && !Reserved(j)
    ensures var (s', r) := Step(s, op, now); AgreesAt(s, op, now, s', r, j) && WellFormed(s'.dict)
  {
    var k := op.key;
    var d := WithoutExpired(AfterCleanup(s, now).dict, k, now);
    ReadyToCount(s, k, now, j);
    var (s', r) := Step(s, op, now);
    if r.Count? {
      CountSeen(d, k, r.n, now, op.expire, j);
      assert s'.dict == Counted(d, k, r.n, now, op.expire);
    } else {
      assert s'.dict == d;
    }
  }

  function Counted(d: Dict, k: string, n: int, now: real, expire: Option<pos>): Dict {
    if expire.Some? then WithExpiry(d[k := Number(n)], k, now, expire) else d[k := Number(n)]
  }

  lemma CountSeen(d: Dict, k: string, n: int, now: real, expire: Option<pos>, j: string)
    requires WellFormed(d) && !Reserved(k) && !Reserved(j)
    requires DeadlineIn(d, ExpiryKey(k)).Some? ==> DeadlineIn(d, ExpiryKey(k)).value > now
    ensures WellFormed(Counted(d, k, n, now, expire))
    ensures Live(Abs(Counted(d, k, n, now, expire)), j, now)
            == if j == k
               then Some(Entry(Number(n), if expire.Some? then Deadline(expire, now) else DeadlineIn(d, ExpiryKey(k))))
               else Live(Abs(d), j, now)
  {
    WriteSeen(d, k, Number(n), now, expire, j);
  }

  /** Before counting, the key's own expired entry is gone and nothing else has changed. */
  lemma ReadyToCount(s: State, k: string, now: real, j: string)
    requires WellFormed(s.dict) && !Reserved(k) && !Reserved(j)
    ensures
      var d := WithoutExpired(AfterCleanup(s, now).dict, k, now);
      && WellFormed(d)
      && Live(Abs(d), j, now) == Live(Abs(s.dict), j, now)
      && Live(Abs(s.dict), k, now)
         == (if k in d then Some(Entry(d[k], DeadlineIn(d, ExpiryKey(k)))) else None)
      && (k !in d ==> ExpiryKey(k) !in d)
      && (DeadlineIn(d, ExpiryKey(k)).Some? ==> DeadlineIn(d, ExpiryKey(k)).value > now)
  {
    var d1 := AfterCleanup(s, now).dict;
    CleanupUnseen(s, j, now);
    CleanupUnseen(s, k, now);
    LiveEntry(d1, k, now);
    DeleteUnseen(d1, k, j, now);
    ExpiryKeys(k, k);
  }

  lemma StepAgrees(s: State, op: Op, now: real, j: string)
    requires WellFormed(s.dict) && !Reserved(op.key) && !Reserved(j)
    ensures var (s', r) := Step(s, op, now); AgreesAt(s, op, now, s', r, j) && WellFormed(s'.dict)
  {
    var k := op.key;
    match op {
      case Get(_) =>
        LiveEntry(s.dict, k, now);
        DeleteUnseen(s.dict, k, j, now);
      case Set(_, v, expire) =>
        CleanupUnseen(s, j, now);
        WriteSeen(AfterCleanup(s, now).dict, k, v, now, expire, j);
      case Incr(_, _) => IncrAgrees(s, op, now, j);
      case Delete(_) => DeleteUnseen(s.dict, k, j, now);
    }
  }

  // ---------------------------------------------------------------------- runs

  function RunManager(calls: seq<Call>): State {
    if calls == [] then State(map[], None)
    else
      var last := calls[|calls| - 1];
      Step(RunManager(calls[..|calls| - 1]), last.op, last.now).0
  }

  function ManagerAnswers(calls: seq<Call>): seq<Response> {
    if calls == [] then []
    else
      var last := calls[|calls| - 1];
      ManagerAnswers(calls[..|calls| - 1]) + [Step(RunManager(calls[..|calls| - 1]), last.op, last.now).1]
  }

  predicate OrdinaryKeys(calls: seq<Call>) {
    forall i :: 0 <= i < |calls| ==> !Reserved(calls[i].op.key)
  }

  ghost predicate SameStore(calls: seq<Call>, now: real) {
    forall j :: !Reserved(j) ==> Agree(Abs(RunManager(calls).dict), TtlMap.Run(calls), j, now)
  }

  lemma {:induction false} StateStaysWellFormed(calls: seq<Call>)
    requires OrdinaryKeys(calls)
    ensures WellFormed(RunManager(calls).dict)
  {
    if calls != [] {
      var n := |calls| - 1;
      StateStaysWellFormed(calls[..n]);
      StepAgrees(RunManager(calls[..n]), calls[n].op, calls[n].now, calls[n].op.key);
    }
  }

  lemma SameStep(calls: seq<Call>, now: real)
    requires calls != [] && OrdinaryKeys(calls) && calls[|calls| - 1].now <= now
    requires SameStore(calls[..|calls| - 1], calls[|calls| - 1].now)
    ensures SameStore(calls, now)
    ensures
      var n := |calls| - 1;
      Step(RunManager(calls[..n]), calls[n].op, calls[n].now).1
      == TtlMap.Answer(TtlMap.Run(calls[..n]), calls[n].op, calls[n].now)
  {
    var n := |calls| - 1;
    var c := calls[n];
    var s, m := RunManager(calls[..n]), TtlMap.Run(calls[..n]);
    StateStaysWellFormed(calls[..n]);
    forall j | !Reserved(j) ensures Agree(Abs(RunManager(calls).dict), TtlMap.Run(calls), j, now) {
      StepAgrees(s, c.op, c.now, j);
      assert Agree(Abs(s.dict), m, j, c.now);
      AgreeLater(Abs(RunManager(calls).dict), TtlMap.Run(calls), j, c.now, now);
    }
    StepAgrees(s, c.op, c.now, c.op.key);
    assert Agree(Abs(s.dict), m, c.op.key, c.now);
  }

  lemma {:induction false} StoreMatchesMap(calls: seq<Call>, now: real)
    requires OrdinaryKeys(calls) && Forward(calls) && (calls != [] ==> calls[|calls| - 1].now <= now)
    ensures SameStore(calls, now)
    ensures ManagerAnswers(calls) == TtlMap.Answers(calls)
    decreases |calls|
  {
    if calls != [] {
      var n := |calls| - 1;
      StoreMatchesMap(calls[..n], calls[n].now);
      SameStep(calls, now);
    }
  }

  /**
    The shared-dictionary store implements the expiring map: on ordinary keys
    every answer is that of the map, so no answer depends on when a sweep ran.
   */
  lemma ManagerIsExact(calls: seq<Call>)
    requires OrdinaryKeys(calls) && Forward(calls)
    ensures ManagerAnswers(calls) == TtlMap.Answers(calls)
  {
    StoreMatchesMap(calls, if calls == [] then 0.0 else calls[|calls| - 1].now);
  }

  lemma {:induction false} ForwardIsBefore(events: seq<K.Event>, now: real)
    requires K.AccessOnly(events) && Forward(K.Calls(events)) && (events != [] ==> events[|events| - 1].now <= now)
    ensures K.Before(events, now)
    decreases |events|
  {
    if events != [] {
      var n := |events| - 1;
      assert K.Calls(events)[..n] == K.Calls(events[..n]);
      if n > 0 {
        assert K.Calls(events)[n - 1].now <= K.Calls(events)[n].now;
      }
      ForwardIsBefore(events[..n], events[n].now);
    }
  }

  /** Below the in-memory store's capacity the two stores cannot be told apart. */
  lemma ManagerAgreesWithMemory(events: seq<K.Event>, capacity: pos)
    requires K.AccessOnly(events) && K.LegalRun(events, capacity) && |K.KeysUsed(events)| <= capacity
    requires OrdinaryKeys(K.Calls(events)) && Forward(K.Calls(events))
    ensures ManagerAnswers(K.Calls(events)) == K.AllAnswers(events, capacity)
  {
    var now := if events == [] then 0.0 else events[|events| - 1].now;
    ForwardIsBefore(events, now);
    K.BelowCapacityIsExact(events, capacity, now);
    ManagerIsExact(K.Calls(events));
  }

  /**
    A user key inside the reserved namespace breaks the agreement: writing a small
    number, or a text that reads as one, under the record name of any key hides
    that key from the next reader.
   */
  lemma ReservedKeyHidesAnother(s: State, m: Store, k: string, v: Value, now: real)
    requires !Reserved(k)
    requires match v
             case Number(n) => n as real <= now
             case Float(r) => r <= now
             case Text(_, i) => i.Some? && i.value as real <= now
    ensures
      var intruder := Set(ExpiryKey(k), v, None);
      && Step(Step(s, intruder, now).0, Get(k), now).1 == Found(None)
      && TtlMap.Answer(TtlMap.Apply(m, intruder, now), Get(k), now) == TtlMap.Answer(m, Get(k), now)
  {
    ExpiryKeys(k, k);
    ExpiryKeys(ExpiryKey(k), k);
    assert |ExpiryKey(ExpiryKey(k))| != |ExpiryKey(k)|;
  }

  ghost predicate CallsOn(calls: seq<Call>, keys: set<string>) {
    forall i :: 0 <= i < |calls| ==> calls[i].op.key in keys
  }

  /** Every run on these keys is answered as the TTL map would answer it. */
  ghost predicate ExactOn(keys: set<string>) {
    forall calls | CallsOn(calls, keys) && Forward(calls) :: ManagerAnswers(calls) == TtlMap.Answers(calls)
  }

  /** A number stored under a reserved key is swept away as an expiry record once its moment has come. */
  lemma ReservedKeyIsSwept(k: string)
    requires Reserved(k)
    ensures
      var calls := [Call(Set(k, Number(1), None), 0.0), Call(Incr(k, None), 2.0)];
      Forward(calls) && ManagerAnswers(calls) == [Done, Count(1)] && TtlMap.Answers(calls) == [Done, Count(2)]
  {
    var calls := [Call(Set(k, Number(1), None), 0.0), Call(Incr(k, None), 2.0)];
    var one := calls[..1];
    assert one == [calls[0]] && one[..0] == [];
    var s := RunManager(one);
    assert s == State(map[k := Number(1)], Some(1.0)) by {
      assert AfterCleanup(State(map[], None), 0.0) == State(map[], Some(1.0));
      assert |ExpiryKey(k)| > |k|;
      assert map[k := Number(1)] - {ExpiryKey(k)} == map[k := Number(1)];
      assert RunManager(one) == Step(State(map[], None), calls[0].op, calls[0].now).0;
    }
    assert SweepTakes(s.dict, k, 2.0);
    assert Sweep(s.dict, 2.0) == map[];
    assert TtlMap.Run(one) == map[k := Entry(Number(1), None)];
    assert ManagerAnswers(one) == [Done] && TtlMap.Answers(one) == [Done];
  }

  /** The store is exact on a set of keys exactly when none of them is reserved. */
  lemma ExactIffNoReservedKey(keys: set<string>)
    ensures ExactOn(keys) <==> forall k :: k in keys ==> !Reserved(k)
  {
    if k :| k in keys && Reserved(k) {
      ReservedKeyIsSwept(k);
      var calls := [Call(Set(k, Number(1), None), 0.0), Call(Incr(k, None), 2.0)];
      assert CallsOn(calls, keys);
    } else {
      forall calls | CallsOn(calls, keys) && Forward(calls) ensures ManagerAnswers(calls) == TtlMap.Answers(calls) {
        ManagerIsExact(calls);
      }
    }
  }

  // ----------------------------------------------------------- the sweep's promise

  /** Every deadline record is younger than the last sweep, which is not in the future. */
  ghost predicate FreshRecords(s: State, now: real) {
    && (s.next.Some? ==> s.next.value - CLEANUP_INTERVAL <= now)
    && (s.next.Some? ==> forall k :: k in s.dict && Reserved(k) ==>
          s.dict[k].Float? && s.dict[k].r > s.next.value - CLEANUP_INTERVAL)
  }

  lemma CleanupIsFresh(s: State, now: real)
    requires FreshRecords(s, now) && WellFormed(s.dict)
    ensures FreshRecords(AfterCleanup(s, now), now)
    ensures AfterCleanup(s, now).next.Some? && now < AfterCleanup(s, now).next.value
  {
  }

  lemma StepIsFresh(s: State, op: Op, now: real, before: real)
    requires FreshRecords(s, before) && before <= now && WellFormed(s.dict) && !Reserved(op.key)
    ensures FreshRecords(Step(s, op, now).0, now)
    ensures op.Set? || op.Incr? ==> Step(s, op, now).0.next.Some? && now < Step(s, op, now).0.next.value
  {
    CleanupIsFresh(s, now);
    ExpiryKeys(op.key, op.key);
  }

  lemma {:induction false} RunIsFresh(calls: seq<Call>)
    requires OrdinaryKeys(calls) && Forward(calls) && calls != []
    ensures FreshRecords(RunManager(calls), calls[|calls| - 1].now)
  {
    var n := |calls| - 1;
    StateStaysWellFormed(calls[..n]);
    if n > 0 {
      RunIsFresh(calls[..n]);
      StepIsFresh(RunManager(calls[..n]), calls[n].op, calls[n].now, calls[n - 1].now);
    } else {
      assert calls[..n] == [];
      StepIsFresh(State(map[], None), calls[n].op, calls[n].now, calls[n].now);
    }
  }

  /** Right after a write at `t`, nothing is stored whose deadline is a full interval in the past. */
  lemma {:induction false} NothingStaleAfterWrite(calls: seq<Call>, k: string)
    requires OrdinaryKeys(calls) && Forward(calls) && calls != []
    requires calls[|calls| - 1].op.Set? || calls[|calls| - 1].op.Incr?
    requires k in Abs(RunManager(calls).dict) && Abs(RunManager(calls).dict)[k].expiry.Some?
    ensures Abs(RunManager(calls).dict)[k].expiry.value > calls[|calls| - 1].now - CLEANUP_INTERVAL
  {
    var n := |calls| - 1;
    RunIsFresh(calls);
    StateStaysWellFormed(calls[..n]);
    ExpiryKeys(k, k);
    if n > 0 {
      RunIsFresh(calls[..n]);
      StepIsFresh(RunManager(calls[..n]), calls[n].op, calls[n].now, calls[n - 1].now);
    } else {
      assert calls[..n] == [];
      StepIsFresh(State(map[], None), calls[n].op, calls[n].now, calls[n].now);
    }
  }
}
