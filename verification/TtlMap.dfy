/**
  The simple map with per-key expiry that every key/value store of the project
  is meant to implement: a write stays visible until it is overwritten, deleted
  or its deadline has come.
 */
module TtlMap {
  import opened Prelude

  /** A stored value; text may or may not convert to an integer. */
  datatype Value = Number(n: int) | Float(r: real) | Text(text: string, asInt: Option<int>)

  /** Python's `int(value)`, which truncates a float toward zero; None stands for its ValueError. */
  function AsInt(v: Value): Option<int> {
    match v
    case Number(n) => Some(n)
    case Float(r) => Some(if r >= 0.0 then r.Floor else -((-r).Floor))
    case Text(_, i) => i
  }

  datatype Entry = Entry(value: Value, expiry: Option<real>)
  type Store = map<string, Entry>

  datatype Op =
    | Get(key: string)
    | Set(key: string, value: Value, expire: Option<pos>)
    | Incr(key: string, expire: Option<pos>)
    | Delete(key: string)

  /** `Unavailable` stands for StorageUnavailableError, `NotANumber` for a failed integer conversion. */
  datatype Response = Found(found: Option<Value>) | Done | Count(n: int) | NotANumber | Unavailable

  predicate Alive(e: Entry, now: real) {
    e.expiry.None? || e.expiry.value > now
  }

  function Live(m: Store, k: string, now: real): Option<Entry> {
    if k in m && Alive(m[k], now) then Some(m[k]) else None
  }

  function Deadline(expire: Option<pos>, now: real): Option<real> {
    if expire.None? then None else Some(now + expire.value as real)
  }

  /** What one call answers, given the live entry of its key. */
  function Reply(live: Option<Entry>, op: Op): Response {
    match op
    case Get(_) => Found(if live.Some? then Some(live.value.value) else None)
    case Set(_, _, _) => Done
    case Delete(_) => Done
    case Incr(_, _) =>
      var base := if live.Some? then AsInt(live.value.value) else Some(0);
      if base.None? then NotANumber else Count(base.value + 1)
  }

  /** What one call leaves in the place of its key. */
  function Left(live: Option<Entry>, op: Op, now: real): Option<Entry> {
    match op
    case Get(_) => live
    case Set(_, v, expire) => Some(Entry(v, Deadline(expire, now)))
    case Delete(_) => None
    case Incr(_, expire) =>
      if Reply(live, op).NotANumber? then live
      else
        var kept := if live.Some? then live.value.expiry else None;
        Some(Entry(Number(Reply(live, op).n), if expire.Some? then Deadline(expire, now) else kept))
  }

  function Put(m: Store, k: string, e: Option<Entry>): Store {
    if e.Some? then m[k := e.value] else m - {k}
  }

  function Apply(m: Store, op: Op, now: real): Store {
    Put(m, op.key, Left(Live(m, op.key, now), op, now))
  }

  function Answer(m: Store, op: Op, now: real): Response {
    Reply(Live(m, op.key, now), op)
  }

  /** The integer `n` is `r` without its fraction. */
  predicate Truncates(n: int, r: real) {
    if r >= 0.0 then n as real <= r < (n + 1) as real else (n - 1) as real < r <= n as real
  }

  /** What `incr` makes of each kind of stored value. */
  lemma IncrCounts(m: Store, k: string, expire: Option<pos>, now: real)
    ensures
      var live := Live(m, k, now);
      var answer := Answer(m, Incr(k, expire), now);
      var after := Live(Apply(m, Incr(k, expire), now), k, now);
      && (live.None? ==> answer == Count(1))
      && (live.Some? && live.value.value.Number? ==> answer == Count(live.value.value.n + 1))
      && (live.Some? && live.value.value.Float? ==> answer.Count? && Truncates(answer.n - 1, live.value.value.r))
      && (live.Some? && live.value.value.Text? ==>
            answer == if live.value.value.asInt.Some? then Count(live.value.value.asInt.value + 1) else NotANumber)
      && (answer.NotANumber? ==> after == live)
      && (answer.Count? ==> after.Some? && after.value.value == Number(answer.n))
  {
  }

  /** Expiry is final: what is not live at one moment is not live later. */
  lemma LiveLater(m: Store, k: string, now: real, later: real)
    requires now <= later
    ensures Live(m, k, later)
            == if Live(m, k, now).Some? && Alive(Live(m, k, now).value, later) then Live(m, k, now) else None
  {
  }

  /** Two stores that no later call on this key can tell apart. */
  predicate Agree(a: Store, b: Store, k: string, now: real) {
    Live(a, k, now) == Live(b, k, now)
  }

  lemma AgreeLater(a: Store, b: Store, k: string, now: real, later: real)
    requires Agree(a, b, k, now) && now <= later
    ensures Agree(a, b, k, later)
  {
    LiveLater(a, k, now, later);
    LiveLater(b, k, now, later);
  }

  // ---------------------------------------------------------------------- runs

  datatype Call = Call(op: Op, now: real)

  function Run(calls: seq<Call>): Store {
    if calls == [] then map[]
    else
      var last := calls[|calls| - 1];
      Apply(Run(calls[..|calls| - 1]), last.op, last.now)
  }

  /** The answers a store that implements the map must give. */
  function Answers(calls: seq<Call>): seq<Response> {
    if calls == [] then []
    else
      var last := calls[|calls| - 1];
      Answers(calls[..|calls| - 1]) + [Answer(Run(calls[..|calls| - 1]), last.op, last.now)]
  }

  ghost predicate Forward(calls: seq<Call>) {
    forall i, j :: 0 <= i < j < |calls| ==> calls[i].now <= calls[j].now
  }
}
