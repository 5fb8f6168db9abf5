/**
  The block and allow lists kept as `ip:` entries of the in-memory store. `log`
  is the history of everything any client did to the store; address
  normalisation is an opaque partial function.
 */
module IPManager {
  import opened Prelude
  import opened TtlMap
  import opened Memory
  import K = KeyValue

  const MARK := Text("1", Some(1))

  function BlockKey(ip: string): string {
    "ip:block:" + ip
  }

  function AllowKey(ip: string): string {
    "ip:allow:" + ip
  }

  /** The entries of different addresses and of the two lists never meet, and all are protected. */
  lemma ControlKeys(a: string, b: string)
    ensures K.IsIp(BlockKey(a)) && K.IsIp(AllowKey(a))
    ensures BlockKey(a) == BlockKey(b) <==> a == b
    ensures AllowKey(a) == AllowKey(b) <==> a == b
    ensures BlockKey(a) != AllowKey(b)
  {
    assert BlockKey(a)[9..] == a && BlockKey(b)[9..] == b;
    assert AllowKey(a)[9..] == a && AllowKey(b)[9..] == b;
    assert BlockKey(a)[3] == 'b' && AllowKey(b)[3] == 'a';
    assert BlockKey(a)[..3] == "ip:" && AllowKey(a)[..3] == "ip:";
  }

  /** Whether the last write to an entry that took effect still stands at `now`. */
  function Stands(log: seq<K.Event>, capacity: pos, key: string, now: real): bool {
    K.Visible(K.LastWrite(log, capacity, key), now).Some?
  }

  /** Nobody counts on control entries; they are only set, read and deleted. */
  ghost predicate Uncounted(log: seq<K.Event>) {
    forall i :: 0 <= i < |log| && log[i].Access? && log[i].op.Incr? ==> !K.IsIp(log[i].op.key)
  }

  /** One call on the store was added to the log. */
  ghost predicate Adds(log: seq<K.Event>, log': seq<K.Event>, op: Op, now: real) {
    && |log'| == |log| + 1 && log'[..|log|] == log
    && log'[|log|].Access? && log'[|log|].op == op && log'[|log|].now == now
  }

  /** Reads change no entry's last write, and other calls only that of their own key. */
  lemma OtherWritesStand(log: seq<K.Event>, log': seq<K.Event>, op: Op, now: real, capacity: pos, key: string)
    requires Adds(log, log', op, now) && (op.Get? || op.key != key)
    ensures K.LastWrite(log', capacity, key) == K.LastWrite(log, capacity, key)
  {
  }

  /**
    What one address is told on one list is changed neither by asking nor by
    writing another address or the other list.
   */
  lemma ListsAreIndependent(
    log: seq<K.Event>, log': seq<K.Event>, op: Op, now: real, capacity: pos, a: string, b: string, later: real)
    requires Adds(log, log', op, now)
    ensures op.Get? || op.key == AllowKey(b) || (op.key == BlockKey(b) && a != b) ==>
              Stands(log', capacity, BlockKey(a), later) == Stands(log, capacity, BlockKey(a), later)
    ensures op.Get? || op.key == BlockKey(b) || (op.key == AllowKey(b) && a != b) ==>
              Stands(log', capacity, AllowKey(a), later) == Stands(log, capacity, AllowKey(a), later)
  {
    ControlKeys(a, b);
    ControlKeys(b, a);
    if op.Get? || op.key != BlockKey(a) {
      OtherWritesStand(log, log', op, now, capacity, BlockKey(a));
    }
    if op.Get? || op.key != AllowKey(a) {
      OtherWritesStand(log, log', op, now, capacity, AllowKey(a));
    }
  }

  datatype Outcome = Stored | Full | InvalidAddress

  datatype Verdict = Known(yes: bool) | BadAddress

  class IPManager {
    const storage: InMemoryStorage
    const normalize: string -> Option<string>

    constructor (storage: InMemoryStorage, normalize: string -> Option<string>)
      ensures this.storage == storage && this.normalize == normalize
    {
      this.storage := storage;
      this.normalize := normalize;
    }

    ghost predicate Follows(log: seq<K.Event>)
      reads storage
    {
      K.LegalRun(log, storage.maxKeys) && storage.View() == K.RunStore(log, storage.maxKeys)
    }

    /** The log is that of the store, and the store is ready for a call at `now`. */
    ghost predicate Ready(log: seq<K.Event>, now: real)
      reads storage
    {
      Follows(log) && Uncounted(log) && K.Before(log, now)
    }

    /** What a write to a control entry does: the new entry stands, unless the store was full of live ones. */
    ghost predicate Wrote(
      log: seq<K.Event>, log': seq<K.Event>, key: string, duration: Option<pos>, now: real, r: Outcome)
    {
      && Adds(log, log', Set(key, MARK, duration), now) && !r.InvalidAddress?
      && (r.Full? <==> K.FullOfLiveIps(K.RunStore(log, storage.maxKeys), key, now, storage.maxKeys))
      && K.LastWrite(log', storage.maxKeys, key)
         == if r.Full? then K.LastWrite(log, storage.maxKeys, key) else Some(Entry(MARK, Deadline(duration, now)))
    }

    method BlockIp(ip: string, duration: Option<pos>, now: real, ghost log: seq<K.Event>)
      returns (r: Outcome, ghost log': seq<K.Event>)
      requires Ready(log, now)
      modifies storage`values, storage`expires, storage`lastAccess
      ensures Ready(log', now)
      ensures if normalize(ip).None? then r.InvalidAddress? && log' == log
              else Wrote(log, log', BlockKey(normalize(ip).value), duration, now, r)
    {
      var normalized := normalize(ip);
      if normalized.None? {
        return InvalidAddress, log;
      }
      r, log' := Write(BlockKey(normalized.value), duration, now, log);
    }

    method AllowIp(ip: string, now: real, ghost log: seq<K.Event>) returns (r: Outcome, ghost log': seq<K.Event>)
      requires Ready(log, now)
      modifies storage`values, storage`expires, storage`lastAccess
      ensures Ready(log', now)
      ensures if normalize(ip).None? then r.InvalidAddress? && log' == log
              else Wrote(log, log', AllowKey(normalize(ip).value), None, now, r)
    {
      var normalized := normalize(ip);
      if normalized.None? {
        return InvalidAddress, log;
      }
      r, log' := Write(AllowKey(normalized.value), None, now, log);
    }

    method UnblockIp(ip: string, now: real, ghost log: seq<K.Event>) returns (r: Outcome, ghost log': seq<K.Event>)
      requires Ready(log, now)
      modifies storage`values, storage`expires, storage`lastAccess
      ensures Ready(log', now)
      ensures if normalize(ip).None? then r.InvalidAddress? && log' == log
              else
                var key := BlockKey(normalize(ip).value);
                r.Stored? && Adds(log, log', Delete(key), now) && K.LastWrite(log', storage.maxKeys, key) == None
    {
      var normalized := normalize(ip);
      if normalized.None? {
        return InvalidAddress, log;
      }
      log' := Erase(BlockKey(normalized.value), now, log);
      r := Stored;
    }

    method RemoveAllow(ip: string, now: real, ghost log: seq<K.Event>) returns (r: Outcome, ghost log': seq<K.Event>)
      requires Ready(log, now)
      modifies storage`values, storage`expires, storage`lastAccess
      ensures Ready(log', now)
      ensures if normalize(ip).None? then r.InvalidAddress? && log' == log
              else
                var key := AllowKey(normalize(ip).value);
                r.Stored? && Adds(log, log', Delete(key), now) && K.LastWrite(log', storage.maxKeys, key) == None
    {
      var normalized := normalize(ip);
      if normalized.None? {
        return InvalidAddress, log;
      }
      log' := Erase(AllowKey(normalized.value), now, log);
      r := Stored;
    }

    /** The answer is exactly whether the last successful block still stands. */
    method IsBlocked(ip: string, now: real, ghost log: seq<K.Event>) returns (r: Verdict, ghost log': seq<K.Event>)
      requires Ready(log, now)
      modifies storage`values, storage`expires, storage`lastAccess
      ensures Ready(log', now)
      ensures if normalize(ip).None? then r.BadAddress? && log' == log
              else
                var key := BlockKey(normalize(ip).value);
                Adds(log, log', Get(key), now) && r == Known(Stands(log, storage.maxKeys, key, now))
    {
      var normalized := normalize(ip);
      if normalized.None? {
        return BadAddress, log;
      }
      var value;
      ControlKeys(normalized.value, normalized.value);
      value, log' := Read(BlockKey(normalized.value), now, log);
      r := Known(value.Some?);
    }

    method IsAllowed(ip: string, now: real, ghost log: seq<K.Event>) returns (r: Verdict, ghost log': seq<K.Event>)
      requires Ready(log, now)
      modifies storage`values, storage`expires, storage`lastAccess
      ensures Ready(log', now)
      ensures if normalize(ip).None? then r.BadAddress? && log' == log
              else
                var key := AllowKey(normalize(ip).value);
                Adds(log, log', Get(key), now) && r == Known(Stands(log, storage.maxKeys, key, now))
    {
      var normalized := normalize(ip);
      if normalized.None? {
        return BadAddress, log;
      }
      var value;
      ControlKeys(normalized.value, normalized.value);
      value, log' := Read(AllowKey(normalized.value), now, log);
      r := Known(value.Some?);
    }

    // ------------------------------------------------------------ store access

    method Write(key: string, duration: Option<pos>, now: real, ghost log: seq<K.Event>)
      returns (r: Outcome, ghost log': seq<K.Event>)
      requires Ready(log, now)
      modifies storage`values, storage`expires, storage`lastAccess
      ensures Ready(log', now) && Wrote(log, log', key, duration, now, r)
    {
      K.StoreStaysWellFormed(log, storage.maxKeys);
      var answer, victims := storage.Set(key, MARK, duration, now);
      ghost var op := Set(key, MARK, duration);
      K.UnavailableExactly(K.RunStore(log, storage.maxKeys), op, now, storage.maxKeys, victims);
      log' := log + [K.Access(op, now, victims)];
      assert log'[..|log|] == log;
      r := if answer.Unavailable? then Full else Stored;
    }

    method Erase(key: string, now: real, ghost log: seq<K.Event>) returns (ghost log': seq<K.Event>)
      requires Ready(log, now)
      modifies storage`values, storage`expires, storage`lastAccess
      ensures Ready(log', now) && Adds(log, log', Delete(key), now)
      ensures K.LastWrite(log', storage.maxKeys, key) == None
    {
      storage.Delete(key);
      log' := log + [K.Access(Delete(key), now, {})];
      assert log'[..|log|] == log;
    }

    method Read(key: string, now: real, ghost log: seq<K.Event>)
      returns (value: Option<Value>, ghost log': seq<K.Event>)
      requires Ready(log, now) && K.IsIp(key)
      modifies storage`values, storage`expires, storage`lastAccess
      ensures Ready(log', now) && Adds(log, log', Get(key), now)
      ensures value.Some? == Stands(log, storage.maxKeys, key, now)
    {
      K.ControlEntriesAreExact(log, storage.maxKeys, key, now);
      K.StoreStaysWellFormed(log, storage.maxKeys);
      K.StepAgrees(K.RunStore(log, storage.maxKeys), Get(key), now, storage.maxKeys, {}, key);
      value := storage.Get(key, now);
      log' := log + [K.Access(Get(key), now, {})];
      assert log'[..|log|] == log;
    }
  }
}
