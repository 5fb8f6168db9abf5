/**
  The approximate counter of stores without a sliding window: one `incr` key per
  window-sized bucket. Proved on the shared-dictionary store, with any other
  traffic on other keys in between.
 */
module FixedWindow {
  import opened Prelude
  import opened SlidingWindow
  import opened TtlMap
  import opened KeyStrings
  import M = Manager

  /** The counter of one rule and identifier, and the difference between the store's clock and the wall clock. */
  datatype Counter = Counter(requestKey: string, handler: string, index: nat, window: pos, skew: real)

  type Wall = t: real | t >= 0.0 witness 0.0

  function Bucket(wall: Wall, window: pos): nat {
    DivideByWindow(wall, window);
    (wall / window as real).Floor
  }

  lemma DivideByWindow(wall: Wall, window: pos)
    ensures wall / window as real >= 0.0
  {
  }

  lemma BucketSpan(wall: Wall, window: pos)
    ensures
      var b := Bucket(wall, window);
      BucketStart(b, window) <= wall < BucketStart(b + 1, window)
  {
    var q := wall / window as real;
    var b := Bucket(wall, window);
    var end := (b + 1) as real;
    assert wall == q * window as real;
    assert b as real <= q < end;
    ScaleWeak(b as real, q, window);
    Scale(q, end, window);
    assert BucketStart(b + 1, window) == end * window as real;
  }

  lemma BucketIsUnique(wall: Wall, window: pos, b: nat)
    requires BucketStart(b, window) <= wall < BucketStart(b + 1, window)
    ensures Bucket(wall, window) == b
  {
    BucketSpan(wall, window);
    var b' := Bucket(wall, window);
    if b' < b {
      StartsInOrder(b' + 1, b, window);
    }
    if b' > b {
      StartsInOrder(b + 1, b', window);
    }
  }

  /** A moment is in a bucket exactly when it lies between its start and the next. */
  lemma InBucket(wall: Wall, window: pos, b: nat)
    ensures Bucket(wall, window) == b <==> BucketStart(b, window) <= wall < BucketStart(b + 1, window)
    ensures BucketStart(b + 1, window) == BucketStart(b, window) + window as real
  {
    BucketSpan(wall, window);
    if BucketStart(b, window) <= wall < BucketStart(b + 1, window) {
      BucketIsUnique(wall, window, b);
    }
  }

  lemma Scale(a: real, b: real, window: pos)
    requires a < b
    ensures a * window as real < b * window as real
  {
  }

  lemma ScaleWeak(a: real, b: real, window: pos)
    requires a <= b
    ensures a * window as real <= b * window as real
  {
  }

  function BucketStart(b: nat, window: pos): real {
    b as real * window as real
  }

  lemma StartsInOrder(a: nat, b: nat, window: pos)
    requires a <= b
    ensures BucketStart(a, window) <= BucketStart(b, window)
  {
    ScaleWeak(a as real, b as real, window);
  }

  function KeyAt(c: Counter, b: nat): string {
    ApproxCounterKey(c.requestKey, c.handler, c.index, b)
  }

  function HitOp(c: Counter, wall: Wall): Op {
    Incr(KeyAt(c, Bucket(wall, c.window)), Some(2 * c.window))
  }

  /** The base class's `record_hit`; None stands for the ValueError of a non-numeric counter. */
  method RecordHit(storage: M.ManagerStorage, c: Counter, wall: Wall) returns (r: Option<HitResult>)
    modifies storage
    ensures
      var (after, answer) := M.Step(old(storage.View()), HitOp(c, wall), wall + c.skew);
      && storage.View() == after
      && r == if answer.Count?
              then Some(HitResult(answer.n, Some(BucketStart(Bucket(wall, c.window), c.window)), wall, None)) else None
  {
    var bucket := Bucket(wall, c.window);
    var bucketStart := BucketStart(bucket, c.window);
    var answer := storage.Incr(KeyAt(c, bucket), Some(2 * c.window), wall + c.skew);
    if answer.Count? {
      r := Some(HitResult(answer.n, Some(bucketStart), wall, None));
    } else {
      r := None;
    }
  }

  // ---------------------------------------------------------------------- runs

  /** A hit on the counter, or any call on a key that is not one of its buckets. */
  datatype Event = Hit(wall: Wall) | Other(op: Op, now: real)

  function CallOf(c: Counter, e: Event): Call {
    match e
    case Hit(wall) => Call(HitOp(c, wall), wall + c.skew)
    case Other(op, now) => Call(op, now)
  }

  function Calls(c: Counter, events: seq<Event>): seq<Call> {
    seq(|events|, i requires 0 <= i < |events| => CallOf(c, events[i]))
  }

  ghost predicate Elsewhere(c: Counter, events: seq<Event>) {
    forall i, b :: 0 <= i < |events| && events[i].Other? ==> events[i].op.key != KeyAt(c, b)
  }

  /** How many hits fell into a bucket. */
  function HitsIn(c: Counter, events: seq<Event>, b: nat): nat {
    if events == [] then 0
    else
      var e := events[|events| - 1];
      HitsIn(c, events[..|events| - 1], b) + if e.Hit? && Bucket(e.wall, c.window) == b then 1 else 0
  }

  lemma CallsPrefix(c: Counter, events: seq<Event>)
    requires events != []
    ensures Calls(c, events)[..|events| - 1] == Calls(c, events[..|events| - 1])
  {
  }

  /** A bucket's entry holds its hit count and outlives the bucket. */
  ghost predicate Counted(c: Counter, m: Store, hits: nat, b: nat) {
    var k := KeyAt(c, b);
    if hits == 0 then k !in m
    else k in m && m[k].value == Number(hits) && m[k].expiry.Some?
         && m[k].expiry.value >= BucketStart(b + 2, c.window) + c.skew
  }

  lemma BucketBounds(c: Counter, wall: Wall)
    ensures
      var b := Bucket(wall, c.window);
      && wall < BucketStart(b + 2, c.window)
      && wall + (2 * c.window) as real >= BucketStart(b + 2, c.window)
  {
    var b := Bucket(wall, c.window);
    InBucket(wall, c.window, b);
    InBucket(wall, c.window, b + 1);
  }

  lemma MapAfterLast(c: Counter, events: seq<Event>)
    requires events != []
    ensures
      var call := CallOf(c, events[|events| - 1]);
      TtlMap.Run(Calls(c, events)) == TtlMap.Apply(TtlMap.Run(Calls(c, events[..|events| - 1])), call.op, call.now)
  {
    CallsPrefix(c, events);
  }

  /** The counter of a bucket never expires inside its bucket, and so counts every hit of the bucket. */
  lemma {:induction false} BucketsCountHits(c: Counter, events: seq<Event>, b: nat)
    requires Elsewhere(c, events)
    ensures Counted(c, TtlMap.Run(Calls(c, events)), HitsIn(c, events, b), b)
  {
    if events != [] {
      var n := |events| - 1;
      BucketsCountHits(c, events[..n], b);
      EventCounts(c, TtlMap.Run(Calls(c, events[..n])), HitsIn(c, events[..n], b), b, events[n]);
      MapAfterLast(c, events);
    }
  }

  lemma EventCounts(c: Counter, m: Store, hits: nat, b: nat, e: Event)
    requires Counted(c, m, hits, b) && (e.Other? ==> e.op.key != KeyAt(c, b))
    ensures
      var call := CallOf(c, e);
      var mine := e.Hit? && Bucket(e.wall, c.window) == b;
      Counted(c, TtlMap.Apply(m, call.op, call.now), if mine then hits + 1 else hits, b)
  {
    match e {
      case Other(op, now) => OtherLeavesCount(c, m, hits, b, op, now);
      case Hit(wall) => HitCounts(c, m, hits, b, wall);
    }
  }

  lemma OtherLeavesCount(c: Counter, m: Store, hits: nat, b: nat, op: Op, now: real)
    requires Counted(c, m, hits, b) && op.key != KeyAt(c, b)
    ensures Counted(c, TtlMap.Apply(m, op, now), hits, b)
  {
  }

  lemma HitCounts(c: Counter, m: Store, hits: nat, b: nat, wall: Wall)
    requires Counted(c, m, hits, b)
    ensures
      var mine := Bucket(wall, c.window) == b;
      Counted(c, TtlMap.Apply(m, HitOp(c, wall), wall + c.skew), if mine then hits + 1 else hits, b)
  {
    BucketsDistinguish(c.requestKey, c.handler, c.index, b, Bucket(wall, c.window));
    BucketBounds(c, wall);
  }

  // ----------------------------------------------------------------- admission

  /** What the shared-dictionary store answers to the last call. */
  function LastAnswer(c: Counter, events: seq<Event>): Response
    requires events != []
  {
    var n := |events| - 1;
    var call := CallOf(c, events[n]);
    M.Step(M.RunManager(Calls(c, events[..n])), call.op, call.now).1
  }

  ghost predicate Plausible(c: Counter, events: seq<Event>) {
    Elsewhere(c, events) && Forward(Calls(c, events)) && M.OrdinaryKeys(Calls(c, events))
  }

  lemma PlausiblePrefix(c: Counter, events: seq<Event>)
    requires events != [] && Plausible(c, events)
    ensures Plausible(c, events[..|events| - 1])
  {
    var n := |events| - 1;
    var calls := Calls(c, events);
    CallsPrefix(c, events);
    assert forall i :: 0 <= i < n ==> calls[..n][i] == calls[i];
  }

  /** The store answers the last call as the TTL map would. */
  lemma LastAnswerIsTheMaps(c: Counter, events: seq<Event>)
    requires Plausible(c, events) && events != []
    ensures
      var call := CallOf(c, events[|events| - 1]);
      LastAnswer(c, events) == TtlMap.Answer(TtlMap.Run(Calls(c, events[..|events| - 1])), call.op, call.now)
  {
    var n := |events| - 1;
    var calls := Calls(c, events);
    CallsPrefix(c, events);
    PlausiblePrefix(c, events);
    if n > 0 {
      assert calls[n - 1].now <= calls[n].now;
    }
    M.StoreMatchesMap(calls[..n], calls[n].now);
    M.SameStep(calls, calls[n].now);
  }

  /** On any traffic, a hit is told exactly how many hits its bucket has seen. */
  lemma HitIsCounted(c: Counter, events: seq<Event>)
    requires Plausible(c, events) && events != [] && events[|events| - 1].Hit?
    ensures LastAnswer(c, events) == Count(HitsIn(c, events, Bucket(events[|events| - 1].wall, c.window)))
  {
    var n := |events| - 1;
    var wall := events[n].wall;
    LastAnswerIsTheMaps(c, events);
    MapCountsHit(c, events[..n], wall);
    assert HitsIn(c, events, Bucket(wall, c.window)) == HitsIn(c, events[..n], Bucket(wall, c.window)) + 1;
  }

  lemma MapCountsHit(c: Counter, events: seq<Event>, wall: Wall)
    requires Elsewhere(c, events)
    ensures TtlMap.Answer(TtlMap.Run(Calls(c, events)), HitOp(c, wall), wall + c.skew)
            == Count(HitsIn(c, events, Bucket(wall, c.window)) + 1)
  {
    BucketsCountHits(c, events, Bucket(wall, c.window));
    BucketBounds(c, wall);
  }

  /** Whether the last event is a hit that a rule of `count` lets through. */
  predicate LastAdmitted(c: Counter, events: seq<Event>, count: pos)
    requires events != []
  {
    events[|events| - 1].Hit? && LastAnswer(c, events).Count? && LastAnswer(c, events).n <= count
  }

  ghost function AdmittedIn(c: Counter, events: seq<Event>, count: pos, span: real -> bool): nat {
    if events == [] then 0
    else
      var n := |events| - 1;
      AdmittedIn(c, events[..n], count, span)
      + if LastAdmitted(c, events, count) && span(events[n].wall) then 1 else 0
  }

  function AdmittedInBucket(c: Counter, events: seq<Event>, count: pos, b: nat): nat {
    if events == [] then 0
    else
      var n := |events| - 1;
      AdmittedInBucket(c, events[..n], count, b)
      + if LastAdmitted(c, events, count) && Bucket(events[n].wall, c.window) == b then 1 else 0
  }

  /** Each bucket admits its first `count` hits and no more. */
  lemma {:induction false} BucketAdmits(c: Counter, events: seq<Event>, count: pos, b: nat)
    requires Plausible(c, events)
    ensures AdmittedInBucket(c, events, count, b)
            == if HitsIn(c, events, b) <= count then HitsIn(c, events, b) else count
  {
    if events != [] {
      var n := |events| - 1;
      PlausiblePrefix(c, events);
      BucketAdmits(c, events[..n], count, b);
      if events[n].Hit? {
        HitIsCounted(c, events);
      }
    }
  }

  /** All moments of the span lie in two neighbouring buckets. */
  ghost predicate Covers(span: real -> bool, window: pos, b: nat) {
    forall t: Wall :: span(t) ==> Bucket(t, window) == b || Bucket(t, window) == b + 1
  }

  lemma NarrowSpanCovered(span: real -> bool, window: pos, t0: Wall) returns (b: nat)
    requires Narrow(span, window) && span(t0)
    ensures Covers(span, window, b)
  {
    var b0 := Bucket(t0, window);
    InBucket(t0, window, b0);
    if early: Wall :| span(early) && Bucket(early, window) < b0 {
      b := b0 - 1;
      forall t: Wall | span(t) ensures Bucket(t, window) == b || Bucket(t, window) == b + 1 {
        Neighbours(t, t0, window);
        Neighbours(t0, t, window);
        Neighbours(early, t, window);
        Neighbours(early, t0, window);
      }
    } else {
      b := b0;
      forall t: Wall | span(t) ensures Bucket(t, window) == b || Bucket(t, window) == b + 1 {
        Neighbours(t0, t, window);
      }
    }
  }

  /** Less than a window later is at most one bucket later. */
  lemma Neighbours(s: Wall, t: Wall, window: pos)
    requires t - s < window as real
    ensures Bucket(t, window) <= Bucket(s, window) + 1
  {
    var bs, bt := Bucket(s, window), Bucket(t, window);
    InBucket(s, window, bs);
    InBucket(t, window, bt);
    InBucket(s, window, bs + 1);
    if bt >= bs + 2 {
      StartsInOrder(bs + 2, bt, window);
    }
  }

  lemma {:induction false} CoveredAdmissions(c: Counter, events: seq<Event>, count: pos, span: real -> bool, b: nat)
    requires Covers(span, c.window, b)
    ensures AdmittedIn(c, events, count, span)
            <= AdmittedInBucket(c, events, count, b) + AdmittedInBucket(c, events, count, b + 1)
  {
    if events != [] {
      CoveredAdmissions(c, events[..|events| - 1], count, span, b);
    }
  }

  lemma {:induction false} NothingInSpan(c: Counter, events: seq<Event>, count: pos, span: real -> bool)
    requires forall t: Wall :: !span(t)
    ensures AdmittedIn(c, events, count, span) == 0
  {
    if events != [] {
      NothingInSpan(c, events[..|events| - 1], count, span);
    }
  }

  /** The approximation bound: a span narrower than the window admits at most twice the count. */
  lemma TwiceTheCount(c: Counter, events: seq<Event>, count: pos, span: real -> bool)
    requires Plausible(c, events) && Narrow(span, c.window)
    ensures AdmittedIn(c, events, count, span) <= 2 * count
  {
    if t0: Wall :| span(t0) {
      var b := NarrowSpanCovered(span, c.window, t0);
      CoveredAdmissions(c, events, count, span, b);
      BucketAdmits(c, events, count, b);
      BucketAdmits(c, events, count, b + 1);
    } else {
      NothingInSpan(c, events, count, span);
    }
  }

  // -------------------------------------------------------------- the bound is met

  /** `count` hits at one moment, and `count` more at another. */
  function Burst(early: Wall, late: Wall, count: pos): seq<Event> {
    Repeat(Hit(early), count) + Repeat(Hit(late), count)
  }

  lemma {:induction false} BurstHits(c: Counter, early: Wall, late: Wall, count: pos, n: nat)
    requires n <= 2 * count && Bucket(early, c.window) != Bucket(late, c.window)
    ensures HitsIn(c, Burst(early, late, count)[..n], Bucket(early, c.window)) == if n <= count then n else count
    ensures HitsIn(c, Burst(early, late, count)[..n], Bucket(late, c.window)) == if n <= count then 0 else n - count
  {
    var events := Burst(early, late, count);
    if n > 0 {
      BurstHits(c, early, late, count, n - 1);
      assert events[..n][..n - 1] == events[..n - 1];
    }
  }

  lemma ApproxKeysAreOrdinary(c: Counter, b: nat)
    ensures !M.Reserved(KeyAt(c, b))
  {
    assert |KeyAt(c, b)| >= |APPROX_PREFIX| && |M.EXPIRY_PREFIX| <= |APPROX_PREFIX|;
    assert KeyAt(c, b)[..|M.EXPIRY_PREFIX|][6] == APPROX_PREFIX[6] != M.EXPIRY_PREFIX[6];
  }

  lemma BurstIsPlausible(c: Counter, early: Wall, late: Wall, count: pos, n: nat)
    requires n <= 2 * count && early <= late
    ensures Plausible(c, Burst(early, late, count)[..n])
  {
    var calls := Calls(c, Burst(early, late, count)[..n]);
    forall i | 0 <= i < |calls| ensures !M.Reserved(calls[i].op.key) {
      ApproxKeysAreOrdinary(c, Bucket(Burst(early, late, count)[i].wall, c.window));
    }
  }

  lemma {:induction false} BurstAdmitted(
    c: Counter, early: Wall, late: Wall, count: pos, n: nat, span: real -> bool)
    requires n <= 2 * count && Bucket(early, c.window) < Bucket(late, c.window) && span(early) && span(late)
    ensures AdmittedIn(c, Burst(early, late, count)[..n], count, span) == n
  {
    var events := Burst(early, late, count);
    if n > 0 {
      BurstAdmitted(c, early, late, count, n - 1, span);
      assert events[..n][..n - 1] == events[..n - 1];
      BurstHitAdmitted(c, early, late, count, n);
      OneMoreAdmitted(c, events[..n], count, span);
    }
  }

  lemma OneMoreAdmitted(c: Counter, events: seq<Event>, count: pos, span: real -> bool)
    requires events != [] && events[|events| - 1].Hit? && span(events[|events| - 1].wall)
             && LastAdmitted(c, events, count)
    ensures AdmittedIn(c, events, count, span) == AdmittedIn(c, events[..|events| - 1], count, span) + 1
  {
  }

  lemma BurstHitAdmitted(c: Counter, early: Wall, late: Wall, count: pos, n: nat)
    requires 0 < n <= 2 * count && Bucket(early, c.window) < Bucket(late, c.window)
    ensures LastAdmitted(c, Burst(early, late, count)[..n], count)
  {
    EarlierBucket(early, late, c.window);
    BurstIsPlausible(c, early, late, count, n);
    HitIsCounted(c, Burst(early, late, count)[..n]);
    BurstHits(c, early, late, count, n);
  }

  lemma EarlierBucket(early: Wall, late: Wall, window: pos)
    requires Bucket(early, window) < Bucket(late, window)
    ensures early < late
  {
    InBucket(early, window, Bucket(early, window));
    InBucket(late, window, Bucket(late, window));
    StartsInOrder(Bucket(early, window) + 1, Bucket(late, window), window);
  }

  lemma BucketsMeet(window: pos)
    ensures Bucket(window as real - 0.5, window) == 0 && Bucket(window as real, window) == 1
  {
    InBucket(window as real - 0.5, window, 0);
    InBucket(window as real, window, 1);
    assert BucketStart(0, window) == 0.0 && BucketStart(1, window) == window as real;
  }

  /** Twice the count is reached within half a second, for every rule. */
  lemma TwiceTheCountIsReached(c: Counter, count: pos)
    ensures
      var (early, late) := (c.window as real - 0.5, c.window as real);
      var span := (t: real) => early <= t <= late;
      && Plausible(c, Burst(early, late, count)) && Narrow(span, c.window)
      && AdmittedIn(c, Burst(early, late, count), count, span) == 2 * count
  {
    var early, late := c.window as real - 0.5, c.window as real;
    BucketsMeet(c.window);
    BurstReachesTwice(c, early, late, count, t => early <= t <= late);
  }

  /** Any two moments in different buckets are enough. */
  lemma BurstReachesTwice(c: Counter, early: Wall, late: Wall, count: pos, span: real -> bool)
    requires Bucket(early, c.window) < Bucket(late, c.window) && span(early) && span(late)
    ensures Plausible(c, Burst(early, late, count))
    ensures AdmittedIn(c, Burst(early, late, count), count, span) == 2 * count
  {
    assert Burst(early, late, count)[..2 * count] == Burst(early, late, count);
    EarlierBucket(early, late, c.window);
    BurstIsPlausible(c, early, late, count, 2 * count);
    BurstAdmitted(c, early, late, count, 2 * count, span);
  }

  // ------------------------------------------------- where the rule's own bound holds

  /** In no run does the span admit more than the count. */
  ghost predicate KeepsCount(c: Counter, count: pos, span: real -> bool) {
    forall events | Plausible(c, events) :: AdmittedIn(c, events, count, span) <= count
  }

  ghost predicate WithinOneBucket(span: real -> bool, window: pos) {
    forall s: Wall, t: Wall | span(s) && span(t) :: Bucket(s, window) == Bucket(t, window)
  }

  lemma {:induction false} OneBucketAdmissions(c: Counter, events: seq<Event>, count: pos, span: real -> bool, b: nat)
    requires forall t: Wall | span(t) :: Bucket(t, c.window) == b
    ensures AdmittedIn(c, events, count, span) <= AdmittedInBucket(c, events, count, b)
  {
    if events != [] {
      OneBucketAdmissions(c, events[..|events| - 1], count, span, b);
    }
  }

  /** The rule's own bound holds over a span exactly if the span does not reach into two buckets. */
  lemma KeepsCountIffOneBucket(c: Counter, count: pos, span: real -> bool)
    ensures KeepsCount(c, count, span) <==> WithinOneBucket(span, c.window)
  {
    if early: Wall, late: Wall :| span(early) && span(late) && Bucket(early, c.window) < Bucket(late, c.window) {
      BurstReachesTwice(c, early, late, count, span);
    } else {
      OneBucketKeepsCount(c, count, span);
    }
  }

  lemma OneBucketKeepsCount(c: Counter, count: pos, span: real -> bool)
    requires WithinOneBucket(span, c.window)
    ensures KeepsCount(c, count, span)
  {
    forall events | Plausible(c, events) ensures AdmittedIn(c, events, count, span) <= count {
      if t: Wall :| span(t) {
        OneBucketAdmissions(c, events, count, span, Bucket(t, c.window));
        BucketAdmits(c, events, count, Bucket(t, c.window));
      } else {
        NothingInSpan(c, events, count, span);
      }
    }
  }

  // -------------------------------------------------------------- retry-after

  /** The evaluator's `Retry-After` for an approximate hit. */
  function Wait(wall: Wall, window: pos): int {
    RetryAfter(HitResult(0, Some(BucketStart(Bucket(wall, window), window)), wall, None), window)
  }

  lemma WaitBounds(wall: Wall, window: pos)
    ensures
      var next := BucketStart(Bucket(wall, window) + 1, window);
      && 1 <= Wait(wall, window) <= window
      && next <= wall + Wait(wall, window) as real < next + 1.0
  {
    var b := Bucket(wall, window);
    InBucket(wall, window, b);
  }

  /** Waiting that long leads exactly into the next bucket, and no shorter whole number of seconds does. */
  lemma WaitReachesNextBucket(wall: Wall, window: pos)
    ensures 1 <= Wait(wall, window) <= window
    ensures Bucket(wall + Wait(wall, window) as real, window) == Bucket(wall, window) + 1
    ensures forall n: nat | n < Wait(wall, window) :: BucketAfter(wall, n, window) == Bucket(wall, window)
  {
    var b := Bucket(wall, window);
    WaitBounds(wall, window);
    InBucket(wall, window, b);
    InBucket(wall, window, b + 1);
    BucketIsUnique(wall + Wait(wall, window) as real, window, b + 1);
    forall n: nat | n < Wait(wall, window) ensures BucketAfter(wall, n, window) == b {
      BucketIsUnique(wall + n as real, window, b);
    }
  }

  function BucketAfter(wall: Wall, seconds: nat, window: pos): nat {
    Bucket(wall + seconds as real, window)
  }

  /** Whoever waits at least as long as told arrives in a later bucket. */
  lemma WaitLeavesBucket(wall: Wall, later: Wall, window: pos)
    requires later >= wall + Wait(wall, window) as real
    ensures Bucket(later, window) > Bucket(wall, window)
  {
    var b := Bucket(later, window);
    WaitBounds(wall, window);
    InBucket(later, window, b);
    if b <= Bucket(wall, window) {
      StartsInOrder(b + 1, Bucket(wall, window) + 1, window);
    }
  }

  /** With no further hits, a request that waited at least as long as told is admitted. */
  lemma WaitingIsRewarded(c: Counter, events: seq<Event>, count: pos, wall: Wall, later: Wall)
    requires Plausible(c, events + [Hit(later)])
    requires later >= wall + Wait(wall, c.window) as real
    requires forall i :: 0 <= i < |events| && events[i].Hit? ==> events[i].wall <= wall
    ensures LastAdmitted(c, events + [Hit(later)], count)
  {
    var all := events + [Hit(later)];
    var b := Bucket(later, c.window);
    assert all[..|events|] == events;
    HitIsCounted(c, all);
    WaitLeavesBucket(wall, later, c.window);
    NoHitsYet(c, events, wall, b);
  }

  lemma {:induction false} NoHitsYet(c: Counter, events: seq<Event>, wall: Wall, b: nat)
    requires b > Bucket(wall, c.window)
    requires forall i :: 0 <= i < |events| && events[i].Hit? ==> events[i].wall <= wall
    ensures HitsIn(c, events, b) == 0
  {
    if events != [] {
      var n := |events| - 1;
      NoHitsYet(c, events[..n], wall, b);
      if events[n].Hit? {
        InBucket(events[n].wall, c.window, b);
        InBucket(wall, c.window, Bucket(wall, c.window));
        StartsInOrder(Bucket(wall, c.window) + 1, b, c.window);
      }
    }
  }
}
