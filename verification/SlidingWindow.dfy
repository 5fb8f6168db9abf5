/**
  One sliding-window counter: the deque of hit times kept for one
  (identifier, handler, rule index), the capped recording of a hit and the
  evaluator's `Retry-After` arithmetic, with the theorems about every run of
  one counter.
 */
module SlidingWindow {
  import opened Prelude

  /** What `record_hit` reports to the evaluator. */
  datatype HitResult = HitResult(
    hitCount: int, oldest: Option<real>, current: real, retryAfter: Option<real>)

  predicate Sorted(h: seq<real>) {
    forall i, j :: 0 <= i < j < |h| ==> h[i] <= h[j]
  }

  predicate NoneAfter(h: seq<real>, now: real) {
    forall i :: 0 <= i < |h| ==> h[i] <= now
  }

  // ---------------------------------------------------------------- recording

  /** The history once the expired hits have been popped from its front. */
  function Prune(h: seq<real>, threshold: real): seq<real> {
    if h != [] && h[0] <= threshold then Prune(h[1..], threshold) else h
  }

  /** The history after one hit at `now`; `cap` is `max_hits`. */
  function Recorded(h: seq<real>, now: real, window: pos, cap: Option<pos>): seq<real> {
    var kept := Prune(h, now - window as real);
    if cap.None? || |kept| < cap.value then kept + [now] else kept
  }

  /** The answer computed from the history that the hit left behind. */
  function Report(h: seq<real>, now: real, cap: Option<pos>): HitResult {
    HitResult(
      |h|,
      if h == [] then None else Some(h[0]),
      now,
      if cap.Some? && cap.value > 1 && |h| >= cap.value then Some(h[|h| - cap.value + 1]) else None)
  }

  /** The pruning loop. */
  method CleanupCounter(history: seq<real>, now: real, window: pos) returns (kept: seq<real>)
    ensures kept == Prune(history, now - window as real)
  {
    var threshold := now - window as real;
    kept := history;
    while kept != [] && kept[0] <= threshold
      invariant Prune(kept, threshold) == Prune(history, threshold)
      decreases |kept|
    {
      kept := kept[1..];
    }
  }

  // -------------------------------------------------------------- retry-after

  function RetryAfterSeconds(basis: Option<real>, now: real, window: pos): int {
    if basis.None? then 1
    else
      var wait := Ceil(window as real - (now - basis.value));
      if wait < 1 then 1 else wait
  }

  /** The timestamp the evaluator waits on: `retry_after_timestamp`, else the oldest hit. */
  function RetryBasis(r: HitResult): Option<real> {
    if r.retryAfter.Some? then r.retryAfter else r.oldest
  }

  function RetryAfter(r: HitResult, window: pos): int {
    RetryAfterSeconds(RetryBasis(r), r.current, window)
  }

  /** A rule of `count` hits matches when the reported count exceeds it. */
  predicate Matches(r: HitResult, count: pos) {
    r.hitCount > count
  }

  /** The cap a rule passes to the store. */
  function CapOf(count: pos): Option<pos> {
    Some(count + 1)
  }

  // ------------------------------------------------------------ about pruning

  /** Pruning drops a prefix of expired hits and stops at the first live one. */
  lemma {:induction false} PruneIsSuffix(h: seq<real>, threshold: real) returns (k: nat)
    ensures k <= |h| && Prune(h, threshold) == h[k..]
    ensures forall i :: 0 <= i < k ==> h[i] <= threshold
    ensures k < |h| ==> h[k] > threshold
  {
    if h != [] && h[0] <= threshold {
      var k' := PruneIsSuffix(h[1..], threshold);
      k := k' + 1;
    } else {
      k := 0;
    }
  }

  /** On a sorted history, how many hits survive is decided by one entry. */
  lemma SurvivorsByEntry(h: seq<real>, threshold: real, k: nat)
    requires Sorted(h) && k < |h|
    ensures |Prune(h, threshold)| < |h| - k <==> h[k] <= threshold
  {
    var cut := PruneIsSuffix(h, threshold);
  }

  lemma PruneKeepsOrder(h: seq<real>, threshold: real, now: real)
    requires Sorted(h) && NoneAfter(h, now)
    ensures Sorted(Prune(h, threshold)) && NoneAfter(Prune(h, threshold), now)
    ensures forall i :: 0 <= i < |Prune(h, threshold)| ==> Prune(h, threshold)[i] > threshold
  {
    var cut := PruneIsSuffix(h, threshold);
  }

  /** Pruning early at a lower threshold leaves later pruning unaffected. */
  lemma {:induction false} PruneTwice(h: seq<real>, low: real, high: real)
    requires low <= high
    ensures Prune(Prune(h, low), high) == Prune(h, high)
  {
    if h != [] && h[0] <= low {
      PruneTwice(h[1..], low, high);
    }
  }

  lemma RecordedKeepsOrder(h: seq<real>, now: real, window: pos, cap: Option<pos>)
    requires Sorted(h) && NoneAfter(h, now)
    ensures Sorted(Recorded(h, now, window, cap)) && NoneAfter(Recorded(h, now, window, cap), now)
    ensures forall t :: t in Recorded(h, now, window, cap) ==> t > now - window as real
    ensures Recorded(h, now, window, cap) != []
  {
    PruneKeepsOrder(h, now - window as real, now);
  }

  /** On any reading of the clock: the whole seconds until the basis leaves the window, but at least one. */
  lemma WaitIsCeiling(basis: Option<real>, now: real, window: pos)
    ensures
      var wait := RetryAfterSeconds(basis, now, window);
      && wait >= 1
      && (basis.None? ==> wait == 1)
      && (basis.Some? ==>
            && basis.value + window as real <= now + wait as real
            && (wait > 1 ==> basis.value + window as real > now + (wait - 1) as real))
  {
  }

  // ---------------------------------------------------- exactness of Retry-After

  /** Whether a hit at `at`, the next one on this history, would match. */
  predicate WouldMatch(h: seq<real>, at: real, window: pos, count: pos) {
    |Recorded(h, at, window, CapOf(count))| > count
  }

  /** Whether every hit from `wait` seconds after `now` on would pass. */
  ghost predicate WaitSuffices(h: seq<real>, now: real, wait: int, window: pos, count: pos) {
    forall later: real | later >= now + wait as real :: !WouldMatch(h, later, window, count)
  }

  /**
    When a rule matches, its `Retry-After` is between one second and the window,
    a hit that arrives no earlier than promised does not match, and no smaller
    positive number of seconds has that property. The history may be longer than
    the cap.
   */
  lemma RetryAfterIsExact(h: seq<real>, now: real, window: pos, count: pos)
    requires Sorted(h) && NoneAfter(h, now)
    requires Matches(Report(Recorded(h, now, window, CapOf(count)), now, CapOf(count)), count)
    ensures
      var after := Recorded(h, now, window, CapOf(count));
      var wait := RetryAfter(Report(after, now, CapOf(count)), window);
      && 1 <= wait <= window
      && WaitSuffices(after, now, wait, window, count)
      && (forall n: int | n > 0 && WaitSuffices(after, now, n, window, count) :: wait <= n)
  {
    var after := Recorded(h, now, window, CapOf(count));
    RecordedKeepsOrder(h, now, window, CapOf(count));
    var k := |after| - count;
    var wait := RetryAfter(Report(after, now, CapOf(count)), window);
    assert after[k] in after;
    forall later: real | later >= now + wait as real
      ensures !WouldMatch(after, later, window, count)
    {
      SurvivorsByEntry(after, later - window as real, k);
    }
    forall n: int | n > 0 && WaitSuffices(after, now, n, window, count)
      ensures wait <= n
    {
      var later := now + n as real;
      SurvivorsByEntry(after, later - window as real, k);
      assert !WouldMatch(after, later, window, count);
    }
  }

  // ---------------------------------------------------------- runs of one counter

  /** The history after hits at the given times. */
  function History(times: seq<real>, window: pos, cap: Option<pos>): seq<real> {
    if times == [] then []
    else Recorded(History(times[..|times| - 1], window, cap), times[|times| - 1], window, cap)
  }

  lemma {:induction false} HistoryKeepsOrder(times: seq<real>, window: pos, cap: Option<pos>)
    requires Sorted(times)
    ensures Sorted(History(times, window, cap))
    ensures forall now | NoneAfter(times, now) :: NoneAfter(History(times, window, cap), now)
  {
    if times != [] {
      var last := times[|times| - 1];
      HistoryKeepsOrder(times[..|times| - 1], window, cap);
      assert NoneAfter(times[..|times| - 1], last);
      RecordedKeepsOrder(History(times[..|times| - 1], window, cap), last, window, cap);
    }
  }

  /** Whether the last of these hits exceeds the rule's count. */
  predicate LastMatches(times: seq<real>, window: pos, count: pos) {
    |History(times, window, CapOf(count))| > count
  }

  /** How many hits inside `span` did not match. */
  ghost function AdmittedIn(times: seq<real>, window: pos, count: pos, span: real -> bool): nat {
    if times == [] then 0
    else
      AdmittedIn(times[..|times| - 1], window, count, span)
      + if span(times[|times| - 1]) && !LastMatches(times, window, count) then 1 else 0
  }

  lemma AdmittedGrows(before: seq<real>, now: real, window: pos, count: pos, span: real -> bool)
    ensures AdmittedIn(before + [now], window, count, span)
            == AdmittedIn(before, window, count, span)
               + if span(now) && !LastMatches(before + [now], window, count) then 1 else 0
  {
    assert (before + [now])[..|before|] == before;
  }

  /** A span of time in which any two moments lie less than a window apart. */
  ghost predicate Narrow(span: real -> bool, window: pos) {
    forall s, t :: span(s) && span(t) ==> t - s < window as real
  }

  /** Number of entries strictly after a moment. */
  function CountAfter(h: seq<real>, moment: real): (n: nat)
    ensures n <= |h|
  {
    if h == [] then 0
    else CountAfter(h[..|h| - 1], moment) + if h[|h| - 1] > moment then 1 else 0
  }

  lemma {:induction false} CountAfterSplit(a: seq<real>, b: seq<real>, moment: real)
    ensures CountAfter(a + b, moment) == CountAfter(a, moment) + CountAfter(b, moment)
  {
    if b == [] {
      assert a + b == a;
    } else {
      assert (a + b)[..|a + b| - 1] == a + b[..|b| - 1];
      CountAfterSplit(a, b[..|b| - 1], moment);
    }
  }

  lemma {:induction false} CountAfterNone(h: seq<real>, moment: real)
    requires forall i :: 0 <= i < |h| ==> h[i] <= moment
    ensures CountAfter(h, moment) == 0
  {
    if h != [] {
      CountAfterNone(h[..|h| - 1], moment);
    }
  }

  /** Pruning hides nothing that is newer than its threshold. */
  lemma PruneKeepsCount(h: seq<real>, threshold: real, moment: real)
    requires threshold <= moment
    ensures CountAfter(Prune(h, threshold), moment) == CountAfter(h, moment)
  {
    var k := PruneIsSuffix(h, threshold);
    assert h == h[..k] + h[k..];
    CountAfterSplit(h[..k], h[k..], moment);
    CountAfterNone(h[..k], moment);
  }

  /** The capped history still holds every admitted hit that is inside the window. */
  lemma {:induction false} HistoryCoversAdmitted(
    times: seq<real>, window: pos, count: pos, span: real -> bool, moment: real)
    requires Sorted(times)
    requires times != [] ==> moment >= times[|times| - 1] - window as real
    requires forall t :: span(t) ==> t > moment
    ensures AdmittedIn(times, window, count, span) <= CountAfter(History(times, window, CapOf(count)), moment)
  {
    if times != [] {
      var n := |times| - 1;
      var before := History(times[..n], window, CapOf(count));
      var kept := Prune(before, times[n] - window as real);
      HistoryCoversAdmitted(times[..n], window, count, span, moment);
      PruneKeepsCount(before, times[n] - window as real, moment);
      CountAfterSplit(kept, [times[n]], moment);
    }
  }

  /**
    The admission bound: in any run of one counter with a non-decreasing clock,
    a span narrower than the window never holds more than `count` admitted hits.
   */
  lemma {:induction false} AdmissionBound(times: seq<real>, window: pos, count: pos, span: real -> bool)
    requires Sorted(times) && Narrow(span, window)
    ensures AdmittedIn(times, window, count, span) <= count
  {
    if times != [] {
      var n := |times| - 1;
      if span(times[n]) && !LastMatches(times, window, count) {
        HistoryCoversAdmitted(times, window, count, span, times[n] - window as real);
      } else {
        AdmissionBound(times[..n], window, count, span);
      }
    }
  }

  // ------------------------------------------------------------- subsequences

  /** `h` is `log` with some entries left out. */
  predicate Subsequence(h: seq<real>, log: seq<real>)
    decreases |log|
  {
    || h == []
    || (log != [] &&
        var rest := log[..|log| - 1];
        || (h[|h| - 1] == log[|log| - 1] && Subsequence(h[..|h| - 1], rest))
        || Subsequence(h, rest))
  }

  lemma {:induction false} SubsequenceDropFront(h: seq<real>, log: seq<real>, k: nat)
    requires Subsequence(h, log) && k <= |h|
    ensures Subsequence(h[k..], log)
    decreases |log|
  {
    if k < |h| {
      var rest := log[..|log| - 1];
      if h[|h| - 1] == log[|log| - 1] && Subsequence(h[..|h| - 1], rest) {
        SubsequenceDropFront(h[..|h| - 1], rest, k);
        assert h[..|h| - 1][k..] == h[k..][..|h[k..]| - 1];
      } else {
        SubsequenceDropFront(h, rest, k);
      }
    }
  }

  lemma {:induction false} SubsequenceCount(h: seq<real>, log: seq<real>, moment: real)
    requires Subsequence(h, log)
    ensures CountAfter(h, moment) <= CountAfter(log, moment)
    decreases |log|
  {
    if h != [] {
      var rest := log[..|log| - 1];
      if h[|h| - 1] == log[|log| - 1] && Subsequence(h[..|h| - 1], rest) {
        SubsequenceCount(h[..|h| - 1], rest, moment);
      } else {
        SubsequenceCount(h, rest, moment);
      }
    }
  }

  lemma PruneSubsequence(h: seq<real>, log: seq<real>, threshold: real)
    requires Subsequence(h, log)
    ensures Subsequence(Prune(h, threshold), log)
  {
    var k := PruneIsSuffix(h, threshold);
    SubsequenceDropFront(h, log, k);
  }

  /** Recording extends the log by the hit and keeps the history inside the log. */
  lemma RecordedSubsequence(
    h: seq<real>, log: seq<real>, now: real, window: pos, cap: Option<pos>)
    requires Subsequence(h, log)
    ensures Subsequence(Recorded(h, now, window, cap), log + [now])
  {
    PruneSubsequence(h, log, now - window as real);
    assert (log + [now])[..|log|] == log;
    var kept := Prune(h, now - window as real);
    assert (kept + [now])[..|kept|] == kept;
  }
}
