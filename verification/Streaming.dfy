/**
  The limited response body: splitting into parts, pacing each part with a
  sleep, and watching for an abort between sleeps. The environment supplies what
  the shutdown coordinator would answer at each moment and how much longer than
  requested each look, sleep and send takes.
 */
module Streaming {
  import opened Prelude

  type Bytes = seq<bv8>

  /** An ASGI message: one carrying body bytes, or any other, kept by an identity. */
  datatype Message = Other(id: int) | Body(body: Bytes, moreBody: bool)

  datatype Mode = Running | Draining | Aborting

  // ------------------------------------------------------------------- rewriting

  function EffectiveChunk(chunkSize: pos, maxRate: pos): pos {
    if chunkSize < maxRate then chunkSize else maxRate
  }

  /** The parts of one body, with the framing each is sent under. */
  function SplitBody(body: Bytes, moreBody: bool, size: pos): seq<Message> {
    if body == [] then []
    else if |body| <= size then [Body(body, moreBody)]
    else [Body(body[..size], true)] + SplitBody(body[size..], moreBody, size)
  }

  function RewriteOne(m: Message, size: pos): seq<Message> {
    if m.Body? && m.body != [] then SplitBody(m.body, m.moreBody, size) else [m]
  }

  function Rewrite(ms: seq<Message>, size: pos): seq<Message> {
    if ms == [] then [] else Rewrite(ms[..|ms| - 1], size) + RewriteOne(ms[|ms| - 1], size)
  }

  /** What a receiver makes of a response: headers and bytes in order, and where the body ends. */
  datatype Token = Header(id: int) | Octet(b: bv8) | End

  function TokensOf(m: Message): seq<Token> {
    match m
    case Other(id) => [Header(id)]
    case Body(body, moreBody) => Octets(body) + if moreBody then [] else [End]
  }

  function Octets(body: Bytes): seq<Token> {
    seq(|body|, i requires 0 <= i < |body| => Octet(body[i]))
  }

  function Tokens(ms: seq<Message>): seq<Token> {
    if ms == [] then [] else Tokens(ms[..|ms| - 1]) + TokensOf(ms[|ms| - 1])
  }

  lemma Associative<T>(x: seq<T>, y: seq<T>, z: seq<T>)
    ensures (x + y) + z == x + (y + z)
  {
  }

  lemma TokensAppend(ms: seq<Message>, m: Message)
    ensures Tokens(ms + [m]) == Tokens(ms) + TokensOf(m)
  {
    assert (ms + [m])[..|ms|] == ms;
  }

  lemma {:induction false} TokensConcat(a: seq<Message>, b: seq<Message>)
    ensures Tokens(a + b) == Tokens(a) + Tokens(b)
  {
    if b == [] {
      assert a + b == a && Tokens(a) + [] == Tokens(a);
    } else {
      var most, last := b[..|b| - 1], b[|b| - 1];
      assert most + [last] == b;
      TokensConcat(a, most);
      OneMoreConcat(a, most, last);
    }
  }

  lemma OneMoreConcat(a: seq<Message>, b: seq<Message>, m: Message)
    requires Tokens(a + b) == Tokens(a) + Tokens(b)
    ensures Tokens(a + (b + [m])) == Tokens(a) + Tokens(b + [m])
  {
    Associative(a, b, [m]);
    TokensAppend(a + b, m);
    TokensAppend(b, m);
    Associative(Tokens(a), Tokens(b), TokensOf(m));
  }

  lemma OneToken(m: Message)
    ensures Tokens([m]) == TokensOf(m)
  {
    assert [m][..0] == [];
  }

  lemma SplitTokens(head: Bytes, tail: Bytes, moreBody: bool)
    ensures TokensOf(Body(head, true)) + TokensOf(Body(tail, moreBody)) == TokensOf(Body(head + tail, moreBody))
  {
    assert Octets(head) + Octets(tail) == Octets(head + tail);
  }

  lemma {:induction false} SplitPreservesTokens(body: Bytes, moreBody: bool, size: pos)
    requires body != []
    ensures Tokens(SplitBody(body, moreBody, size)) == TokensOf(Body(body, moreBody))
    decreases |body|
  {
    SplitUnfolds(body, moreBody, size);
    if |body| <= size {
      OneToken(Body(body, moreBody));
    } else {
      var head, tail := body[..size], body[size..];
      SplitPreservesTokens(tail, moreBody, size);
      assert head + tail == body;
      PartInFront(head, tail, moreBody, SplitBody(tail, moreBody, size));
    }
  }

  lemma SplitUnfolds(body: Bytes, moreBody: bool, size: pos)
    requires body != []
    ensures SplitBody(body, moreBody, size)
            == if |body| <= size then [Body(body, moreBody)]
               else [Body(body[..size], true)] + SplitBody(body[size..], moreBody, size)
  {
  }

  lemma PartInFront(head: Bytes, tail: Bytes, moreBody: bool, rest: seq<Message>)
    requires Tokens(rest) == TokensOf(Body(tail, moreBody))
    ensures Tokens([Body(head, true)] + rest) == TokensOf(Body(head + tail, moreBody))
  {
    TokensConcat([Body(head, true)], rest);
    OneToken(Body(head, true));
    SplitTokens(head, tail, moreBody);
  }

  /** Rewriting a response changes nothing a receiver can see: headers, bytes, their order, and the end of the body. */
  lemma {:induction false} RewritePreservesMeaning(ms: seq<Message>, size: pos)
    ensures Tokens(Rewrite(ms, size)) == Tokens(ms)
  {
    if ms != [] {
      var n := |ms| - 1;
      RewritePreservesMeaning(ms[..n], size);
      TokensConcat(Rewrite(ms[..n], size), RewriteOne(ms[n], size));
      if ms[n].Body? && ms[n].body != [] {
        SplitPreservesTokens(ms[n].body, ms[n].moreBody, size);
      } else {
        OneToken(ms[n]);
      }
    }
  }

  /** Parts are never empty, never larger than the chunk, and only the last carries the original flag. */
  lemma {:induction false} PartsAreWellFramed(body: Bytes, moreBody: bool, size: pos)
    requires body != []
    ensures
      var parts := SplitBody(body, moreBody, size);
      && |parts| > 0
      && (forall i :: 0 <= i < |parts| ==> parts[i].Body? && 0 < |parts[i].body| <= size)
      && (forall i :: 0 <= i < |parts| - 1 ==> parts[i].moreBody && |parts[i].body| == size)
      && parts[|parts| - 1].moreBody == moreBody
    decreases |body|
  {
    if |body| > size {
      PartsAreWellFramed(body[size..], moreBody, size);
    }
  }

  /** The body bytes among the tokens. */
  function BytesIn(ts: seq<Token>): Bytes {
    if ts == [] then []
    else
      var last := ts[|ts| - 1];
      BytesIn(ts[..|ts| - 1]) + if last.Octet? then [last.b] else []
  }

  function BytesOf(ms: seq<Message>): Bytes {
    BytesIn(Tokens(ms))
  }

  lemma {:induction false} BytesInConcat(a: seq<Token>, b: seq<Token>)
    ensures BytesIn(a + b) == BytesIn(a) + BytesIn(b)
  {
    if b == [] {
      assert a + b == a;
    } else {
      var n := |b| - 1;
      assert (a + b)[..|a| + n] == a + b[..n];
      BytesInConcat(a, b[..n]);
    }
  }

  /** Messages that carry no bytes have none among their tokens. */
  lemma {:induction false} EmptyMessagesHaveNone(late: seq<Message>)
    requires forall i :: 0 <= i < |late| ==> SizeOf(late[i]) == 0
    ensures BytesOf(late) == []
  {
    if late != [] {
      var n := |late| - 1;
      EmptyMessagesHaveNone(late[..n]);
      BytesInConcat(Tokens(late[..n]), TokensOf(late[n]));
      NoBytes(late[n]);
    }
  }

  lemma NoBytes(m: Message)
    requires SizeOf(m) == 0
    ensures BytesIn(TokensOf(m)) == []
  {
    assert |TokensOf(m)| <= 1;
    assert TokensOf(m) != [] ==> TokensOf(m)[..0] == [] && !TokensOf(m)[0].Octet?;
  }

  lemma BytesOfConcat(a: seq<Message>, b: seq<Message>)
    ensures BytesOf(a + b) == BytesOf(a) + BytesOf(b)
  {
    TokensConcat(a, b);
    BytesInConcat(Tokens(a), Tokens(b));
  }

  lemma BytesOfPrefix(ts: seq<Token>, all: seq<Token>)
    requires ts <= all
    ensures BytesIn(ts) <= BytesIn(all)
  {
    assert all == ts + all[|ts|..];
    BytesInConcat(ts, all[|ts|..]);
  }

  /** The bytes of a response that was cut, and then only followed by empty messages, are a prefix of the whole. */
  lemma CutBytesArePrefix(sent: seq<Message>, late: seq<Message>, ms: seq<Message>, size: pos)
    requires sent <= Rewrite(ms, size) && (forall i :: 0 <= i < |late| ==> SizeOf(late[i]) == 0)
    ensures BytesOf(sent + late) <= BytesOf(ms)
  {
    PrefixIsPrefix(sent, ms, size);
    BytesOfConcat(sent, late);
    EmptyMessagesHaveNone(late);
    BytesOfPrefix(Tokens(sent), Tokens(ms));
    assert BytesOf(sent) + [] == BytesOf(sent);
  }

  /** What an interrupted response shows the receiver is a prefix of the whole response. */
  lemma PrefixIsPrefix(sent: seq<Message>, ms: seq<Message>, size: pos)
    requires sent <= Rewrite(ms, size)
    ensures Tokens(sent) <= Tokens(ms)
  {
    var whole := Rewrite(ms, size);
    assert whole == sent + whole[|sent|..];
    TokensConcat(sent, whole[|sent|..]);
    RewritePreservesMeaning(ms, size);
  }

  lemma RewriteExtends(ms: seq<Message>, m: Message, size: pos)
    ensures Rewrite(ms + [m], size) == Rewrite(ms, size) + RewriteOne(m, size)
  {
    assert (ms + [m])[..|ms|] == ms;
  }

  // --------------------------------------------------------------------- pacing

  /** A message and the moment it was handed to the server. */
  datatype Sent = Sent(at: real, message: Message)

  function SizeOf(m: Message): nat {
    if m.Body? then |m.body| else 0
  }

  function MessagesOf(out: seq<Sent>): seq<Message> {
    seq(|out|, i requires 0 <= i < |out| => out[i].message)
  }

  function BytesSent(out: seq<Sent>): nat {
    if out == [] then 0 else BytesSent(out[..|out| - 1]) + SizeOf(out[|out| - 1].message)
  }

  function Sum(ds: seq<real>): real {
    if ds == [] then 0.0 else Sum(ds[..|ds| - 1]) + ds[|ds| - 1]
  }

  lemma {:induction false} SumConcat(a: seq<real>, b: seq<real>)
    ensures Sum(a + b) == Sum(a) + Sum(b)
  {
    if b == [] {
      assert a + b == a;
    } else {
      var n := |b| - 1;
      assert (a + b)[..|a| + n] == a + b[..n];
      SumConcat(a, b[..n]);
    }
  }

  /** Every message waits at least its size over the rate after the one before it. */
  ghost predicate Paced(out: seq<Sent>, start: real, rate: pos) {
    out == [] ||
    var n := |out| - 1;
    && Paced(out[..n], start, rate)
    && out[n].at >= LastAt(out[..n], start) + SizeOf(out[n].message) as real / rate as real
  }

  lemma PacedMore(out: seq<Sent>, last: Sent, start: real, rate: pos)
    requires Paced(out, start, rate) && last.at >= LastAt(out, start) + SizeOf(last.message) as real / rate as real
    ensures Paced(out + [last], start, rate) && LastAt(out + [last], start) == last.at
  {
    assert (out + [last])[..|out|] == out;
  }

  function LastAt(out: seq<Sent>, start: real): real {
    if out == [] then start else out[|out| - 1].at
  }

  lemma Shares(a: nat, b: nat, rate: pos)
    ensures (a + b) as real / rate as real == a as real / rate as real + b as real / rate as real
    ensures a as real / rate as real >= 0.0
  {
  }

  /** How many bytes the rate allows in a stretch of time. */
  function Allowance(rate: pos, t: real): real {
    rate as real * t
  }

  lemma NothingTakesNoTime(rate: pos)
    ensures 0 as real / rate as real == 0.0
  {
  }

  lemma RateTimes(bytes: nat, rate: pos, t: real)
    requires t >= bytes as real / rate as real
    ensures bytes as real <= Allowance(rate, t)
  {
    var share := bytes as real / rate as real;
    assert share * rate as real == bytes as real;
    assert (t - share) * rate as real >= 0.0;
  }

  lemma {:induction false} PacedTime(out: seq<Sent>, start: real, rate: pos)
    requires Paced(out, start, rate)
    ensures LastAt(out, start) - start >= BytesSent(out) as real / rate as real
  {
    if out != [] {
      var n := |out| - 1;
      PacedTime(out[..n], start, rate);
      Shares(BytesSent(out[..n]), SizeOf(out[n].message), rate);
    }
  }

  /** Whenever a message goes out, no more than rate times the elapsed time has been sent, this message included. */
  lemma {:induction false} NeverAheadOfRate(out: seq<Sent>, start: real, rate: pos, n: nat)
    requires Paced(out, start, rate) && n <= |out|
    ensures BytesSent(out[..n]) as real <= Allowance(rate, LastAt(out[..n], start) - start)
    decreases |out|
  {
    if n == |out| {
      assert out[..n] == out;
      PacedTime(out, start, rate);
      RateTimes(BytesSent(out), rate, LastAt(out, start) - start);
    } else {
      assert out[..|out| - 1][..n] == out[..n];
      NeverAheadOfRate(out[..|out| - 1], start, rate, n);
    }
  }

  /** The bytes sent between two moments, both included. */
  function BytesBetween(out: seq<Sent>, from: real, to: real): nat {
    if out == [] then 0
    else
      var last := out[|out| - 1];
      BytesBetween(out[..|out| - 1], from, to) + if from <= last.at <= to then SizeOf(last.message) else 0
  }

  lemma {:induction false} NoBytesFrom(out: seq<Sent>, from: real, to: real)
    requires forall i :: 0 <= i < |out| && SizeOf(out[i].message) > 0 ==> out[i].at < from
    ensures BytesBetween(out, from, to) == 0
  {
    if out != [] {
      NoBytesFrom(out[..|out| - 1], from, to);
    }
  }

  lemma {:induction false} BurstTime(out: seq<Sent>, start: real, rate: pos, chunk: pos, from: real, to: real)
    requires Paced(out, start, rate) && from <= to
    requires forall i :: 0 <= i < |out| ==> SizeOf(out[i].message) <= chunk
    ensures LastAt(out, start) < from ==> BytesBetween(out, from, to) == 0
    ensures from <= LastAt(out, start) <= to ==>
              BytesBetween(out, from, to) as real / rate as real
                <= LastAt(out, start) - from + chunk as real / rate as real
    ensures BytesBetween(out, from, to) as real / rate as real <= to - from + chunk as real / rate as real
  {
    if out == [] {
      Shares(0, chunk, rate);
    } else {
      var n := |out| - 1;
      var size := SizeOf(out[n].message);
      BurstTime(out[..n], start, rate, chunk, from, to);
      Shares(BytesBetween(out[..n], from, to), size, rate);
      Shares(size, chunk - size, rate);
    }
  }

  /** Any stretch of time carries at most rate times its length, plus one part. */
  lemma BurstBound(out: seq<Sent>, start: real, rate: pos, chunk: pos, from: real, to: real)
    requires Paced(out, start, rate) && from <= to
    requires SmallParts(out, chunk)
    ensures BytesBetween(out, from, to) as real <= Allowance(rate, to - from) + chunk as real
  {
    BurstTime(out, start, rate, chunk, from, to);
    RateTimesPlus(BytesBetween(out, from, to), rate, to - from, chunk);
  }

  lemma RateTimesPlus(bytes: nat, rate: pos, t: real, chunk: pos)
    requires bytes as real / rate as real <= t + chunk as real / rate as real
    ensures bytes as real <= Allowance(rate, t) + chunk as real
  {
    var share := chunk as real / rate as real;
    RateTimes(bytes, rate, t + share);
    AllowanceOfSum(rate, t, share);
    assert share * rate as real == chunk as real;
  }

  lemma AllowanceOfSum(rate: pos, t: real, u: real)
    ensures Allowance(rate, t + u) == Allowance(rate, t) + u * rate as real
  {
  }

  // ------------------------------------------------------------- the polling sleep

  const ABORT_POLL_INTERVAL := 0.1

  /** How many sleeps of at most the interval a duration takes. */
  function Polls(duration: real): int {
    Ceil(duration * 10.0)
  }

  /** The coordinator's mode never falls back as time goes on. */
  ghost predicate Monotone(modeAt: real -> Mode) {
    forall s, t | s <= t ::
      && (modeAt(s) == Aborting ==> modeAt(t) == Aborting)
      && (modeAt(s) == Draining ==> modeAt(t) != Running)
  }

  ghost predicate NonNegative(lagAt: nat -> real) {
    forall i: nat :: lagAt(i) >= 0.0
  }

  function Later(s: real, t: real): real {
    if s < t then t else s
  }

  /** How a response stands: what was sent, and the sleeps asked for. */
  datatype Progress = Progress(out: seq<Sent>, sleeps: seq<real>)

  predicate SmallParts(out: seq<Sent>, chunk: pos) {
    forall i :: 0 <= i < |out| ==> SizeOf(out[i].message) <= chunk
  }

  predicate ShortSleeps(before: seq<real>, after: seq<real>, limit: real) {
    before <= after && (forall i :: |before| <= i < |after| ==> 0.0 < after[i] <= limit)
  }

  lemma ShortSleepsJoin(a: seq<real>, b: seq<real>, c: seq<real>, limit: real)
    requires ShortSleeps(a, b, limit) && ShortSleeps(b, c, limit)
    ensures ShortSleeps(a, c, limit)
  {
  }

  /** What the first `sent` bytes of one body have done to the response. */
  ghost predicate PartlySent(
    before: Progress, after: Progress, body: Bytes, moreBody: bool, sent: nat, chunk: pos, rate: pos)
    requires sent <= |body|
  {
    && before.out <= after.out && ShortSleeps(before.sleeps, after.sleeps, 1.0)
    && MessagesOf(after.out[|before.out|..]) + SplitBody(body[sent..], moreBody, chunk)
       == SplitBody(body, moreBody, chunk)
    && BytesSent(after.out) == BytesSent(before.out) + sent
    && Sum(after.sleeps) - Sum(before.sleeps) == sent as real / rate as real
  }

  /** The part from `from` up to `to` went out after its pause. */
  ghost predicate PartSent(
    before: Progress, after: Progress, body: Bytes, moreBody: bool, chunk: pos, rate: pos, from: nat, to: nat)
    requires from < |body|
  {
    && to == (if from + chunk < |body| then from + chunk else |body|)
    && |after.out| == |before.out| + 1 && after.out[..|before.out|] == before.out
    && after.out[|before.out|].message == Body(body[from..to], moreBody || to < |body|)
    && ShortSleeps(before.sleeps, after.sleeps, 1.0)
    && Sum(after.sleeps) - Sum(before.sleeps) == (to - from) as real / rate as real
  }

  /** What an interrupted body leaves: some of its parts, in order, and nothing else. */
  ghost predicate CutShort(before: Progress, after: Progress, body: Bytes, moreBody: bool, chunk: pos) {
    && before.out <= after.out && ShortSleeps(before.sleeps, after.sleeps, 1.0)
    && MessagesOf(after.out[|before.out|..]) < SplitBody(body, moreBody, chunk)
  }

  /**
    One response sent at a limited rate, and the policy delay that may come before
    it. `modeAt` is what the coordinator would answer at each moment, and `lagAt`
    how much longer than asked each action takes.
   */
  class LimitedResponse {
    const chunkSize: pos
    const maxRate: pos
    const start: real
    const modeAt: real -> Mode
    const lagAt: nat -> real
    var actions: nat
    var clock: real
    var sleeps: seq<real>
    var out: seq<Sent>

    constructor (chunkSize: pos, maxRate: pos, start: real, modeAt: real -> Mode, lagAt: nat -> real)
      requires Monotone(modeAt) && NonNegative(lagAt)
      ensures Valid() && out == [] && sleeps == [] && clock == start
      ensures this.chunkSize == chunkSize && this.maxRate == maxRate && this.start == start
      ensures this.modeAt == modeAt && this.lagAt == lagAt
    {
      this.chunkSize, this.maxRate, this.start := chunkSize, maxRate, start;
      this.modeAt, this.lagAt := modeAt, lagAt;
      actions, clock, sleeps, out := 0, start, [], [];
    }

    function Chunk(): pos {
      EffectiveChunk(chunkSize, maxRate)
    }

    /**
      Sends are paced, no larger than the chunk size and no larger than a second's
      worth of the rate, and no bytes left later than one lag after the abort.
     */
    ghost predicate FairlySent(sent: seq<Sent>) {
      && Paced(sent, start, maxRate) && SmallParts(sent, chunkSize) && SmallParts(sent, maxRate)
      && (forall i :: 0 <= i < |sent| && SizeOf(sent[i].message) > 0 ==> JustLooked(sent[i].at, 1))
    }

    ghost predicate Valid()
      reads this
    {
      Monotone(modeAt) && NonNegative(lagAt) && FairlySent(out) && clock >= LastAt(out, start)
    }

    function Standing(): Progress
      reads this`out, this`sleeps
    {
      Progress(out, sleeps)
    }

    /** The abort is in force now. */
    predicate Aborted()
      reads this`clock
    {
      modeAt(clock) == Aborting
    }

    /** No action lags by more than this. */
    ghost predicate LagsUpTo(limit: real) {
      forall i: nat :: lagAt(i) <= limit
    }

    /** Wherever the abort falls, this moment is no more than `slack` and so many lags after it, or after `from`. */
    ghost predicate SoonAfterAbort(moment: real, from: real, slack: real, lags: nat) {
      forall t, limit | modeAt(t) == Aborting && LagsUpTo(limit) ::
        moment <= Later(t, from) + slack + lags as real * limit
    }

    /** At this moment the abort, if it has come at all, came no more than so many lags ago. */
    ghost predicate JustLooked(moment: real, lags: nat) {
      forall t, limit | modeAt(t) == Aborting && LagsUpTo(limit) :: moment <= t + lags as real * limit
    }

    /** Whatever this response has sent, it was never ahead of its rate. */
    lemma NeverAhead(n: nat)
      requires Valid() && n <= |out|
      ensures BytesSent(out[..n]) as real <= Allowance(maxRate, LastAt(out[..n], start) - start)
    {
      NeverAheadOfRate(out, start, maxRate, n);
    }

    /** Nor did any stretch of time carry more than its share and one chunk. */
    lemma NeverBursts(from: real, to: real)
      requires Valid() && from <= to
      ensures BytesBetween(out, from, to) as real <= Allowance(maxRate, to - from) + chunkSize as real
      ensures BytesBetween(out, from, to) as real <= Allowance(maxRate, to - from) + maxRate as real
    {
      BurstBound(out, start, maxRate, chunkSize, from, to);
      BurstBound(out, start, maxRate, maxRate, from, to);
    }

    /** From one lag after the abort on, no stretch of time carries any bytes. */
    lemma NoBytesAfterAbort(abort: real, limit: real, from: real, to: real)
      requires Valid() && modeAt(abort) == Aborting && LagsUpTo(limit) && abort + limit < from
      ensures BytesBetween(out, from, to) == 0
    {
      forall i | 0 <= i < |out| && SizeOf(out[i].message) > 0 ensures out[i].at < from {
        assert JustLooked(out[i].at, 1);
      }
      NoBytesFrom(out, from, to);
    }

    /** Time passes with an action that is asked to take `duration`. */
    method Act(duration: real)
      requires NonNegative(lagAt) && duration >= 0.0
      modifies this`clock, this`actions
      ensures clock >= old(clock) + duration
      ensures forall limit | LagsUpTo(limit) :: clock <= old(clock) + duration + limit
    {
      clock := clock + duration + lagAt(actions);
      actions := actions + 1;
    }

    method CheckAbort() returns (aborted: bool)
      requires Monotone(modeAt) && NonNegative(lagAt)
      modifies this`clock, this`actions
      ensures aborted == (modeAt(old(clock)) == Aborting)
      ensures aborted ==> Aborted()
      ensures clock >= old(clock) && (forall limit | LagsUpTo(limit) :: clock <= old(clock) + limit)
    {
      aborted := modeAt(clock) == Aborting;
      Act(0.0);
    }

    method PollCheck() returns (begun: bool)
      requires NonNegative(lagAt)
      modifies this`clock, this`actions
      ensures begun == (modeAt(old(clock)) != Running)
      ensures clock >= old(clock) && (forall limit | LagsUpTo(limit) :: clock <= old(clock) + limit)
    {
      begun := modeAt(clock) != Running;
      Act(0.0);
    }

    method Sleep(duration: real)
      requires NonNegative(lagAt) && duration >= 0.0
      modifies this`sleeps, this`clock, this`actions
      ensures sleeps == old(sleeps) + [duration] && Sum(sleeps) == Sum(old(sleeps)) + duration
      ensures clock >= old(clock) + duration
      ensures forall limit | LagsUpTo(limit) :: clock <= old(clock) + duration + limit
    {
      Act(duration);
      sleeps := sleeps + [duration];
      assert sleeps[..|sleeps| - 1] == old(sleeps);
    }

    lemma FitsIn(before: seq<Sent>, last: Sent)
      requires FairlySent(before) && SizeOf(last.message) <= Chunk()
      requires last.at >= LastAt(before, start) + SizeOf(last.message) as real / maxRate as real
      requires SizeOf(last.message) > 0 ==> JustLooked(last.at, 1)
      ensures FairlySent(before + [last])
    {
      PacedMore(before, last, start, maxRate);
    }

    method Send(m: Message)
      requires Valid() && clock >= LastAt(out, start) + SizeOf(m) as real / maxRate as real && SizeOf(m) <= Chunk()
      requires SizeOf(m) > 0 ==> JustLooked(clock, 1)
      modifies this`out, this`clock, this`actions
      ensures Valid() && clock >= old(clock) && (forall limit | LagsUpTo(limit) :: clock <= old(clock) + limit)
      ensures out == old(out) + [Sent(old(clock), m)]
    {
      FitsIn(out, Sent(clock, m));
      out := out + [Sent(clock, m)];
      Act(0.0);
    }

    /** What a sleep of `duration` may add to the log of sleeps. */
    ghost predicate Slept(before: seq<real>, after: seq<real>, duration: real, aborted: bool, limit: real) {
      && ShortSleeps(before, after, limit)
      && (if aborted then Sum(after) - Sum(before) <= duration else Sum(after) - Sum(before) == duration)
    }

    /** The longest single sleep in a sleep of this duration. */
    function Longest(duration: real, pieces: bool): real {
      if pieces && duration > ABORT_POLL_INTERVAL then ABORT_POLL_INTERVAL else duration
    }

    /**
      Sleeps for `duration`, in one piece while no shutdown has begun and in
      short pieces with a look at the abort flag otherwise. `watched` and `polled`
      say whether the two checks were given.
     */
    method SleepWithAbortCheck(duration: real, watched: bool, polled: bool) returns (aborted: bool)
      requires Monotone(modeAt) && NonNegative(lagAt)
      modifies this`sleeps, this`clock, this`actions
      ensures duration <= 0.0 ==> !aborted && sleeps == old(sleeps) && clock == old(clock)
      ensures duration > 0.0 ==>
                Slept(old(sleeps), sleeps, duration, aborted,
                      Longest(duration, watched && polled && modeAt(old(clock)) != Running))
      ensures clock >= old(clock) && (!aborted ==> clock >= old(clock) + duration)
      ensures aborted ==> watched && Aborted()
      ensures duration > 0.0 && watched && modeAt(old(clock)) == Aborting ==> aborted
      ensures duration > 0.0 && watched && polled && modeAt(old(clock)) != Running && !aborted ==>
                |sleeps| == |old(sleeps)| + Polls(duration)
      ensures aborted ==>
                SoonAfterAbort(clock, old(clock), Longest(duration, polled && modeAt(old(clock)) != Running), 3)
      ensures duration > 0.0 && watched && !aborted ==> JustLooked(clock, 1)
    {
      if duration <= 0.0 {
        return false;
      }
      if !watched {
        Sleep(duration);
        return false;
      }
      var begun := false;
      if polled {
        begun := PollCheck();
      }
      if !begun {
        Sleep(duration);
        ghost var looked := clock;
        aborted := CheckAbort();
        if !aborted {
          NotYetAborted(looked, clock, 1);
        }
        return;
      }
      aborted := SleepInPieces(duration, old(clock));
    }

    /** `looked` is a moment, at most one lag ago, from which the abort is being watched. */
    method SleepInPieces(duration: real, ghost looked: real) returns (aborted: bool)
      requires Monotone(modeAt) && NonNegative(lagAt) && duration > 0.0
      requires looked <= clock && (forall limit | LagsUpTo(limit) :: clock <= looked + limit)
      modifies this`sleeps, this`clock, this`actions
      ensures Slept(old(sleeps), sleeps, duration, aborted, Longest(duration, true))
      ensures clock >= old(clock) && (!aborted ==> clock >= old(clock) + duration)
      ensures aborted ==> Aborted()
      ensures modeAt(looked) == Aborting ==> aborted
      ensures !aborted ==> |sleeps| == |old(sleeps)| + Polls(duration)
      ensures if aborted then SoonAfterAbort(clock, looked, Longest(duration, true), 3) else JustLooked(clock, 1)
    {
      var remaining := duration;
      ghost var last := looked;
      aborted := false;
      while remaining > 0.0
        invariant 0.0 <= remaining <= duration && looked <= last <= clock
        invariant Slept(old(sleeps), sleeps, duration - remaining, false, Longest(duration, true))
        invariant clock >= old(clock) + (duration - remaining)
        invariant remaining < duration ==> modeAt(last) != Aborting && modeAt(looked) != Aborting
        invariant remaining == duration ==> last == looked
        invariant forall limit | LagsUpTo(limit) :: clock <= last + limit
        invariant |sleeps| + Polls(remaining) == |old(sleeps)| + Polls(duration)
        decreases Polls(remaining)
      {
        PollsStep(remaining);
        ghost var from := last;
        remaining, aborted, last := SleepPiece(remaining, duration, last);
        if aborted {
          NoticedAfter(from, looked, Longest(duration, true), clock);
          return;
        }
      }
      NotYetAborted(last, clock, 1);
    }

    /** One short sleep and the look after it. */
    method SleepPiece(remaining: real, duration: real, ghost looked: real)
      returns (left: real, aborted: bool, ghost lookedAgain: real)
      requires Monotone(modeAt) && NonNegative(lagAt) && 0.0 < remaining <= duration && looked <= clock
      requires forall limit | LagsUpTo(limit) :: clock <= looked + limit
      modifies this`sleeps, this`clock, this`actions
      ensures left == if ABORT_POLL_INTERVAL < remaining then remaining - ABORT_POLL_INTERVAL else 0.0
      ensures sleeps == old(sleeps) + [remaining - left] && Sum(sleeps) == Sum(old(sleeps)) + (remaining - left)
      ensures looked <= old(clock) + (remaining - left) <= lookedAgain <= clock
      ensures aborted == (modeAt(lookedAgain) == Aborting) && (aborted ==> Aborted())
      ensures modeAt(looked) == Aborting ==> aborted
      ensures forall limit | LagsUpTo(limit) ::
                clock <= lookedAgain + limit && clock <= looked + Longest(duration, true) + 3.0 * limit
    {
      var sleepDuration := if ABORT_POLL_INTERVAL < remaining then ABORT_POLL_INTERVAL else remaining;
      Sleep(sleepDuration);
      left := remaining - sleepDuration;
      lookedAgain := clock;
      aborted := CheckAbort();
    }

    /** A look that saw no abort, or the moment the watch began, is at most a sleep and three lags before the notice. */
    lemma NoticedAfter(last: real, looked: real, slack: real, now: real)
      requires Monotone(modeAt) && NonNegative(lagAt)
      requires last == looked || modeAt(last) != Aborting
      requires forall limit | LagsUpTo(limit) :: now <= last + slack + 3.0 * limit
      ensures SoonAfterAbort(now, looked, slack, 3)
    {
      forall t, limit | modeAt(t) == Aborting && LagsUpTo(limit) ensures now <= Later(t, looked) + slack + 3.0 * limit {
        assert lagAt(0) <= limit;
        assert last <= Later(t, looked);
      }
    }

    // ---------------------------------------------------------- the policy delay

    /**
      The pause a Delay action asks for, before the response begins: a look at the
      abort flag at least every poll interval while another task sleeps.
     */
    method SleepForPolicyDelay(delay: real) returns (aborted: bool)
      requires Monotone(modeAt) && NonNegative(lagAt)
      modifies this`clock, this`actions
      ensures clock >= old(clock) && (!aborted ==> clock >= old(clock) + delay)
      ensures !aborted ==> forall limit | LagsUpTo(limit) :: clock <= old(clock) + Later(delay, 0.0) + 4.0 * limit
      ensures old(Aborted()) ==> aborted
      ensures old(Valid()) ==> Valid()
      ensures if aborted then Aborted() && SoonAfterAbort(clock, old(clock), ABORT_POLL_INTERVAL, 3)
              else JustLooked(clock, 1)
    {
      var ends := clock + Later(delay, 0.0) + lagAt(actions);
      actions := actions + 1;
      ghost var last := clock;
      var done := false;
      while !done
        invariant old(clock) <= last <= clock && (done ==> ends <= clock)
        invariant modeAt(last) == Aborting ==> !done && clock == last == old(clock)
        invariant forall limit | LagsUpTo(limit) ::
                    && clock <= last + ABORT_POLL_INTERVAL + 2.0 * limit
                    && clock <= if done then ends + 2.0 * limit else ends
        decreases if done then 0 else 1 + Polls(Later(ends - clock, 0.0))
      {
        ghost var from := last;
        last := clock;
        aborted := CheckAbort();
        if aborted {
          NoticedAfter(from, old(clock), ABORT_POLL_INTERVAL, clock);
          return;
        }
        done := AwaitSleep(ends);
      }
      ghost var from := last;
      last := clock;
      aborted := CheckAbort();
      if aborted {
        NoticedAfter(from, old(clock), ABORT_POLL_INTERVAL, clock);
      } else {
        NotYetAborted(last, clock, 1);
      }
    }

    /** Waits for the sleeping task, but no longer than the poll interval. */
    method AwaitSleep(ends: real) returns (done: bool)
      requires NonNegative(lagAt)
      modifies this`clock, this`actions
      ensures done == (ends <= clock) && clock >= old(clock) && (!done ==> clock >= old(clock) + ABORT_POLL_INTERVAL)
      ensures forall limit | LagsUpTo(limit) ::
                clock <= old(clock) + ABORT_POLL_INTERVAL + limit && clock <= Later(old(clock), ends) + limit
    {
      var remaining := Later(ends - clock, 0.0);
      Act(if ABORT_POLL_INTERVAL < remaining then ABORT_POLL_INTERVAL else remaining);
      done := ends <= clock;
    }

    // ------------------------------------------------------------ sending a body

    /** The wait before a part: look, sleep, look again. `looked` is the moment of the last look. */
    method Pause(duration: real) returns (aborted: bool, ghost looked: real)
      requires Monotone(modeAt) && NonNegative(lagAt) && 0.0 < duration <= 1.0
      modifies this`sleeps, this`clock, this`actions
      ensures clock >= looked >= old(clock) && (!aborted ==> looked >= old(clock) + duration)
      ensures aborted ==> Aborted() && SoonAfterAbort(clock, old(clock), 1.0, 4)
      ensures old(Aborted()) ==> aborted
      ensures !aborted ==> modeAt(looked) != Aborting && forall limit | LagsUpTo(limit) :: clock <= looked + limit
      ensures ShortSleeps(old(sleeps), sleeps, if modeAt(old(clock)) != Running then ABORT_POLL_INTERVAL else 1.0)
      ensures !aborted ==> Sum(sleeps) - Sum(old(sleeps)) == duration
    {
      looked := clock;
      aborted := CheckAbort();
      if aborted {
        return;
      }
      ghost var checked := clock;
      aborted := SleepWithAbortCheck(duration, true, true);
      if aborted {
        NoticedLater(looked, checked, Longest(duration, modeAt(checked) != Running), clock);
        looked := checked;
        return;
      }
      ghost var first := looked;
      looked := clock;
      aborted := CheckAbort();
      if aborted {
        NoticedAtOnce(first, looked, clock);
      }
    }

    /** A look one lag after one that saw nothing notices the abort within two lags. */
    lemma NoticedAtOnce(first: real, looked: real, now: real)
      requires NonNegative(lagAt) && JustLooked(looked, 1) && (forall limit | LagsUpTo(limit) :: now <= looked + limit)
      ensures SoonAfterAbort(now, first, 1.0, 4)
    {
      forall t, limit | modeAt(t) == Aborting && LagsUpTo(limit) ensures now <= Later(t, first) + 1.0 + 4.0 * limit {
        assert lagAt(0) <= limit;
        assert looked <= t + 1.0 * limit;
      }
    }

    /** A look that saw no abort, a few lags ago. */
    lemma NotYetAborted(looked: real, now: real, lags: nat)
      requires Monotone(modeAt) && modeAt(looked) != Aborting
      requires forall limit | LagsUpTo(limit) :: now <= looked + lags as real * limit
      ensures JustLooked(now, lags)
    {
      forall t, limit | modeAt(t) == Aborting && LagsUpTo(limit) ensures now <= t + lags as real * limit {
        assert looked <= t;
      }
    }

    /** One part, sent after its pause. */
    method SendPart(part: Bytes, moreBody: bool) returns (aborted: bool)
      requires Valid() && 0 < |part| <= Chunk()
      modifies this
      ensures Valid() && clock >= old(clock)
      ensures aborted ==> Aborted() && out == old(out)
      ensures old(Aborted()) ==> aborted
      ensures !aborted ==> |out| == |old(out)| + 1 && out[..|old(out)|] == old(out)
                           && out[|old(out)|].message == Body(part, moreBody)
      ensures ShortSleeps(old(sleeps), sleeps, if modeAt(old(clock)) != Running then ABORT_POLL_INTERVAL else 1.0)
      ensures !aborted ==> Sum(sleeps) - Sum(old(sleeps)) == |part| as real / maxRate as real
      ensures if aborted then SoonAfterAbort(clock, old(clock), 1.0, 4) else JustLooked(clock, 2)
    {
      PauseBounds(|part|, maxRate);
      ghost var looked;
      aborted, looked := Pause(|part| as real / maxRate as real);
      if aborted {
        return;
      }
      NotYetAborted(looked, clock, 1);
      Send(Body(part, moreBody));
      NotYetAborted(looked, clock, 2);
    }

    /** Watching from one lag later costs one lag. */
    lemma NoticedLater(looked: real, from: real, slack: real, now: real)
      requires NonNegative(lagAt) && SoonAfterAbort(now, from, slack, 3) && slack <= 1.0
      requires forall limit | LagsUpTo(limit) :: from <= looked + limit
      ensures SoonAfterAbort(now, looked, 1.0, 4)
    {
      forall t, limit | modeAt(t) == Aborting && LagsUpTo(limit) ensures now <= Later(t, looked) + 1.0 + 4.0 * limit {
        assert lagAt(0) <= limit;
        assert Later(t, from) <= Later(t, looked) + limit;
      }
    }

    method SendLimitedBody(body: Bytes, moreBody: bool) returns (aborted: bool)
      requires Valid()
      modifies this
      ensures Valid() && clock >= old(clock)
      ensures aborted ==> Aborted() && CutShort(old(Standing()), Standing(), body, moreBody, Chunk())
      ensures aborted ==> SoonAfterAbort(clock, old(clock), 1.0, 6)
      ensures !aborted && body != []
              ==> PartlySent(old(Standing()), Standing(), body, moreBody, |body|, Chunk(), maxRate)
      ensures forall i :: |old(out)| <= i < (if aborted then |out| else |out| - 1) ==>
                SizeOf(out[i].message) == chunkSize || SizeOf(out[i].message) == maxRate
      ensures !aborted && body != [] ==> JustLooked(clock, 2)
      ensures body == [] ==>
                !aborted && sleeps == old(sleeps) && out == old(out) + [Sent(old(clock), Body(body, moreBody))]
      ensures old(Aborted()) && body != [] ==> aborted && out == old(out)
    {
      var sentBytes;
      ghost var before := out;
      sentBytes, aborted := SendParts(body, moreBody);
      if sentBytes > 0 || aborted {
        FullParts(before, out, body, moreBody, Chunk());
      }
      if !aborted && sentBytes == 0 {
        PassThrough(Body(body, moreBody));
      }
    }

    /** The loop over the parts; answers how many bytes went out. */
    method SendParts(body: Bytes, moreBody: bool) returns (sentBytes: nat, aborted: bool)
      requires Valid()
      modifies this
      ensures Valid() && clock >= old(clock)
      ensures aborted ==> Aborted() && CutShort(old(Standing()), Standing(), body, moreBody, Chunk())
      ensures aborted ==> SoonAfterAbort(clock, old(clock), 1.0, 6)
      ensures !aborted ==> sentBytes == |body|
                           && PartlySent(old(Standing()), Standing(), body, moreBody, |body|, Chunk(), maxRate)
      ensures !aborted && body != [] ==> JustLooked(clock, 2)
      ensures body == [] ==> !aborted && Standing() == old(Standing()) && clock == old(clock)
      ensures old(Aborted()) && body != [] ==> aborted && out == old(out)
    {
      sentBytes := 0;
      aborted := false;
      NothingSent(Standing(), body, moreBody, Chunk(), maxRate);
      while sentBytes < |body|
        invariant Valid() && clock >= old(clock) && sentBytes <= |body|
        invariant if sentBytes == 0 then Standing() == old(Standing()) && clock == old(clock) else JustLooked(clock, 2)
        invariant PartlySent(old(Standing()), Standing(), body, moreBody, sentBytes, Chunk(), maxRate)
        invariant old(Aborted()) ==> sentBytes == 0
        decreases |body| - sentBytes
      {
        ghost var before, from, begun := Standing(), sentBytes, clock;
        aborted, sentBytes := SendNext(body, moreBody, sentBytes);
        if aborted {
          PartCut(old(Standing()), before, Standing(), body, moreBody, from, Chunk(), maxRate);
          NoticedFromStart(old(clock), begun, clock);
          return;
        }
        PartAdds(old(Standing()), before, Standing(), body, moreBody, Chunk(), maxRate, from, sentBytes);
      }
    }

    /** A notice soon after a part began is soon after the abort, or after the body began. */
    lemma NoticedFromStart(start: real, begun: real, now: real)
      requires NonNegative(lagAt) && SoonAfterAbort(now, begun, 1.0, 4)
      requires begun == start || JustLooked(begun, 2)
      ensures SoonAfterAbort(now, start, 1.0, 6)
    {
      forall t, limit | modeAt(t) == Aborting && LagsUpTo(limit) ensures now <= Later(t, start) + 1.0 + 6.0 * limit {
        assert lagAt(0) <= limit;
        assert Later(t, begun) <= Later(t, start) + 2.0 * limit;
      }
    }

    /** The part that starts at `sent`. */
    method SendNext(body: Bytes, moreBody: bool, sent: nat) returns (aborted: bool, sentBytes: nat)
      requires Valid() && sent < |body|
      modifies this
      ensures Valid() && clock >= old(clock) && ShortSleeps(old(sleeps), sleeps, 1.0)
      ensures aborted ==> Aborted() && out == old(out)
      ensures old(Aborted()) ==> aborted
      ensures !aborted ==> PartSent(old(Standing()), Standing(), body, moreBody, Chunk(), maxRate, sent, sentBytes)
      ensures if aborted then SoonAfterAbort(clock, old(clock), 1.0, 4) else JustLooked(clock, 2)
    {
      var end := if sent + Chunk() < |body| then sent + Chunk() else |body|;
      var part := body[sent..end];
      sentBytes := sent + |part|;
      aborted := SendPart(part, moreBody || sentBytes < |body|);
    }

    /** The wrapper around `send`: only non-empty bodies are rewritten. */
    method SendWithLimit(m: Message) returns (aborted: bool)
      requires Valid()
      modifies this
      ensures Valid() && clock >= old(clock) && old(out) <= out && ShortSleeps(old(sleeps), sleeps, 1.0)
      ensures !aborted ==> SentOne(old(Standing()), Standing(), m, Chunk(), maxRate)
      ensures aborted ==> Aborted() && MessagesOf(out) < MessagesOf(old(out)) + RewriteOne(m, Chunk())
      ensures aborted ==> SoonAfterAbort(clock, old(clock), 1.0, 6)
      ensures SizeOf(m) > 0 && !aborted ==> JustLooked(clock, 2)
      ensures SizeOf(m) > 0 && old(Aborted()) ==> aborted && out == old(out)
      ensures SizeOf(m) == 0 ==> !aborted && sleeps == old(sleeps) && out == old(out) + [Sent(old(clock), m)]
    {
      if m.Other? || m.body == [] {
        PassThrough(m);
        return false;
      }
      aborted := SendBody(m);
    }

    /** A message with a body that is not empty, and what that does to all that was sent. */
    method SendBody(m: Message) returns (aborted: bool)
      requires Valid() && SizeOf(m) > 0
      modifies this
      ensures Valid() && clock >= old(clock) && old(out) <= out && ShortSleeps(old(sleeps), sleeps, 1.0)
      ensures !aborted ==> SentOne(old(Standing()), Standing(), m, Chunk(), maxRate) && JustLooked(clock, 2)
      ensures aborted ==> Aborted() && MessagesOf(out) < MessagesOf(old(out)) + RewriteOne(m, Chunk())
      ensures aborted ==> SoonAfterAbort(clock, old(clock), 1.0, 6)
      ensures old(Aborted()) ==> aborted && out == old(out)
    {
      ghost var before := Standing();
      aborted := SendLimitedBody(m.body, m.moreBody);
      if aborted {
        BodyCut(before, Standing(), m.body, m.moreBody, Chunk());
      } else {
        BodyDone(before, Standing(), m.body, m.moreBody, Chunk(), maxRate);
      }
    }

    method PassThrough(m: Message)
      requires Valid() && SizeOf(m) == 0
      modifies this`out, this`clock, this`actions
      ensures Valid() && clock >= old(clock) && old(out) <= out
      ensures out == old(out) + [Sent(old(clock), m)]
      ensures SentOne(old(Standing()), Standing(), m, Chunk(), maxRate)
    {
      NothingTakesNoTime(maxRate);
      Send(m);
      assert out[..|old(out)|] == old(out);
    }

    /** The abort never comes. */
    ghost predicate NeverAborts() {
      forall t :: modeAt(t) != Aborting
    }

    /** An abort is in force and was raised soon after it came, or after the message it cut was handed over. */
    ghost predicate RaisedSoon(c: Cut)
      reads this`clock
    {
      Aborted() && c.begun <= c.raised <= clock && modeAt(c.raised) == Aborting
        && SoonAfterAbort(c.raised, c.begun, 1.0, 6)
    }

    /** How a run stands when so many messages have been handed over. */
    ghost function CourseOf(messages: seq<Message>, handed: nat, cut: Option<Cut>): Course
      requires handed <= |messages|
      reads this
    {
      if !Valid() || !ShortSleeps([], sleeps, 1.0) then Astray
      else
        match cut
        case None => if Delivered(Standing(), messages[..handed], Chunk(), maxRate) then Whole else Astray
        case Some(c) => if WentOut(out, messages, handed, c, Chunk()) && RaisedSoon(c) then Interrupted else Astray
    }

    /** One message of the application before an abort. */
    method SendFirst(messages: seq<Message>, i: nat) returns (aborted: bool, ghost cut: Option<Cut>)
      requires i < |messages| && CourseOf(messages, i, None) == Whole
      modifies this
      ensures clock >= old(clock)
      ensures CourseOf(messages, i + 1, cut) == if aborted then Interrupted else Whole
      ensures old(Aborted()) ==> BytesSent(out) == BytesSent(old(out))
    {
      ghost var before, begun := Standing(), clock;
      aborted := SendWithLimit(messages[i]);
      ShortSleepsJoin([], before.sleeps, sleeps, 1.0);
      if aborted {
        cut := Some(Cut(i, |out|, begun, clock));
        CutHere(before.out, out, messages, i, cut.value, Chunk());
        assert CourseOf(messages, i + 1, cut) == Interrupted;
      } else {
        cut := None;
        DeliveredMore(before, Standing(), messages, i, Chunk(), maxRate);
        assert CourseOf(messages, i + 1, cut) == Whole;
      }
    }

    /** Once the abort is in force a message goes out at once if it carries no bytes, and not at all otherwise. */
    method SendAborted(m: Message)
      requires Valid() && Aborted()
      modifies this
      ensures Valid() && Aborted() && clock >= old(clock) && ShortSleeps(old(sleeps), sleeps, 1.0)
      ensures out == if SizeOf(m) > 0 then old(out) else old(out) + [Sent(old(clock), m)]
    {
      var raised := SendWithLimit(m);
    }

    /** One message of an application that goes on after the abort. */
    method SendLate(messages: seq<Message>, i: nat, ghost c: Cut)
      requires i < |messages| && CourseOf(messages, i, Some(c)) == Interrupted
      modifies this
      ensures clock >= old(clock)
      ensures CourseOf(messages, i + 1, Some(c)) == Interrupted && BytesSent(out) == BytesSent(old(out))
    {
      ghost var before, slept, begun := out, sleeps, clock;
      SendAborted(messages[i]);
      ShortSleepsJoin([], slept, sleeps, 1.0);
      WentOutMore(before, out, begun, messages, i, c, Chunk());
    }

    /**
      A whole response: the application hands over its messages, thinking as long
      as it likes before each, and on an abort stops or goes on as it likes. Without
      an abort the rewritten response goes out and the time asked of sleeps is
      exactly bytes over rate. With one, raised within a second and a few lags, the
      response is cut inside one message, and after it only messages without bytes
      go out.
     */
    method RunApplication(messages: seq<Message>, thinkAt: nat -> real, stopsAt: nat -> bool)
      returns (aborted: bool, handed: nat, ghost cut: Option<Cut>)
      requires Valid() && NonNegative(thinkAt) && Standing() == Progress([], [])
      modifies this
      ensures Valid() && ShortSleeps([], sleeps, 1.0)
      ensures handed <= |messages| && (handed < |messages| ==> aborted && handed > 0 && stopsAt(handed - 1))
      ensures !aborted ==> Delivered(Standing(), messages, Chunk(), maxRate)
      ensures aborted ==> cut.Some? && WentOut(out, messages, handed, cut.value, Chunk()) && RaisedSoon(cut.value)
      ensures aborted ==> Aborted() && BytesOf(MessagesOf(out)) <= BytesOf(messages)
      ensures NeverAborts() ==> !aborted
      ensures old(Aborted()) ==> BytesSent(out) == 0
    {
      Shares(0, 0, maxRate);
      aborted, handed, cut := HandOverAll(messages, thinkAt, stopsAt);
      assert messages[..|messages|] == messages;
      if aborted {
        CutBytes(out, cut.value, messages, handed, Chunk());
      }
    }

    method HandOverAll(messages: seq<Message>, thinkAt: nat -> real, stopsAt: nat -> bool)
      returns (aborted: bool, handed: nat, ghost cut: Option<Cut>)
      requires NonNegative(thinkAt) && CourseOf(messages, 0, None) == Whole
      modifies this
      ensures handed <= |messages| && CourseOf(messages, handed, cut) == if aborted then Interrupted else Whole
      ensures handed < |messages| ==> aborted && handed > 0 && stopsAt(handed - 1)
      ensures old(Aborted()) ==> BytesSent(out) == BytesSent(old(out))
    {
      aborted, handed, cut := false, 0, None;
      var stopped := false;
      ghost var late, bytes := Aborted(), BytesSent(out);
      while handed < |messages| && !stopped
        invariant stopped ==> aborted && handed > 0 && stopsAt(handed - 1)
        invariant handed <= |messages| && CourseOf(messages, handed, cut) == if aborted then Interrupted else Whole
        invariant late ==> Aborted() && BytesSent(out) == bytes
        decreases |messages| - handed
      {
        aborted, cut := HandOver(messages, handed, thinkAt(handed), aborted, cut);
        stopped := aborted && stopsAt(handed);
        handed := handed + 1;
      }
    }

    /** The application thinks, then hands over its next message. */
    method HandOver(messages: seq<Message>, i: nat, think: real, already: bool, ghost cut: Option<Cut>)
      returns (aborted: bool, ghost cutNow: Option<Cut>)
      requires i < |messages| && think >= 0.0
      requires CourseOf(messages, i, cut) == if already then Interrupted else Whole
      modifies this
      ensures clock >= old(clock)
      ensures CourseOf(messages, i + 1, cutNow) == if aborted then Interrupted else Whole
      ensures old(Aborted()) ==> Aborted() && BytesSent(out) == BytesSent(old(out))
    {
      clock := clock + think;
      if already {
        SendLate(messages, i, cut.value);
        aborted, cutNow := true, cut;
      } else {
        aborted, cutNow := SendFirst(messages, i);
      }
    }
  }

  /** A response so far: everything handed over is out, or an abort has cut it, or neither. */
  datatype Course = Whole | Interrupted | Astray

  /**
    Where an abort cut a response: inside which message, how much was out, and
    when that message was handed over and the abort raised.
   */
  datatype Cut = Cut(at: nat, sent: nat, begun: real, raised: real)

  /** The messages before the cut one, part of that one, and of those after it the ones without bytes. */
  ghost predicate WentOut(out: seq<Sent>, messages: seq<Message>, handed: nat, c: Cut, chunk: pos)
    requires handed <= |messages|
  {
    && c.at < handed && SizeOf(messages[c.at]) > 0 && c.sent <= |out|
    && Rewrite(messages[..c.at], chunk) <= MessagesOf(out[..c.sent])
    && MessagesOf(out[..c.sent]) < Rewrite(messages[..c.at + 1], chunk)
    && MessagesOf(out[c.sent..]) == Bodiless(messages[c.at + 1..handed])
  }

  /** The abort is raised inside the `i`-th message. */
  lemma CutHere(before: seq<Sent>, out: seq<Sent>, messages: seq<Message>, i: nat, c: Cut, chunk: pos)
    requires i < |messages| && SizeOf(messages[i]) > 0 && c.at == i && c.sent == |out| && before <= out
    requires MessagesOf(before) == Rewrite(messages[..i], chunk)
    requires MessagesOf(out) < MessagesOf(before) + RewriteOne(messages[i], chunk)
    ensures WentOut(out, messages, i + 1, c, chunk)
  {
    RewriteMore(messages, i, chunk);
    MessagesGrow(before, out);
    assert out[..|out|] == out;
    NothingFollows(out, messages, i + 1);
  }

  lemma MessagesGrow(before: seq<Sent>, out: seq<Sent>)
    requires before <= out
    ensures MessagesOf(before) <= MessagesOf(out)
  {
  }

  lemma NothingFollows(out: seq<Sent>, messages: seq<Message>, i: nat)
    requires i <= |messages|
    ensures MessagesOf(out[|out|..]) == Bodiless(messages[i..i])
  {
    assert messages[i..i] == [];
  }

  /** After the cut, a message goes out exactly if it carries no bytes. */
  lemma WentOutMore(
    before: seq<Sent>, out: seq<Sent>, at: real, messages: seq<Message>, i: nat, c: Cut, chunk: pos)
    requires i < |messages| && WentOut(before, messages, i, c, chunk)
    requires out == if SizeOf(messages[i]) > 0 then before else before + [Sent(at, messages[i])]
    ensures WentOut(out, messages, i + 1, c, chunk) && BytesSent(out) == BytesSent(before)
  {
    BodilessMore(messages, c.at + 1, i);
    if SizeOf(messages[i]) == 0 {
      OneMoreSent(before, Sent(at, messages[i]), c.sent);
    }
  }

  lemma OneMoreSent(before: seq<Sent>, last: Sent, from: nat)
    requires from <= |before|
    ensures (before + [last])[..from] == before[..from]
    ensures MessagesOf((before + [last])[from..]) == MessagesOf(before[from..]) + [last.message]
    ensures BytesSent(before + [last]) == BytesSent(before) + SizeOf(last.message)
  {
    OneMoreMessage(before[from..], last);
    SuffixGrows(before, last, from);
    BytesOneMore(before, last);
  }

  lemma SuffixGrows<T>(before: seq<T>, last: T, from: nat)
    requires from <= |before|
    ensures (before + [last])[..from] == before[..from] && (before + [last])[from..] == before[from..] + [last]
  {
  }

  lemma OneMoreMessage(before: seq<Sent>, last: Sent)
    ensures MessagesOf(before + [last]) == MessagesOf(before) + [last.message]
  {
  }

  lemma BytesOneMore(before: seq<Sent>, last: Sent)
    ensures BytesSent(before + [last]) == BytesSent(before) + SizeOf(last.message)
  {
    assert (before + [last])[..|before|] == before;
  }
 /** The messages that carry no bytes. */
  function Bodiless(ms: seq<Message>): seq<Message> {
    if ms == [] then []
    else Bodiless(ms[..|ms| - 1]) + if SizeOf(ms[|ms| - 1]) == 0 then [ms[|ms| - 1]] else []
  }

  lemma BodilessMore(messages: seq<Message>, from: nat, i: nat)
    requires from <= i < |messages|
    ensures Bodiless(messages[from..i + 1])
            == Bodiless(messages[from..i]) + if SizeOf(messages[i]) == 0 then [messages[i]] else []
  {
    assert messages[from..i + 1][..i - from] == messages[from..i];
  }

  lemma {:induction false} BodilessAreEmpty(ms: seq<Message>)
    ensures forall i :: 0 <= i < |Bodiless(ms)| ==> SizeOf(Bodiless(ms)[i]) == 0
  {
    if ms != [] {
      BodilessAreEmpty(ms[..|ms| - 1]);
    }
  }

  /** The bytes of a cut response are a prefix of those of the whole. */
  lemma CutBytes(out: seq<Sent>, c: Cut, messages: seq<Message>, handed: nat, chunk: pos)
    requires handed <= |messages| && WentOut(out, messages, handed, c, chunk)
    ensures BytesOf(MessagesOf(out)) <= BytesOf(messages)
  {
    RewriteMore(messages, c.at, chunk);
    RewriteOfPrefix(messages, c.at, chunk);
    BodilessAreEmpty(messages[c.at + 1..handed]);
    AddedMessages(out[..c.sent], out);
    assert out[|out[..c.sent]|..] == out[c.sent..];
    CutBytesArePrefix(MessagesOf(out[..c.sent]), MessagesOf(out[c.sent..]), messages, chunk);
  }

  /** One message went out rewritten, with its share of sleep. */
  ghost predicate SentOne(before: Progress, after: Progress, m: Message, chunk: pos, rate: pos) {
    && MessagesOf(after.out) == MessagesOf(before.out) + RewriteOne(m, chunk)
    && BytesSent(after.out) == BytesSent(before.out) + SizeOf(m)
    && Sum(after.sleeps) - Sum(before.sleeps) == SizeOf(m) as real / rate as real
  }

  /** The whole rewritten response is out, and the sleeps asked for add up to bytes over rate. */
  ghost predicate Delivered(p: Progress, messages: seq<Message>, chunk: pos, rate: pos) {
    MessagesOf(p.out) == Rewrite(messages, chunk) && Sum(p.sleeps) == BytesSent(p.out) as real / rate as real
  }

  // -------------------------------------------------------- lemmas on sent parts

  lemma PauseBounds(size: nat, rate: pos)
    requires 0 < size <= rate
    ensures 0.0 < size as real / rate as real <= 1.0
  {
  }

  lemma NothingSent(p: Progress, body: Bytes, moreBody: bool, chunk: pos, rate: pos)
    ensures PartlySent(p, p, body, moreBody, 0, chunk, rate)
  {
    assert p.out[|p.out|..] == [] && body[0..] == body;
    Shares(0, 0, rate);
  }

  lemma {:induction false} BytesSplit(a: seq<Sent>, b: seq<Sent>)
    ensures BytesSent(a + b) == BytesSent(a) + BytesSent(b)
  {
    if b == [] {
      assert a + b == a;
    } else {
      var n := |b| - 1;
      assert (a + b)[..|a| + n] == a + b[..n];
      BytesSplit(a, b[..n]);
    }
  }

  /** One part moves the split between what is out and what remains. */
  lemma PartAdds(
    first: Progress, before: Progress, after: Progress, body: Bytes, moreBody: bool, chunk: pos, rate: pos, from: nat,
    to: nat)
    requires from < |body| && PartlySent(first, before, body, moreBody, from, chunk, rate)
    requires PartSent(before, after, body, moreBody, chunk, rate, from, to)
    ensures PartlySent(first, after, body, moreBody, to, chunk, rate)
  {
    var last := after.out[|before.out|];
    assert after.out == before.out + [last];
    BytesSplit(before.out, [last]);
    assert BytesSent([last]) == SizeOf(last.message) by { assert [last][..0] == []; }
    SplitStep(body, moreBody, chunk, from, to);
    var done := MessagesOf(before.out[|first.out|..]);
    assert MessagesOf(after.out[|first.out|..]) == done + [last.message];
    Associative(done, [last.message], SplitBody(body[to..], moreBody, chunk));
    Shares(from, to - from, rate);
  }

  lemma PartCut(
    first: Progress, before: Progress, after: Progress, body: Bytes, moreBody: bool, from: nat, chunk: pos, rate: pos)
    requires from < |body| && PartlySent(first, before, body, moreBody, from, chunk, rate)
    requires after.out == before.out && ShortSleeps(before.sleeps, after.sleeps, 1.0)
    ensures CutShort(first, after, body, moreBody, chunk)
  {
    SplitNonEmpty(body[from..], moreBody, chunk);
  }

  /** Of the parts of one body that went out, those that are not its last are whole chunks. */
  lemma FullParts(before: seq<Sent>, out: seq<Sent>, body: Bytes, moreBody: bool, chunk: pos)
    requires before <= out && body != []
    requires MessagesOf(out[|before|..]) <= SplitBody(body, moreBody, chunk)
    ensures forall i :: |before| <= i < |out| && i - |before| < |SplitBody(body, moreBody, chunk)| - 1 ==>
              SizeOf(out[i].message) == chunk
  {
    var parts := SplitBody(body, moreBody, chunk);
    PartsAreWellFramed(body, moreBody, chunk);
    forall i | |before| <= i < |out| && i - |before| < |parts| - 1 ensures SizeOf(out[i].message) == chunk {
      assert MessagesOf(out[|before|..])[i - |before|] == parts[i - |before|];
    }
  }

  lemma SplitNonEmpty(body: Bytes, moreBody: bool, size: pos)
    requires body != []
    ensures SplitBody(body, moreBody, size) != []
  {
  }

  lemma SplitStep(body: Bytes, moreBody: bool, size: pos, from: nat, to: nat)
    requires from < |body| && to == (if from + size < |body| then from + size else |body|)
    ensures SplitBody(body[from..], moreBody, size)
            == [Body(body[from..to], moreBody || to < |body|)] + SplitBody(body[to..], moreBody, size)
  {
    var rest := body[from..];
    if |rest| <= size {
      assert rest == body[from..to] && body[to..] == [];
    } else {
      assert rest[..size] == body[from..to] && rest[size..] == body[to..];
    }
  }

  lemma BodyDone(
    before: Progress, after: Progress, body: Bytes, moreBody: bool, chunk: pos, rate: pos)
    requires PartlySent(before, after, body, moreBody, |body|, chunk, rate)
    ensures MessagesOf(after.out) == MessagesOf(before.out) + SplitBody(body, moreBody, chunk)
  {
    AddedMessages(before.out, after.out);
    var added := MessagesOf(after.out[|before.out|..]);
    assert body[|body|..] == [] && added + [] == added;
  }

  lemma BodyCut(before: Progress, after: Progress, body: Bytes, moreBody: bool, chunk: pos)
    requires CutShort(before, after, body, moreBody, chunk)
    ensures MessagesOf(after.out) < MessagesOf(before.out) + SplitBody(body, moreBody, chunk)
  {
    AddedMessages(before.out, after.out);
  }

  lemma AddedMessages(before: seq<Sent>, out: seq<Sent>)
    requires before <= out
    ensures MessagesOf(out) == MessagesOf(before) + MessagesOf(out[|before|..])
  {
  }

  lemma DeliveredMore(
    before: Progress, after: Progress, messages: seq<Message>, i: nat, chunk: pos, rate: pos)
    requires i < |messages| && Delivered(before, messages[..i], chunk, rate)
    requires SentOne(before, after, messages[i], chunk, rate)
    ensures Delivered(after, messages[..i + 1], chunk, rate)
  {
    RewriteMore(messages, i, chunk);
    SleepAddsUp(before, after, SizeOf(messages[i]), rate);
  }

  lemma RewriteMore(messages: seq<Message>, i: nat, chunk: pos)
    requires i < |messages|
    ensures Rewrite(messages[..i + 1], chunk) == Rewrite(messages[..i], chunk) + RewriteOne(messages[i], chunk)
  {
    assert messages[..i + 1] == messages[..i] + [messages[i]];
    RewriteExtends(messages[..i], messages[i], chunk);
  }

  lemma SleepAddsUp(before: Progress, after: Progress, size: nat, rate: pos)
    requires Sum(before.sleeps) == BytesSent(before.out) as real / rate as real
    requires Sum(after.sleeps) - Sum(before.sleeps) == size as real / rate as real
    requires BytesSent(after.out) == BytesSent(before.out) + size
    ensures Sum(after.sleeps) == BytesSent(after.out) as real / rate as real
  {
    Shares(BytesSent(before.out), size, rate);
  }

  /** A response cut short inside its `i`-th message is a prefix of the whole. */
  lemma {:induction false} RewriteOfPrefix(ms: seq<Message>, i: nat, size: pos)
    requires i < |ms|
    ensures Rewrite(ms[..i], size) + RewriteOne(ms[i], size) <= Rewrite(ms, size)
    decreases |ms| - i
  {
    RewriteMore(ms, i, size);
    if i + 1 == |ms| {
      assert ms[..i + 1] == ms;
    } else {
      RewriteOfPrefix(ms, i + 1, size);
      PrefixOfSum(Rewrite(ms[..i + 1], size), RewriteOne(ms[i + 1], size), Rewrite(ms, size));
    }
  }

  lemma PrefixOfSum<A>(a: seq<A>, b: seq<A>, c: seq<A>)
    requires a + b <= c
    ensures a <= c
  {
    assert (a + b)[..|a|] == a;
  }

  lemma PollsStep(remaining: real)
    requires remaining > 0.0
    ensures Polls(remaining) >= 1
    ensures remaining > ABORT_POLL_INTERVAL ==> Polls(remaining - ABORT_POLL_INTERVAL) == Polls(remaining) - 1
    ensures remaining <= ABORT_POLL_INTERVAL ==> Polls(remaining) == 1
    ensures Polls(0.0) == 0
  {
  }
}
