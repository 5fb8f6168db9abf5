/**
  The strings that name counters in the shared stores, and when two counters
  can be told apart by them.
 */
module KeyStrings {

  const COLON := ':'
  const APPROX_PREFIX := "__rbl_counter__"

  predicate NoColon(s: string) {
    forall i :: 0 <= i < |s| ==> s[i] != COLON
  }

  predicate IsPrefix(p: string, s: string) {
    |p| <= |s| && s[..|p|] == p
  }

  // ---------------------------------------------------------------- decimals

  const DIGITS := "0123456789"

  function Decimal(n: nat): (s: string) {
    if n < 10 then [DIGITS[n]] else Decimal(n / 10) + [DIGITS[n % 10]]
  }

  function DigitValue(c: char): nat {
    if '0' <= c <= '9' then (c - '0') as nat else 0
  }

  function Parse(s: string): nat {
    if s == "" then 0 else Parse(s[..|s| - 1]) * 10 + DigitValue(s[|s| - 1])
  }

  lemma {:induction false} DecimalParses(n: nat)
    ensures Parse(Decimal(n)) == n
    ensures Decimal(n) != "" && NoColon(Decimal(n)) && Decimal(n)[0] != 'v'
  {
    if n >= 10 {
      DecimalParses(n / 10);
      assert Decimal(n)[..|Decimal(n)| - 1] == Decimal(n / 10);
    } else {
      assert Parse("") == 0;
      assert [DIGITS[n]][..0] == "";
    }
  }

  /** Numbers are written without leading zeros. */
  lemma {:induction false} NoLeadingZero(n: nat)
    ensures Decimal(n) != "" && (Decimal(n)[0] == '0' <==> n == 0) && (|Decimal(n)| == 1 <==> n < 10)
  {
    if n >= 10 {
      NoLeadingZero(n / 10);
    }
  }

  lemma DecimalInjective(m: nat, n: nat)
    requires Decimal(m) == Decimal(n)
    ensures m == n
  {
    DecimalParses(m);
    DecimalParses(n);
  }

  // ------------------------------------------------------------ splitting keys

  /** Text before the first colon, and what follows it, are determined by the whole. */
  lemma SplitFirst(a: string, x: string, b: string, y: string)
    requires NoColon(a) && NoColon(b)
    requires a + [COLON] + x == b + [COLON] + y
    ensures a == b && x == y
  {
    var s := a + [COLON] + x;
    assert s[|a|] == COLON && s[|b|] == COLON;
    assert forall i :: 0 <= i < |a| ==> s[i] == a[i];
    assert forall i :: 0 <= i < |b| ==> s[i] == b[i];
    assert a == s[..|a|] && b == s[..|b|];
    assert x == s[|a| + 1..] && y == s[|b| + 1..];
  }

  lemma SplitLast(x: string, a: string, y: string, b: string)
    requires NoColon(a) && NoColon(b)
    requires x + [COLON] + a == y + [COLON] + b
    ensures a == b && x == y
  {
    var s := x + [COLON] + a;
    assert s[|x|] == COLON && s[|y|] == COLON;
    assert forall i :: |x| < i < |s| ==> s[i] == a[i - |x| - 1];
    assert forall i :: |y| < i < |s| ==> s[i] == b[i - |y| - 1];
    assert x == s[..|x|] && y == s[..|y|];
    assert a == s[|x| + 1..] && b == s[|y| + 1..];
  }

  // ------------------------------------------------------------- bucket counters

  function ApproxHandlerPrefix(handler: string): string {
    APPROX_PREFIX + [COLON] + handler + [COLON]
  }

  function ApproxCounterKey(requestKey: string, handler: string, index: nat, bucket: nat): string {
    APPROX_PREFIX + [COLON] + handler + [COLON] + Decimal(index) + [COLON] + requestKey + [COLON] + Decimal(bucket)
  }

  lemma ApproxShape(requestKey: string, handler: string, index: nat, bucket: nat)
    ensures
      var tail := Decimal(index) + [COLON] + (requestKey + [COLON] + Decimal(bucket));
      && ApproxCounterKey(requestKey, handler, index, bucket)
         == APPROX_PREFIX + [COLON] + (handler + [COLON] + tail)
      && ApproxCounterKey(requestKey, handler, index, bucket) == ApproxHandlerPrefix(handler) + tail
  {
  }

  /** What a key of rule `index` says after its handler. */
  function IndexPart(index: nat): string {
    Decimal(index) + [COLON]
  }

  /** Handler `b` reads like handler `a` followed by a rule index. */
  ghost predicate ReadsLikeRuleOf(a: string, b: string) {
    exists i: nat :: IsPrefix(a + [COLON] + IndexPart(i), b + [COLON])
  }

  ghost predicate ApproxKeysAreDistinct(handlers: set<string>) {
    forall r1, h1, i1, b1, r2, h2, i2, b2 |
      h1 in handlers && h2 in handlers && ApproxCounterKey(r1, h1, i1, b1) == ApproxCounterKey(r2, h2, i2, b2) ::
      r1 == r2 && h1 == h2 && i1 == i2 && b1 == b2
  }

  lemma SameStart(lead: string, x: string, y: string)
    requires lead + x == lead + y
    ensures x == y
  {
    assert x == (lead + x)[|lead|..] && y == (lead + y)[|lead|..];
  }

  /** A first segment of a text is a first segment of whatever the text begins with up to a colon. */
  lemma SegmentWithin(segment: string, rest: string, x: string, y: string)
    requires NoColon(segment) && segment + [COLON] + rest == x + [COLON] + y
    ensures IsPrefix(segment + [COLON], x + [COLON])
  {
    var s := x + [COLON] + y;
    assert s[|segment|] == COLON && s[|x|] == COLON;
    assert forall i :: 0 <= i < |segment| ==> s[i] == segment[i];
    assert segment + [COLON] == s[..|segment| + 1];
    assert x + [COLON] == s[..|x| + 1];
  }

  /** Of two handlers at the start of one text, one is the other, or the other with a colon and more. */
  lemma OneExtends(h1: string, x1: string, h2: string, x2: string)
    requires h1 + [COLON] + x1 == h2 + [COLON] + x2 && |h1| <= |h2|
    ensures h1 == h2 || IsPrefix(h1 + [COLON], h2)
    ensures IsPrefix(h1 + [COLON], h2) ==> x1 == h2[|h1| + 1..] + [COLON] + x2
  {
    var s := h1 + [COLON] + x1;
    assert h1 == s[..|h1|] && h2 == s[..|h2|] && s[|h1|] == COLON;
    if |h1| < |h2| {
      assert h2[|h1|] == COLON;
      assert h1 + [COLON] == h2[..|h1| + 1];
      assert h2 == h1 + [COLON] + h2[|h1| + 1..];
      SameStart(h1 + [COLON], x1, h2[|h1| + 1..] + [COLON] + x2);
    }
  }

  lemma PrefixExtends(a: string, x: string, more: string)
    requires IsPrefix(more, x)
    ensures IsPrefix(a + more, a + x)
  {
    assert (a + x)[..|a + more|] == a + x[..|more|];
  }

  lemma SharedApproxKey(
    r1: string, h1: string, i1: nat, b1: nat, r2: string, h2: string, i2: nat, b2: nat)
    requires ApproxCounterKey(r1, h1, i1, b1) == ApproxCounterKey(r2, h2, i2, b2) && |h1| <= |h2|
    ensures h1 == h2 || ReadsLikeRuleOf(h1, h2)
  {
    ApproxShape(r1, h1, i1, b1);
    ApproxShape(r2, h2, i2, b2);
    var rest1, rest2 := r1 + [COLON] + Decimal(b1), r2 + [COLON] + Decimal(b2);
    var tail1, tail2 := Decimal(i1) + [COLON] + rest1, Decimal(i2) + [COLON] + rest2;
    SameStart(APPROX_PREFIX + [COLON], h1 + [COLON] + tail1, h2 + [COLON] + tail2);
    OneExtends(h1, tail1, h2, tail2);
    if h1 != h2 {
      var x := h2[|h1| + 1..];
      DecimalParses(i1);
      SegmentWithin(Decimal(i1), rest1, x, tail2);
      PrefixExtends(h1 + [COLON], x + [COLON], IndexPart(i1));
      assert h2 + [COLON] == h1 + [COLON] + (x + [COLON]);
    }
  }

  lemma SameHandlerApproxKey(handler: string, r1: string, i1: nat, b1: nat, r2: string, i2: nat, b2: nat)
    requires ApproxCounterKey(r1, handler, i1, b1) == ApproxCounterKey(r2, handler, i2, b2)
    ensures r1 == r2 && i1 == i2 && b1 == b2
  {
    ApproxShape(r1, handler, i1, b1);
    ApproxShape(r2, handler, i2, b2);
    DecimalParses(i1);
    DecimalParses(i2);
    DecimalParses(b1);
    DecimalParses(b2);
    var rest1, rest2 := r1 + [COLON] + Decimal(b1), r2 + [COLON] + Decimal(b2);
    SameStart(ApproxHandlerPrefix(handler), Decimal(i1) + [COLON] + rest1, Decimal(i2) + [COLON] + rest2);
    SplitFirst(Decimal(i1), rest1, Decimal(i2), rest2);
    SplitLast(r1, Decimal(b1), r2, Decimal(b2));
  }

  /** A handler that reads like a rule of another does share a key with it. */
  lemma LookalikeSharesApproxKey(a: string, b: string, i: nat, y: string)
    requires b + [COLON] == a + [COLON] + IndexPart(i) + y
    ensures ApproxCounterKey(y + IndexPart(0), a, i, 0) == ApproxCounterKey("", b, 0, 0)
  {
    var zero := Decimal(0);
    ApproxShape("", b, 0, 0);
    ApproxShape(y + IndexPart(0), a, i, 0);
    assert a + [COLON] + (IndexPart(i) + (y + IndexPart(0) + [COLON] + zero))
           == a + [COLON] + IndexPart(i) + y + (IndexPart(0) + ("" + [COLON] + zero));
  }

  /** Bucket counters are told apart exactly when no handler reads like a rule of another. */
  lemma ApproxKeysDistinctIff(handlers: set<string>)
    ensures ApproxKeysAreDistinct(handlers)
            <==> forall a, b :: a in handlers && b in handlers && a != b ==> !ReadsLikeRuleOf(a, b)
  {
    if a, b :| a in handlers && b in handlers && a != b && ReadsLikeRuleOf(a, b) {
      var i: nat :| IsPrefix(a + [COLON] + IndexPart(i), b + [COLON]);
      var y := Remainder(a + [COLON] + IndexPart(i), b + [COLON]);
      LookalikeSharesApproxKey(a, b, i, y);
      assert !ApproxKeysAreDistinct(handlers);
    } else {
      forall r1, h1, i1, b1, r2, h2, i2, b2 |
        h1 in handlers && h2 in handlers && ApproxCounterKey(r1, h1, i1, b1) == ApproxCounterKey(r2, h2, i2, b2)
        ensures r1 == r2 && h1 == h2 && i1 == i2 && b1 == b2
      {
        if |h1| <= |h2| {
          SharedApproxKey(r1, h1, i1, b1, r2, h2, i2, b2);
        } else {
          SharedApproxKey(r2, h2, i2, b2, r1, h1, i1, b1);
        }
        SameHandlerApproxKey(h1, r1, i1, b1, r2, i2, b2);
      }
    }
  }

  /** For any handler at all, two buckets of one counter have different keys. */
  lemma BucketsDistinguish(requestKey: string, handler: string, index: nat, b1: nat, b2: nat)
    ensures ApproxCounterKey(requestKey, handler, index, b1) == ApproxCounterKey(requestKey, handler, index, b2)
            <==> b1 == b2
  {
    DecimalParses(b1);
    DecimalParses(b2);
    if ApproxCounterKey(requestKey, handler, index, b1) == ApproxCounterKey(requestKey, handler, index, b2) {
      var head := APPROX_PREFIX + [COLON] + handler + [COLON] + Decimal(index) + [COLON] + requestKey;
      SplitLast(head, Decimal(b1), head, Decimal(b2));
    }
  }

  /** Cleaning up any of these handlers by prefix reaches its own bucket counters and no other's. */
  ghost predicate CleanupIsExact(handlers: set<string>) {
    forall handler, r, h, i, b | handler in handlers && h in handlers ::
      IsPrefix(ApproxHandlerPrefix(handler), ApproxCounterKey(r, h, i, b)) <==> handler == h
  }

  lemma PrefixReaches(handler: string, r: string, h: string, i: nat, b: nat)
    requires IsPrefix(ApproxHandlerPrefix(handler), ApproxCounterKey(r, h, i, b))
    ensures handler == h || IsPrefix(handler + [COLON], h) || IsPrefix(h + [COLON], handler)
  {
    ApproxShape(r, h, i, b);
    var key, p := ApproxCounterKey(r, h, i, b), ApproxHandlerPrefix(handler);
    var tail := Decimal(i) + [COLON] + (r + [COLON] + Decimal(b));
    assert key == p + key[|p|..];
    assert p + key[|p|..] == APPROX_PREFIX + [COLON] + (handler + [COLON] + key[|p|..]);
    SameStart(APPROX_PREFIX + [COLON], handler + [COLON] + key[|p|..], h + [COLON] + tail);
    if |handler| <= |h| {
      OneExtends(handler, key[|p|..], h, tail);
    } else {
      OneExtends(h, tail, handler, key[|p|..]);
    }
  }

  /** Cleaning up a handler drops every bucket counter of a handler that is its name, a colon and more. */
  lemma PrefixOfExtension(handler: string, h: string, r: string, i: nat, b: nat)
    requires handler == h || IsPrefix(handler + [COLON], h)
    ensures IsPrefix(ApproxHandlerPrefix(handler), ApproxCounterKey(r, h, i, b))
  {
    ApproxShape(r, h, i, b);
    var tail := Decimal(i) + [COLON] + (r + [COLON] + Decimal(b));
    var reach := h + [COLON];
    assert handler + [COLON] == reach[..|handler| + 1];
    assert ApproxCounterKey(r, h, i, b)
           == ApproxHandlerPrefix(handler) + reach[|handler| + 1..] + tail;
  }

  /** Cleanup by prefix is exact exactly when no handler is another one followed by a colon. */
  lemma CleanupIsExactIff(handlers: set<string>)
    ensures CleanupIsExact(handlers)
            <==> forall a, b :: a in handlers && b in handlers ==> !IsPrefix(a + [COLON], b)
  {
    if a, b :| a in handlers && b in handlers && IsPrefix(a + [COLON], b) {
      PrefixOfExtension(a, b, "", 0, 0);
      assert !CleanupIsExact(handlers);
    } else {
      forall handler, r, h, i, b | handler in handlers && h in handlers
        ensures IsPrefix(ApproxHandlerPrefix(handler), ApproxCounterKey(r, h, i, b)) <==> handler == h
      {
        if handler == h {
          PrefixOfExtension(handler, h, r, i, b);
        } else if IsPrefix(ApproxHandlerPrefix(handler), ApproxCounterKey(r, h, i, b)) {
          PrefixReaches(handler, r, h, i, b);
        }
      }
    }
  }

  // -------------------------------------------------------------- Redis counters

  /** What a Redis key says between its handler and its rule index. */
  function GenerationPart(generation: nat): string {
    if generation > 0 then ['v'] + Decimal(generation) + [COLON] else ""
  }

  /** The part of a Redis key after the handler name. */
  function RedisKeyTail(tail: string, index: nat, generation: nat): string {
    GenerationPart(generation) + (IndexPart(index) + tail)
  }

  function RedisCounterKey(prefix: string, tail: string, handler: string, index: nat, generation: nat): string {
    (prefix + ":counter:") + (handler + [COLON] + RedisKeyTail(tail, index, generation))
  }

  lemma Regroup(a: string, b: string, c: string)
    ensures a + b + c == a + (b + c)
  {
  }

  /** The tail with its first segment in front. */
  lemma TailSegments(t: string, i: nat, g: nat)
    ensures NoColon(Decimal(i)) && IndexPart(i) + t == Decimal(i) + [COLON] + t
    ensures NoColon(['v'] + Decimal(g))
    ensures RedisKeyTail(t, i, g)
            == if g > 0 then ['v'] + Decimal(g) + [COLON] + (IndexPart(i) + t) else IndexPart(i) + t
  {
    DecimalParses(i);
    DecimalParses(g);
  }

  lemma RedisTailsDistinguish(t1: string, i1: nat, g1: nat, t2: string, i2: nat, g2: nat)
    requires RedisKeyTail(t1, i1, g1) == RedisKeyTail(t2, i2, g2)
    ensures t1 == t2 && i1 == i2 && g1 == g2
  {
    TailSegments(t1, i1, g1);
    TailSegments(t2, i2, g2);
    SameGeneration(t1, i1, g1, t2, i2, g2);
    SplitFirst(Decimal(i1), t1, Decimal(i2), t2);
    DecimalInjective(i1, i2);
  }

  lemma SameGeneration(t1: string, i1: nat, g1: nat, t2: string, i2: nat, g2: nat)
    requires RedisKeyTail(t1, i1, g1) == RedisKeyTail(t2, i2, g2)
    ensures g1 == g2 && IndexPart(i1) + t1 == IndexPart(i2) + t2
  {
    TailSegments(t1, i1, g1);
    TailSegments(t2, i2, g2);
    DecimalParses(i1);
    DecimalParses(i2);
    assert g1 == 0 ==> RedisKeyTail(t1, i1, g1)[0] == Decimal(i1)[0];
    assert g2 == 0 ==> RedisKeyTail(t2, i2, g2)[0] == Decimal(i2)[0];
    if g1 > 0 {
      SplitFirst(['v'] + Decimal(g1), IndexPart(i1) + t1, ['v'] + Decimal(g2), IndexPart(i2) + t2);
      SameStart(['v'], Decimal(g1), Decimal(g2));
      DecimalInjective(g1, g2);
    }
  }

  /** Handler `b` reads like handler `a` followed by a generation, a rule index or both. */
  ghost predicate ReadsLikeGenerationOf(a: string, b: string) {
    || (exists g: nat :: g > 0 && b + [COLON] == a + [COLON] + GenerationPart(g))
    || (exists g: nat, i: nat :: IsPrefix(a + [COLON] + (GenerationPart(g) + IndexPart(i)), b + [COLON]))
  }

  /** No handler reads like the key of another one. */
  ghost predicate Apart(handlers: set<string>) {
    forall a, b :: a in handlers && b in handlers && a != b ==> !ReadsLikeGenerationOf(a, b)
  }

  /** A text that begins the tail of a key, up to a colon, reads like its generation or its rule index. */
  lemma RedisTailWithin(t: string, i: nat, g: nat, x: string, y: string)
    requires RedisKeyTail(t, i, g) == x + [COLON] + y
    ensures (g > 0 && x + [COLON] == GenerationPart(g)) || IsPrefix(GenerationPart(g) + IndexPart(i), x + [COLON])
  {
    TailSegments(t, i, g);
    if g == 0 {
      SegmentWithin(Decimal(i), t, x, y);
      assert GenerationPart(g) + IndexPart(i) == IndexPart(i);
    } else {
      var v := ['v'] + Decimal(g);
      SegmentWithin(v, IndexPart(i) + t, x, y);
      if |x| > |v| {
        GenerationWithin(t, i, v, x, y);
      }
    }
  }

  /** Two ways to divide the same text: what the longer first piece has beyond the shorter one. */
  lemma Overhang(a: string, b: string, x: string, y: string) returns (rest: string)
    requires a + b == x + y && IsPrefix(a, x)
    ensures x == a + rest && b == rest + y
  {
    rest := x[|a|..];
    assert (x + y)[|a|..] == rest + y && (a + b)[|a|..] == b;
  }

  lemma GenerationWithin(t: string, i: nat, v: string, x: string, y: string)
    requires v + [COLON] + (IndexPart(i) + t) == x + [COLON] + y && |x| > |v|
    ensures IsPrefix(v + [COLON] + IndexPart(i), x + [COLON])
  {
    OneExtends(v, IndexPart(i) + t, x, y);
    Regroup(x, [COLON], y);
    var rest := Overhang(v + [COLON], IndexPart(i) + t, x, [COLON] + y);
    Regroup(rest, [COLON], y);
    Regroup(v + [COLON], rest, [COLON]);
    IndexWithin(t, i, v + [COLON], rest, y);
  }

  lemma IndexWithin(t: string, i: nat, start: string, rest: string, y: string)
    requires IndexPart(i) + t == rest + [COLON] + y
    ensures IsPrefix(start + IndexPart(i), start + (rest + [COLON]))
  {
    TailSegments(t, i, 0);
    SegmentWithin(Decimal(i), t, rest, y);
    PrefixExtends(start, rest + [COLON], IndexPart(i));
  }

  lemma ExtensionReadsLike(a: string, b: string, x: string, g: nat, i: nat)
    requires b == a + [COLON] + x
    requires (g > 0 && x + [COLON] == GenerationPart(g)) || IsPrefix(GenerationPart(g) + IndexPart(i), x + [COLON])
    ensures ReadsLikeGenerationOf(a, b)
  {
    Regroup(a + [COLON], x, [COLON]);
    if IsPrefix(GenerationPart(g) + IndexPart(i), x + [COLON]) {
      PrefixExtends(a + [COLON], x + [COLON], GenerationPart(g) + IndexPart(i));
    }
  }

  lemma SharedRedisKey(
    t1: string, h1: string, i1: nat, g1: nat, t2: string, h2: string, i2: nat, g2: nat)
    requires h1 + [COLON] + RedisKeyTail(t1, i1, g1) == h2 + [COLON] + RedisKeyTail(t2, i2, g2)
    requires |h1| <= |h2| && h1 != h2
    ensures ReadsLikeGenerationOf(h1, h2)
  {
    OneExtends(h1, RedisKeyTail(t1, i1, g1), h2, RedisKeyTail(t2, i2, g2));
    var x := h2[|h1| + 1..];
    RedisTailWithin(t1, i1, g1, x, RedisKeyTail(t2, i2, g2));
    ExtensionReadsLike(h1, h2, x, g1, i1);
  }

  /** Counters of handlers that are apart never share a Redis key, in any generation. */
  lemma RedisKeysDistinguish(
    handlers: set<string>, prefix: string, t1: string, h1: string, i1: nat, g1: nat, t2: string, h2: string, i2: nat,
    g2: nat)
    requires Apart(handlers) && h1 in handlers && h2 in handlers
    requires RedisCounterKey(prefix, t1, h1, i1, g1) == RedisCounterKey(prefix, t2, h2, i2, g2)
    ensures t1 == t2 && h1 == h2 && i1 == i2 && g1 == g2
  {
    var tail1, tail2 := RedisKeyTail(t1, i1, g1), RedisKeyTail(t2, i2, g2);
    SameStart(prefix + ":counter:", h1 + [COLON] + tail1, h2 + [COLON] + tail2);
    if h1 != h2 {
      if |h1| <= |h2| {
        SharedRedisKey(t1, h1, i1, g1, t2, h2, i2, g2);
      } else {
        SharedRedisKey(t2, h2, i2, g2, t1, h1, i1, g1);
      }
      assert false;
    }
    SameStart(h1 + [COLON], tail1, tail2);
    RedisTailsDistinguish(t1, i1, g1, t2, i2, g2);
  }

  ghost predicate RedisKeysAreDistinct(handlers: set<string>, prefix: string) {
    forall t1, h1, i1, g1, t2, h2, i2, g2 |
      h1 in handlers && h2 in handlers
      && RedisCounterKey(prefix, t1, h1, i1, g1) == RedisCounterKey(prefix, t2, h2, i2, g2) ::
      t1 == t2 && h1 == h2 && i1 == i2 && g1 == g2
  }

  /** A handler that is another one's name and generation shares its keys. */
  lemma GenerationLookalike(prefix: string, a: string, b: string, g: nat)
    requires b + [COLON] == a + [COLON] + GenerationPart(g)
    ensures RedisCounterKey(prefix, "", a, 0, g) == RedisCounterKey(prefix, "", b, 0, 0)
  {
    Regroup(a + [COLON], GenerationPart(g), IndexPart(0) + "");
    assert RedisKeyTail("", 0, 0) == IndexPart(0) + "";
  }

  /** So does one that goes on with a rule index; `y` is whatever it says after that. */
  lemma IndexLookalike(prefix: string, a: string, b: string, g: nat, i: nat, y: string)
    requires b + [COLON] == a + [COLON] + (GenerationPart(g) + IndexPart(i)) + y
    ensures RedisCounterKey(prefix, y + RedisKeyTail("", 0, 0), a, i, g) == RedisCounterKey(prefix, "", b, 0, 0)
  {
    var t := RedisKeyTail("", 0, 0);
    Regroup(GenerationPart(g), IndexPart(i), y + t);
    Regroup(a + [COLON], GenerationPart(g) + IndexPart(i), y + t);
    Regroup(a + [COLON] + (GenerationPart(g) + IndexPart(i)), y, t);
  }

  /** A lookalike shares a key with the handler it reads like. */
  lemma LookalikeSharesRedisKey(prefix: string, a: string, b: string)
    returns (t: string, i: nat, g: nat)
    requires ReadsLikeGenerationOf(a, b)
    ensures RedisCounterKey(prefix, t, a, i, g) == RedisCounterKey(prefix, "", b, 0, 0)
  {
    if v: nat :| v > 0 && b + [COLON] == a + [COLON] + GenerationPart(v) {
      t, i, g := "", 0, v;
      GenerationLookalike(prefix, a, b, g);
    } else {
      g, i :| IsPrefix(a + [COLON] + (GenerationPart(g) + IndexPart(i)), b + [COLON]);
      var y := Remainder(a + [COLON] + (GenerationPart(g) + IndexPart(i)), b + [COLON]);
      t := y + RedisKeyTail("", 0, 0);
      IndexLookalike(prefix, a, b, g, i, y);
    }
  }

  lemma Remainder(start: string, s: string) returns (rest: string)
    requires IsPrefix(start, s)
    ensures s == start + rest
  {
    rest := s[|start|..];
  }

  /** Redis counters of all generations are told apart exactly when the handlers are apart. */
  lemma RedisKeysDistinctIff(handlers: set<string>, prefix: string)
    ensures RedisKeysAreDistinct(handlers, prefix) <==> Apart(handlers)
  {
    if Apart(handlers) {
      forall t1, h1, i1, g1, t2, h2, i2, g2 |
        h1 in handlers && h2 in handlers
        && RedisCounterKey(prefix, t1, h1, i1, g1) == RedisCounterKey(prefix, t2, h2, i2, g2)
        ensures t1 == t2 && h1 == h2 && i1 == i2 && g1 == g2
      {
        RedisKeysDistinguish(handlers, prefix, t1, h1, i1, g1, t2, h2, i2, g2);
      }
    } else {
      var a, b :| a in handlers && b in handlers && a != b && ReadsLikeGenerationOf(a, b);
      var t, i, g := LookalikeSharesRedisKey(prefix, a, b);
    }
  }

  lemma ColonFreeStart(a: string, x: string, b: string)
    requires NoColon(a) && NoColon(b) && IsPrefix(a + [COLON] + x, b + [COLON])
    ensures a == b
  {
    var y := (b + [COLON])[|a + [COLON] + x|..];
    assert a + [COLON] + (x + y) == b + [COLON] + "";
    SplitFirst(a, x + y, b, "");
  }

  /** Names without colons are always apart. */
  lemma ColonFreeNamesAreApart(handlers: set<string>)
    requires forall h :: h in handlers ==> NoColon(h)
    ensures Apart(handlers)
  {
    forall a, b | a in handlers && b in handlers && ReadsLikeGenerationOf(a, b) ensures a == b {
      if g: nat :| g > 0 && b + [COLON] == a + [COLON] + GenerationPart(g) {
        ColonFreeStart(a, GenerationPart(g), b);
      } else {
        var g: nat, i: nat :| IsPrefix(a + [COLON] + (GenerationPart(g) + IndexPart(i)), b + [COLON]);
        ColonFreeStart(a, GenerationPart(g) + IndexPart(i), b);
      }
    }
  }
}
