/** The token buckets that bound what this node transmits: change broadcasts it
    originates, and reply walks a peer can extract from it. */
module Buckets {
  import opened Arithmetic
  import opened Bytes

  datatype Bucket = Bucket(tokens: nat, refill: int)

  /** Credit whole intervals since the last refill. The gain and the sum are 32-bit in
      the firmware, so both wrap; `interval` 0 disables the limit and never credits. */
  function Credit(b: Bucket, now: int, interval: nat, burst: nat): (b': Bucket)
    ensures b.tokens <= burst ==> b'.tokens <= burst
  {
    if interval == 0 || now - b.refill < interval then b
    else
      var gained := ((now - b.refill) / interval) % WORD;
      Bucket(Min((b.tokens + gained) % WORD, burst), b.refill + gained * interval)
  }

  predicate MayTake(b: Bucket, now: int, interval: nat, burst: nat) {
    interval == 0 || Credit(b, now, interval, burst).tokens > 0
  }

  /** The bucket after one request at `now`, granted or not. */
  function AfterRequest(b: Bucket, now: int, interval: nat, burst: nat): (b': Bucket) {
    var c := Credit(b, now, interval, burst);
    if c.tokens > 0 then c.(tokens := c.tokens - 1) else c
  }

  /** A request costs one token if there is one, and otherwise only the time it took. */
  lemma RequestSpends(b: Bucket, now: int, interval: nat, burst: nat)
    ensures var paid := Credit(b, now, interval, burst);
            && AfterRequest(b, now, interval, burst) == paid.(tokens := Max(paid.tokens - 1, 0))
            && (!MayTake(b, now, interval, burst) ==> AfterRequest(b, now, interval, burst) == paid)
  {
  }

  function Run(b: Bucket, times: seq<int>, interval: nat, burst: nat): Bucket {
    if |times| == 0 then b
    else AfterRequest(Run(b, times[..|times| - 1], interval, burst), times[|times| - 1], interval, burst)
  }

  /** How many of the requests were granted. */
  function Grants(b: Bucket, times: seq<int>, interval: nat, burst: nat): nat {
    if |times| == 0 then 0
    else
      var init := times[..|times| - 1];
      Grants(b, init, interval, burst)
      + if MayTake(Run(b, init, interval, burst), times[|times| - 1], interval, burst) then 1 else 0
  }

  predicate Nondecreasing(times: seq<int>) {
    forall i, j :: 0 <= i < j < |times| ==> times[i] <= times[j]
  }

  /** Everything granted plus everything still in the bucket was paid for: the opening
      burst, and one token per whole interval credited so far. */
  predicate Paid(b: Bucket, granted: nat, start: int, interval: nat, burst: nat, intervals: nat) {
    b.refill == start + intervals * interval && granted + b.tokens <= burst + intervals
  }

  /** A request never credits more intervals than have passed. */
  lemma RequestIsPaid(b: Bucket, granted: nat, start: int, interval: nat, burst: nat,
                      intervals: nat, now: int) returns (intervals': nat)
    requires interval > 0 && Paid(b, granted, start, interval, burst, intervals)
    ensures Paid(AfterRequest(b, now, interval, burst),
                 granted + if MayTake(b, now, interval, burst) then 1 else 0,
                 start, interval, burst, intervals')
    ensures b.refill <= now ==> start + intervals' * interval <= now
  {
    intervals' := intervals;
    if now - b.refill >= interval {
      var whole := (now - b.refill) / interval;
      var gained := whole % WORD;
      intervals' := intervals + gained;
      assert intervals' * interval == intervals * interval + gained * interval;
      QuotientBounds(now - b.refill, interval);
      MulMonotone(gained, whole, interval);
    }
  }

  lemma {:induction false} RunIsPaid(start: int, times: seq<int>, interval: nat, burst: nat)
    returns (intervals: nat)
    requires interval > 0 && Nondecreasing(times)
    requires forall t :: t in times ==> start <= t
    ensures Paid(Run(Bucket(burst, start), times, interval, burst),
                 Grants(Bucket(burst, start), times, interval, burst), start, interval, burst, intervals)
    ensures intervals == 0 || (|times| > 0 && start + intervals * interval <= times[|times| - 1])
  {
    if |times| == 0 {
      intervals := 0;
    } else {
      var init, now := times[..|times| - 1], times[|times| - 1];
      assert forall t :: t in init ==> t in times;
      assert now in times;
      var before := RunIsPaid(start, init, interval, burst);
      var b := Run(Bucket(burst, start), init, interval, burst);
      assert b.refill <= now;
      intervals := RequestIsPaid(b, Grants(Bucket(burst, start), init, interval, burst),
                                 start, interval, burst, before, now);
    }
  }

  /** The bound over a whole run: at time T after init, at most burst + floor(T / interval)
      requests were granted, whatever the request pattern. */
  lemma GrantsAreBounded(start: int, times: seq<int>, interval: nat, burst: nat)
    requires interval > 0 && Nondecreasing(times) && |times| > 0
    requires forall t :: t in times ==> start <= t
    ensures times[|times| - 1] >= start
    ensures Grants(Bucket(burst, start), times, interval, burst)
            <= burst + (times[|times| - 1] - start) / interval
  {
    assert times[|times| - 1] in times;
    var intervals := RunIsPaid(start, times, interval, burst);
    assert intervals * interval <= times[|times| - 1] - start;
    QuotientIsGreatest(intervals, times[|times| - 1] - start, interval);
  }

  /** And no starvation: one interval of quiet always earns the next grant, as long as the
      idle span is short of the 32-bit interval count. */
  lemma QuietEarnsAGrant(b: Bucket, now: int, interval: nat, burst: nat)
    requires interval > 0 && burst > 0 && now - b.refill >= interval
    requires b.tokens + (now - b.refill) / interval < WORD
    ensures MayTake(b, now, interval, burst)
  {
    QuotientIsGreatest(1, now - b.refill, interval);
  }

  lemma CreditOf(b: Bucket, now: int, interval: nat, burst: nat, whole: nat)
    requires interval > 0 && b.tokens <= burst && b.tokens + whole < WORD
    requires b.refill <= now && whole == (now - b.refill) / interval
    ensures Credit(b, now, interval, burst) == Bucket(Min(b.tokens + whole, burst), b.refill + whole * interval)
    ensures b.refill + whole * interval <= now < b.refill + whole * interval + interval
  {
    QuotientBounds(now - b.refill, interval);
    if now - b.refill < interval {
      ShortQuotient(now - b.refill, interval);
    } else {
      LongCredit(b, now, interval, burst, whole);
    }
  }

  lemma LongCredit(b: Bucket, now: int, interval: nat, burst: nat, whole: nat)
    requires interval > 0 && now - b.refill >= interval && whole == (now - b.refill) / interval
    requires b.tokens + whole < WORD
    ensures Credit(b, now, interval, burst) == Bucket(Min(b.tokens + whole, burst), b.refill + whole * interval)
  {
    assert whole % WORD == whole && (b.tokens + whole) % WORD == b.tokens + whole;
  }

  lemma ShortQuotient(x: nat, d: nat)
    requires x < d
    ensures x / d == 0
  {
  }

  lemma SettledCredit(b: Bucket, now: int, interval: nat, burst: nat)
    requires now < b.refill + interval
    ensures Credit(b, now, interval, burst) == b
  {
  }

  /** After a quiet time the bucket holds what it held and one token per whole interval, up to the
      burst. */
  lemma QuietFills(b: Bucket, now: int, interval: nat, burst: nat)
    requires interval > 0 && b.refill <= now && b.tokens <= burst
    requires b.tokens + (now - b.refill) / interval < WORD
    ensures Credit(b, now, interval, burst).tokens == Min(b.tokens + (now - b.refill) / interval, burst)
    ensures var full := Credit(b, now, interval, burst);
            full.refill <= now < full.refill + interval && Credit(full, now, interval, burst) == full
  {
    hide Credit;
    CreditOf(b, now, interval, burst, (now - b.refill) / interval);
    SettledCredit(Credit(b, now, interval, burst), now, interval, burst);
  }

  /** Whole intervals from one time to another, and how long they last. */
  function Whole(from: int, to: int, interval: nat): (n: nat)
    requires interval > 0 && from <= to
  {
    (to - from) / interval
  }

  function Span(n: nat, interval: nat): (ms: nat) { n * interval }

  lemma CreditSpans(b: Bucket, now: int, interval: nat, burst: nat)
    requires interval > 0 && b.refill <= now
    requires b.tokens + Whole(b.refill, now, interval) <= burst < WORD
    ensures var n := Whole(b.refill, now, interval);
            Credit(b, now, interval, burst) == Bucket(b.tokens + n, b.refill + Span(n, interval))
  {
    CreditOf(b, now, interval, burst, Whole(b.refill, now, interval));
  }

  lemma WholeSplits(from: int, mid: int, to: int, interval: nat)
    requires interval > 0 && from <= mid <= to
    ensures var n, m := Whole(from, mid, interval), Whole(from, to, interval);
            && n <= m && from + Span(n, interval) <= mid
            && Whole(from + Span(n, interval), to, interval) == m - n
            && Span(n, interval) + Span(m - n, interval) == Span(m, interval)
  {
    var n, m := Whole(from, mid, interval), Whole(from, to, interval);
    QuotientBounds(mid - from, interval);
    QuotientIsGreatest(n, to - from, interval);
    ShiftedQuotient(to - from, n, interval);
    Distribute(n, m - n, interval);
  }

  lemma ShiftedQuotient(x: int, k: int, d: nat)
    requires d > 0
    ensures (x - k * d) / d == x / d - k
  {
    QuotientBounds(x, d);
    QuotientBounds(x - k * d, d);
    var p, q := (x - k * d) / d, x / d - k;
    Distribute(q, k, d);
    if p < q { MulMonotone(p + 1, q, d); }
    if q < p { MulMonotone(q + 1, p, d); }
  }

  lemma Distribute(a: int, b: int, d: int)
    ensures (a + b) * d == a * d + b * d
  {
  }

  /** Nothing is lost by asking early: crediting at two times is crediting at the second, as long as
      the burst is not reached. */
  lemma CreditKeepsTheRest(b: Bucket, first: int, second: int, interval: nat, burst: nat)
    requires interval > 0 && b.refill <= first <= second
    requires b.tokens + (second - b.refill) / interval <= burst < WORD
    ensures Credit(Credit(b, first, interval, burst), second, interval, burst) == Credit(b, second, interval, burst)
  {
    assert Whole(b.refill, second, interval) == (second - b.refill) / interval;
    hide Credit, Whole, Span;
    WholeSplits(b.refill, first, second, interval);
    CreditSpans(b, first, interval, burst);
    CreditSpans(b, second, interval, burst);
    CreditSpans(Credit(b, first, interval, burst), second, interval, burst);
  }

  /** Tokens and intervals are counted in 32 bits: a silence earns no grant exactly when what was held
      and the whole intervals together are a multiple of 2^32. */
  lemma SilenceEarnsExactly(b: Bucket, now: int, interval: nat, burst: nat)
    requires interval > 0 && b.refill <= now && burst > 0 && b.tokens < WORD
    ensures MayTake(b, now, interval, burst) <==> (b.tokens + (now - b.refill) / interval) % WORD != 0
  {
    var whole := (now - b.refill) / interval;
    CreditedTokens(b, now, interval, burst, whole);
    hide Credit;
  }

  lemma CreditedTokens(b: Bucket, now: int, interval: nat, burst: nat, whole: nat)
    requires interval > 0 && b.refill <= now && whole == (now - b.refill) / interval && burst > 0 && b.tokens < WORD
    ensures Credit(b, now, interval, burst).tokens > 0 <==> (b.tokens + whole) % WORD != 0
  {
    if now - b.refill < interval {
      ShortQuotient(now - b.refill, interval);
    } else {
      SumWraps(b.tokens, whole);
      assert Credit(b, now, interval, burst).tokens == Min((b.tokens + whole % WORD) % WORD, burst);
    }
  }

  lemma SumWraps(x: nat, y: nat)
    ensures (x + y % WORD) % WORD == (x + y) % WORD
  {
  }

  /** The same instant, n times. */
  function Together(now: int, n: nat): (times: seq<int>)
    ensures |times| == n && forall i :: 0 <= i < n ==> times[i] == now
  {
    seq(n, _ => now)
  }

  lemma {:induction false} BurstIsGranted(b: Bucket, now: int, n: nat, interval: nat, burst: nat)
    requires interval > 0 && b.refill <= now && b.tokens <= burst
    requires b.tokens + (now - b.refill) / interval < WORD
    ensures var full := Credit(b, now, interval, burst);
            && Grants(b, Together(now, n), interval, burst) == Min(n, full.tokens)
            && (n > 0 ==> Run(b, Together(now, n), interval, burst) == full.(tokens := Max(0, full.tokens - n)))
  {
    hide Credit;
    var full := Credit(b, now, interval, burst);
    QuietFills(b, now, interval, burst);
    if n > 0 {
      var init := Together(now, n - 1);
      assert Together(now, n)[..n - 1] == init;
      BurstIsGranted(b, now, n - 1, interval, burst);
      if n > 1 {
        var before := Run(b, init, interval, burst);
        SettledCredit(before, now, interval, burst);
      }
    }
  }

  /** After a quiet time on an empty bucket, n requests at one instant get exactly as many grants as
      there were whole intervals, up to the burst and to n. */
  lemma QuietEarnsGrants(refill: int, now: int, n: nat, interval: nat, burst: nat)
    requires interval > 0 && refill <= now && (now - refill) / interval < WORD
    ensures Grants(Bucket(0, refill), Together(now, n), interval, burst) == Min(n, Min(burst, (now - refill) / interval))
  {
    BurstIsGranted(Bucket(0, refill), now, n, interval, burst);
    QuietFills(Bucket(0, refill), now, interval, burst);
  }
}
