/** Rate-corrected time: turning an anchor into an epoch, and measuring the oscillator's
    rate from two syncs, in the firmware's truncating 64-bit integer arithmetic. */
module ClockRate {
  import opened Arithmetic
  import opened Bytes

  const BILLION := 1_000_000_000
  const TWO63 := 0x8000_0000_0000_0000
  const TWO64 := 0x1_0000_0000_0000_0000

  /** Division as C does it: truncating toward zero. */
  function TruncDiv(a: int, b: int): (q: int)
    requires b > 0
  {
    if a >= 0 then a / b else -((-a) / b)
  }

  /** Two's-complement wrap of a 64-bit product. */
  function Wrap64(x: int): (r: i64) {
    var m := x % TWO64;
    if m < TWO63 then m else m - TWO64
  }

  datatype Anchor = Anchor(epoch: int, uptime: int, ppb: int)

  /** The one place an anchor is turned into a time. */
  function EpochAt(a: Anchor, uptime: int): (t: int) {
    var elapsed := uptime - a.uptime;
    a.epoch + elapsed + TruncDiv(elapsed * a.ppb, BILLION)
  }

  // ----- time never runs backwards ------------------------------------------------------------

  /** The correction's size `n` ms from the anchor, for a rate of size `p`. */
  function Size(n: nat, p: nat): nat { n * p / BILLION }

  lemma CorrectionIsOdd(n: int, p: int)
    ensures TruncDiv(n * p, BILLION) == (if (n < 0) == (p < 0) then 1 else -1) * Size(Max(n, -n), Max(p, -p))
  {
    var an, ap := Max(n, -n), Max(p, -p);
    if (n < 0) == (p < 0) {
      assert n * p == an * ap;
    } else {
      assert n * p == -(an * ap);
    }
  }

  /** Over k ms the correction never shrinks, and at a rate of at most one it grows by at
      most k. */
  lemma SizeGrows(n: nat, k: nat, p: nat)
    ensures Size(n, p) <= Size(n + k, p)
    ensures p <= BILLION ==> Size(n + k, p) <= Size(n, p) + k
  {
    assert (n + k) * p == n * p + k * p;
    QuotientBounds(n * p, BILLION);
    QuotientBounds((n + k) * p, BILLION);
    assert k * p >= 0;
    QuotientIsGreatest(Size(n, p), (n + k) * p, BILLION);
    if p <= BILLION {
      MulMonotone(p, BILLION, k);
      assert k * p <= k * BILLION by { assert p * k == k * p && BILLION * k == k * BILLION; }
    }
  }

  lemma NoStepBack(a: Anchor, u: int, v: int)
    requires u <= v && a.ppb >= -BILLION
    ensures EpochAt(a, u) <= EpochAt(a, v)
  {
    var m, n, p := u - a.uptime, v - a.uptime, Max(a.ppb, -a.ppb);
    CorrectionIsOdd(m, a.ppb);
    CorrectionIsOdd(n, a.ppb);
    if m >= 0 {
      SizeGrows(m, n - m, p);
    } else if n < 0 {
      SizeGrows(-n, n - m, p);
    } else {
      SizeGrows(0, n, p);
      SizeGrows(0, -m, p);
    }
  }

  ghost predicate NeverBackwards(a: Anchor) {
    forall u: int, v: int :: u <= v ==> EpochAt(a, u) <= EpochAt(a, v)
  }

  /** For a fixed anchor reported time is nondecreasing in uptime, on both sides of the anchor,
      exactly when the correction does not cancel the whole rate. */
  lemma TimeIsMonotone(a: Anchor)
    ensures NeverBackwards(a) <==> a.ppb >= -BILLION
  {
    if a.ppb >= -BILLION {
      forall u: int, v: int | u <= v ensures EpochAt(a, u) <= EpochAt(a, v) { NoStepBack(a, u, v); }
    } else {
      assert EpochAt(a, a.uptime) == a.epoch;
      assert TruncDiv(BILLION * a.ppb, BILLION) == a.ppb by {
        assert -(BILLION * a.ppb) == (-a.ppb) * BILLION;
        ExactQuotient(-a.ppb, BILLION);
      }
      assert EpochAt(a, a.uptime + BILLION) < EpochAt(a, a.uptime);
    }
  }

  lemma ExactQuotient(k: nat, n: nat)
    requires n > 0
    ensures k * n / n == k
  {
    QuotientBounds(k * n, n);
    QuotientIsGreatest(k, k * n, n);
    assert (k + 1) * n == k * n + n;
    if k * n / n > k { MulMonotone(k + 1, k * n / n, n); }
  }

  // ----- measuring the rate --------------------------------------------------------------------

  /** The rate as the firmware computes it, both steps in 64 bits. */
  function RawRate(ref: i64, local: i64): int
    requires local > 0
  {
    TruncDiv(Wrap64(Wrap64(ref - local) * BILLION), local)
  }

  /** skew_estimate: the rate over a window of `local` ms against `ref` ms of real time. */
  function SkewEstimate(ref: i64, local: i64, minWindow: nat, maxPpb: nat): (r: Option<int>)
    requires minWindow > 0
  {
    if local < minWindow || RawRate(ref, local) > maxPpb || RawRate(ref, local) + maxPpb < 0 then None
    else Some(RawRate(ref, local))
  }

  /** The rate as it would be without overflow. */
  function TrueRate(ref: int, local: int): int
    requires local > 0
  {
    TruncDiv((ref - local) * BILLION, local)
  }

  predicate InI64(x: int) { -TWO63 <= x < TWO63 }

  lemma WrapIdentity(x: int)
    ensures InI64(x) <==> Wrap64(x) == x
  {
  }

  lemma WrapDistance(x: int)
    requires !InI64(x)
    ensures Wrap64(x) <= x - TWO64 || Wrap64(x) >= x + TWO64
  {
    var k := x / TWO64;
    assert x == k * TWO64 + x % TWO64;
  }

  /** Truncated quotients at least two divisors apart differ. */
  lemma FarApartQuotientsDiffer(x: int, y: int, d: nat)
    requires d > 0 && y >= x + 2 * d
    ensures TruncDiv(x, d) < TruncDiv(y, d)
  {
    TruncBounds(x, d);
    TruncBounds(y, d);
    if TruncDiv(x, d) >= TruncDiv(y, d) { MulMonotone(TruncDiv(y, d), TruncDiv(x, d), d); }
  }

  lemma TruncBounds(x: int, d: nat)
    requires d > 0
    ensures x - d < TruncDiv(x, d) * d < x + d
    ensures x >= 0 ==> 0 <= TruncDiv(x, d) * d <= x
    ensures x <= 0 ==> x <= TruncDiv(x, d) * d <= 0
  {
    hide TruncDiv;
    if x >= 0 { TruncUp(x, d); }
    if x <= 0 { TruncDown(x, d); }
  }

  lemma TruncUp(x: int, d: nat)
    requires d > 0 && x >= 0
    ensures 0 <= TruncDiv(x, d) * d <= x < TruncDiv(x, d) * d + d
  {
    QuotientBounds(x, d);
    MulMonotone(0, x / d, d);
  }

  lemma TruncDown(x: int, d: nat)
    requires d > 0 && x <= 0
    ensures TruncDiv(x, d) * d - d < x <= TruncDiv(x, d) * d <= 0
  {
    var q := (-x) / d;
    QuotientBounds(-x, d);
    MulMonotone(0, q, d);
    assert TruncDiv(x, d) == -q;
    NegatedProduct(q, d);
  }

  lemma NegatedProduct(q: int, d: int)
    ensures (-q) * d == -(q * d)
  {
  }

  /** Wrapping the difference first changes nothing: the scaled product wraps the same. */
  lemma WrapScaled(d: int)
    ensures Wrap64(Wrap64(d) * BILLION) == Wrap64(d * BILLION)
  {
    var k := (d - Wrap64(d)) / TWO64;
    assert d == Wrap64(d) + k * TWO64;
    assert d * BILLION == Wrap64(d) * BILLION + (k * BILLION) * TWO64;
    WrapPeriodic(Wrap64(d) * BILLION, k * BILLION);
  }

  lemma WrapPeriodic(x: int, k: int)
    ensures Wrap64(x + k * TWO64) == Wrap64(x)
  {
    assert (x + k * TWO64) % TWO64 == x % TWO64;
  }

  /** The sanity bound judges the true rate exactly when the scaled difference fits 64 bits. */
  lemma EstimateIsTrueExactly(ref: i64, local: i64)
    requires local > 0
    ensures RawRate(ref, local) == TrueRate(ref, local) <==> InI64((ref - local) * BILLION)
  {
    WrapScaled(ref - local);
    var x := (ref - local) * BILLION;
    WrapIdentity(x);
    if !InI64(x) {
      WrapDistance(x);
      if Wrap64(x) <= x - TWO64 {
        FarApartQuotientsDiffer(Wrap64(x), x, local);
      } else {
        FarApartQuotientsDiffer(x, Wrap64(x), local);
      }
    }
  }

  /** Where the product fits, a rate is accepted exactly when the window is long enough and the true
      rate within the bound. */
  lemma AcceptedExactly(ref: i64, local: i64, minWindow: nat, maxPpb: nat)
    requires minWindow > 0 && InI64((ref - local) * BILLION)
    ensures SkewEstimate(ref, local, minWindow, maxPpb)
            == if local >= minWindow && -(maxPpb as int) <= TrueRate(ref, local) <= maxPpb
               then Some(TrueRate(ref, local)) else None
  {
    if local > 0 { EstimateIsTrueExactly(ref, local); }
  }

  /** "Beyond the sanity bound this is not a rate, it is a bad pair of syncs" can fail: a source
      that jumps 18446744074 ms (about 213 days) over a one-hour window is accepted as 80 ppb. */
  lemma BadSyncPairIsAccepted()
    ensures SkewEstimate(18_446_744_074 + 3_600_000, 3_600_000, 3_600_000, 100_000) == Some(80)
    ensures TrueRate(18_446_744_074 + 3_600_000, 3_600_000) > 100_000
  {
    assert Wrap64(18_446_744_074) == 18_446_744_074;
    assert Wrap64(18_446_744_074 * BILLION) == 290_448_384;
    FarApartQuotientsDiffer(100_000 * 3_600_000, 18_446_744_074 * BILLION, 3_600_000);
    ExactQuotient(100_000, 3_600_000);
  }

  /** Applied over its own window, a fresh estimate reproduces the reference interval: it never
      over-corrects, and falls short by less than 1 ms plus a billionth of the window. */
  lemma EstimateReproducesReference(ref: i64, local: i64, minWindow: nat, maxPpb: nat, epoch: int, uptime: int)
    requires minWindow > 0 && InI64((ref - local) * BILLION)
    requires SkewEstimate(ref, local, minWindow, maxPpb).Some?
    ensures var a := Anchor(epoch, uptime, SkewEstimate(ref, local, minWindow, maxPpb).value);
            var short := ref - (EpochAt(a, uptime + local) - epoch);
            && (ref >= local ==> 0 <= short <= ref - local)
            && (ref <= local ==> ref - local <= short <= 0)
            && Max(short, -short) * BILLION < BILLION + local
  {
    WrapIdentity(ref - local);
    WrapIdentity((ref - local) * BILLION);
    var diff, ppb := ref - local, TrueRate(ref, local);
    TruncBounds(diff * BILLION, local);
    TruncBounds(local * ppb, BILLION);
    var c := TruncDiv(local * ppb, BILLION);
    assert ppb * local == local * ppb;
    SignOf(diff, ppb, local);
    if diff >= 0 {
      assert c * BILLION <= diff * BILLION && c >= 0;
    } else {
      assert c * BILLION >= diff * BILLION && c <= 0;
    }
  }

  lemma SignOf(diff: int, ppb: int, local: nat)
    requires local > 0 && ppb == TruncDiv(diff * BILLION, local)
    ensures diff >= 0 ==> ppb >= 0 && local * ppb >= 0
    ensures diff <= 0 ==> ppb <= 0 && local * ppb <= 0
  {
  }
}
