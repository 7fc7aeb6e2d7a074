/** Channel and transmit airtime accounting: bucket rings that decay lazily, on access. */
module Airtime {
  import opened Arithmetic
  import opened Bytes

  const PERIODS := 6
  const MINUTES := 60
  const SLOTS := 15

  datatype Kind = Tx | Rx | RxAll | Other

  /** One call of the logger, as it happened. */
  datatype Entry = Entry(sec: u32, kind: Kind, slot: nat, ms: u32)

  /** What one ring is owed: some milliseconds at a tick of that ring. */
  datatype Mark = Mark(tick: nat, ms: nat)

  function ChannelMarks(log: seq<Entry>, slot: nat): (marks: seq<Mark>) {
    if |log| == 0 then [] else
      var e := log[|log| - 1];
      ChannelMarks(log[..|log| - 1], slot)
      + if e.kind != Other && e.slot == slot then [Mark(e.sec / 10, e.ms)] else []
  }

  function TxMarks(log: seq<Entry>): (marks: seq<Mark>) {
    if |log| == 0 then [] else
      var e := log[|log| - 1];
      TxMarks(log[..|log| - 1]) + if e.kind == Tx then [Mark(e.sec / 60, e.ms)] else []
  }

  // ----- the true sliding window -------------------------------------------------------------------

  predicate Live(m: Mark, now: nat, n: nat) { now < m.tick + n && m.tick <= now }

  /** The milliseconds marked in the last n ticks up to and including now. */
  function Window(marks: seq<Mark>, now: nat, n: nat): (ms: nat) {
    if |marks| == 0 then 0 else
      var m := marks[|marks| - 1];
      Window(marks[..|marks| - 1], now, n) + if Live(m, now, n) then m.ms else 0
  }

  /** The part of the window that falls into one bucket. */
  function InBucket(marks: seq<Mark>, now: nat, n: nat, b: nat): (ms: nat)
    requires n > 0
  {
    if |marks| == 0 then 0 else
      var m := marks[|marks| - 1];
      InBucket(marks[..|marks| - 1], now, n, b) + if Live(m, now, n) && m.tick % n == b then m.ms else 0
  }

  ghost predicate NotAfter(marks: seq<Mark>, now: nat) { forall m :: m in marks ==> m.tick <= now }

  lemma {:induction false} WindowAdds(a: seq<Mark>, b: seq<Mark>, now: nat, n: nat)
    ensures Window(a + b, now, n) == Window(a, now, n) + Window(b, now, n)
  {
    if |b| == 0 {
      assert a + b == a;
    } else {
      WindowAdds(a, b[..|b| - 1], now, n);
      assert (a + b)[..|a + b| - 1] == a + b[..|b| - 1];
    }
  }

  lemma {:induction false} ChannelMarksAdd(a: seq<Entry>, b: seq<Entry>, slot: nat)
    ensures ChannelMarks(a + b, slot) == ChannelMarks(a, slot) + ChannelMarks(b, slot)
  {
    if |b| == 0 {
      assert a + b == a;
    } else {
      var init := b[..|b| - 1];
      ChannelMarksAdd(a, init, slot);
      assert (a + b)[..|a + b| - 1] == a + init;
      assert ChannelMarks(b, slot)[..|ChannelMarks(init, slot)|] == ChannelMarks(init, slot);
    }
  }

  lemma {:induction false} TxMarksAdd(a: seq<Entry>, b: seq<Entry>)
    ensures TxMarks(a + b) == TxMarks(a) + TxMarks(b)
  {
    if |b| == 0 {
      assert a + b == a;
    } else {
      var init := b[..|b| - 1];
      TxMarksAdd(a, init);
      assert (a + b)[..|a + b| - 1] == a + init;
      assert TxMarks(b)[..|TxMarks(init)|] == TxMarks(init);
    }
  }

  /** Two stretches of the log count for what each of them counts. */
  lemma LogsAdd(a: seq<Entry>, b: seq<Entry>, slot: nat, now: nat, n: nat)
    ensures Window(ChannelMarks(a + b, slot), now, n)
            == Window(ChannelMarks(a, slot), now, n) + Window(ChannelMarks(b, slot), now, n)
    ensures Window(TxMarks(a + b), now, n) == Window(TxMarks(a), now, n) + Window(TxMarks(b), now, n)
  {
    hide Window, ChannelMarks, TxMarks;
    ChannelMarksAdd(a, b, slot);
    TxMarksAdd(a, b);
    WindowAdds(ChannelMarks(a, slot), ChannelMarks(b, slot), now, n);
    WindowAdds(TxMarks(a), TxMarks(b), now, n);
  }

  /** What one frame counts for: on its own preset's channel, sent or received, from its ten-second
      tick for six of them; as sent, on any preset, from its minute for sixty. */
  lemma OneFrameCounts(e: Entry, slot: nat, sec: nat)
    ensures Window(ChannelMarks([e], slot), sec / 10, PERIODS)
            == if e.kind in {Tx, Rx, RxAll} && e.slot == slot && 0 <= sec / 10 - e.sec / 10 < 6 then e.ms else 0
    ensures Window(TxMarks([e]), sec / 60, MINUTES)
            == if e.kind == Tx && 0 <= sec / 60 - e.sec / 60 < 60 then e.ms else 0
  {
    var log := [e];
    assert log[..|log| - 1] == [];
    assert ChannelMarks([], slot) == [] && TxMarks([]) == [];
    OneMark(Mark(e.sec / 10, e.ms), sec / 10, PERIODS);
    OneMark(Mark(e.sec / 60, e.ms), sec / 60, MINUTES);
    hide Window;
  }

  lemma OneMark(m: Mark, now: nat, n: nat)
    ensures Window([m], now, n) == (if m.tick <= now < m.tick + n then m.ms else 0) && Window([], now, n) == 0
  {
    var marks := [m];
    assert marks[..|marks| - 1] == [];
  }

  // ----- rings ---------------------------------------------------------------------------------------

  function Sum(s: seq<nat>): (t: nat) {
    if |s| == 0 then 0 else Sum(s[..|s| - 1]) + s[|s| - 1]
  }

  lemma {:induction false} SumUpdate(s: seq<nat>, i: nat, v: nat)
    requires i < |s|
    ensures Sum(s[i := v]) == Sum(s) - s[i] + v
  {
    var n := |s| - 1;
    if i == n {
      assert s[i := v][..n] == s[..n];
    } else {
      assert s[i := v][..n] == s[..n][i := v];
      SumUpdate(s[..n], i, v);
    }
  }

  function Zeros(n: nat): (s: seq<u32>)
    ensures |s| == n && forall i :: 0 <= i < n ==> s[i] == 0
  {
    seq(n, i => 0)
  }

  lemma {:induction false} SumOfZeros(s: seq<nat>)
    requires forall i :: 0 <= i < |s| ==> s[i] == 0
    ensures Sum(s) == 0
  {
    if |s| > 0 { SumOfZeros(s[..|s| - 1]); }
  }

  /** Clearing the next k buckets after the current one. */
  function ClearNext(ring: seq<u32>, last: nat, k: nat): (cleared: seq<u32>)
    requires |ring| > 0
    ensures |cleared| == |ring|
  {
    if k == 0 then ring else ClearNext(ring, last, k - 1)[(last + k) % |ring| := 0]
  }

  /** A ring last accessed at one tick, brought forward to another. */
  function Advanced(ring: seq<u32>, last: nat, now: nat): (advanced: seq<u32>)
    requires |ring| > 0 && last <= now
    ensures |advanced| == |ring|
  {
    if now - last >= |ring| then Zeros(|ring|) else ClearNext(ring, last, now - last)
  }

  /** Every bucket holds its part of the true window, as an unsigned 32-bit count. */
  ghost predicate Reflects(ring: seq<u32>, now: nat, marks: seq<Mark>) {
    |ring| > 0 && forall b :: 0 <= b < |ring| ==> ring[b] == InBucket(marks, now, |ring|, b) % WORD
  }

  /** Residues modulo n repeat with period n and not sooner. */
  lemma ResiduesRepeat(x: nat, y: nat, n: nat)
    requires n > 0 && y < x <= y + n
    ensures x % n == y % n <==> x == y + n
  {
    var k := x / n - y / n;
    QuotientBounds(x, n);
    QuotientBounds(y, n);
    assert x - y == k * n + (x % n - y % n) by {
      assert x == n * (x / n) + x % n && y == n * (y / n) + y % n;
      assert k * n == (x / n) * n - (y / n) * n;
    }
    if k <= 0 { MulMonotone(k, 0, n); }
    if k >= 2 { MulMonotone(2, k, n); }
  }

  lemma {:induction false} NextBucket(marks: seq<Mark>, now: nat, n: nat, b: nat)
    requires n > 0 && b < n && NotAfter(marks, now)
    ensures InBucket(marks, now + 1, n, b) == if b == (now + 1) % n then 0 else InBucket(marks, now, n, b)
  {
    if |marks| > 0 {
      var m := marks[|marks| - 1];
      NextBucket(marks[..|marks| - 1], now, n, b);
      if Live(m, now, n) || Live(m, now + 1, n) { ResiduesRepeat(now + 1, m.tick, n); }
    }
  }

  lemma {:induction false} ClearNextReflects(ring: seq<u32>, last: nat, marks: seq<Mark>, k: nat)
    requires Reflects(ring, last, marks) && NotAfter(marks, last)
    ensures Reflects(ClearNext(ring, last, k), last + k, marks)
  {
    if k > 0 {
      ClearNextReflects(ring, last, marks, k - 1);
      forall b | 0 <= b < |ring|
        ensures ClearNext(ring, last, k)[b] == InBucket(marks, last + k, |ring|, b) % WORD
      {
        NextBucket(marks, last + k - 1, |ring|, b);
      }
    }
  }

  lemma {:induction false} LongSilence(marks: seq<Mark>, last: nat, now: nat, n: nat, b: nat)
    requires n > 0 && NotAfter(marks, last) && last + n <= now
    ensures InBucket(marks, now, n, b) == 0
  {
    if |marks| > 0 { LongSilence(marks[..|marks| - 1], last, now, n, b); }
  }

  /** Decaying on access is decaying all along, whatever the gap. */
  lemma AdvancedReflects(ring: seq<u32>, last: nat, now: nat, marks: seq<Mark>)
    requires Reflects(ring, last, marks) && NotAfter(marks, last) && last <= now
    ensures Reflects(Advanced(ring, last, now), now, marks)
  {
    if now - last >= |ring| {
      forall b | 0 <= b < |ring| ensures Zeros(|ring|)[b] == InBucket(marks, now, |ring|, b) % WORD {
        LongSilence(marks, last, now, |ring|, b);
      }
    } else {
      ClearNextReflects(ring, last, marks, now - last);
    }
  }

  lemma WrapAdd(a: nat, b: nat)
    ensures (a % WORD + b) % WORD == (a + b) % WORD
  {
  }

  /** Adding to the current bucket. */
  lemma AddReflects(ring: seq<u32>, now: nat, marks: seq<Mark>, ms: u32)
    requires Reflects(ring, now, marks)
    ensures Reflects(ring[now % |ring| := (ring[now % |ring|] + ms) % WORD], now, marks + [Mark(now, ms)])
  {
    var grown := marks + [Mark(now, ms)];
    assert grown[..|marks|] == marks;
    forall b | 0 <= b < |ring|
      ensures ring[now % |ring| := (ring[now % |ring|] + ms) % WORD][b] == InBucket(grown, now, |ring|, b) % WORD
    {
      WrapAdd(InBucket(marks, now, |ring|, b), ms);
    }
  }

  // ----- the ring sum is the window --------------------------------------------------------------------

  function Buckets(marks: seq<Mark>, now: nat, n: nat): (s: seq<nat>)
    requires n > 0
    ensures |s| == n && forall b :: 0 <= b < n ==> s[b] == InBucket(marks, now, n, b)
  {
    seq(n, b requires 0 <= b < n => InBucket(marks, now, n, b))
  }

  lemma {:induction false} BucketsPartitionTheWindow(marks: seq<Mark>, now: nat, n: nat)
    requires n > 0
    ensures Sum(Buckets(marks, now, n)) == Window(marks, now, n)
  {
    if |marks| == 0 {
      SumOfZeros(Buckets(marks, now, n));
    } else {
      var m, before := marks[|marks| - 1], Buckets(marks[..|marks| - 1], now, n);
      BucketsPartitionTheWindow(marks[..|marks| - 1], now, n);
      if Live(m, now, n) {
        var b := m.tick % n;
        SumUpdate(before, b, before[b] + m.ms);
        assert Buckets(marks, now, n) == before[b := before[b] + m.ms];
      } else {
        assert Buckets(marks, now, n) == before;
      }
    }
  }

  lemma {:induction false} SumModulo(s: seq<nat>, t: seq<nat>)
    requires |s| == |t| && forall i :: 0 <= i < |s| ==> s[i] == t[i] % WORD
    ensures Sum(s) % WORD == Sum(t) % WORD
  {
    if |s| > 0 {
      var n := |s| - 1;
      SumModulo(s[..n], t[..n]);
      WrapAdd(Sum(s[..n]), t[n] % WORD);
      WrapAdd(Sum(t[..n]), t[n] % WORD);
      WrapAdd(t[n], Sum(t[..n]));
    }
  }

  /** A ring that reflects its marks sums to the true window, as an unsigned 32-bit count. */
  lemma RingSumIsTheWindow(ring: seq<u32>, now: nat, marks: seq<Mark>)
    requires Reflects(ring, now, marks)
    ensures Sum(ring) % WORD == Window(marks, now, |ring|) % WORD
  {
    BucketsPartitionTheWindow(marks, now, |ring|);
    SumModulo(ring, Buckets(marks, now, |ring|));
  }

  /** ... and exactly, if the window is below 2^32 ms. */
  lemma SmallWindowIsExact(ring: seq<u32>, now: nat, marks: seq<Mark>)
    requires Reflects(ring, now, marks) && Window(marks, now, |ring|) < WORD
    ensures Sum(ring) == Window(marks, now, |ring|)
  {
    hide InBucket, Sum, Window;
    var buckets := Buckets(marks, now, |ring|);
    BucketsPartitionTheWindow(marks, now, |ring|);
    SumBounds(buckets);
    assert forall b :: 0 <= b < |ring| ==> ring[b] == buckets[b];
    assert ring == buckets;
  }

  lemma {:induction false} SumBounds(s: seq<nat>)
    ensures forall i :: 0 <= i < |s| ==> s[i] <= Sum(s)
  {
    if |s| > 0 {
      SumBounds(s[..|s| - 1]);
      assert forall i :: 0 <= i < |s| - 1 ==> s[..|s| - 1][i] == s[i];
    }
  }

  lemma {:induction false} WindowShrinks(marks: seq<Mark>, now: nat, k: nat, n: nat)
    requires NotAfter(marks, now)
    ensures Window(marks, now + k, n) <= Window(marks, now, n)
  {
    if |marks| > 0 { WindowShrinks(marks[..|marks| - 1], now, k, n); }
  }

  // ----- the forecast ------------------------------------------------------------------------------------

  /** Airtime of one hour as a percentage of that hour. */
  function Percent(ms: nat): (p: real) { ms as real / 36000.0 }

  /** A whole hour is a hundred percent, and shares add. */
  lemma PercentOfAnHour(a: nat, b: nat)
    ensures Percent(60 * 60 * 1000) == 100.0 && Percent(a + b) == Percent(a) + Percent(b)
  {
  }

  /** The walk from the oldest bucket on, with a given share still to lose. */
  function Forecast(ring: seq<u32>, last: nat, remaining: real, ceiling: real, age: nat): (minutes: nat)
    requires |ring| > 0 && age <= |ring|
    decreases |ring| - age
  {
    if age == |ring| then |ring| else
      var rest := remaining - Percent(ring[(last + 1 + age) % |ring|]);
      if rest <= ceiling then age + 1 else Forecast(ring, last, rest, ceiling, age + 1)
  }

  function SilentWait(ring: seq<u32>, last: nat, percent: real, ceiling: real): (minutes: nat)
    requires |ring| > 0
  {
    if percent <= ceiling then 0 else Forecast(ring, last, percent, ceiling, 0)
  }

  /** What is left of a ring after k ticks of silence. */
  function Left(ring: seq<u32>, last: nat, k: nat): (ms: nat)
    requires |ring| > 0
  {
    Sum(Advanced(ring, last, last + k))
  }

  /** The first number of ticks of silence after which the ring is at or under the ceiling. */
  ghost predicate IsLeastWait(ring: seq<u32>, last: nat, ceiling: real, wait: nat)
    requires |ring| > 0
  {
    && Percent(Left(ring, last, wait)) <= ceiling
    && forall k | 0 <= k < wait :: Percent(Left(ring, last, k)) > ceiling
  }

  lemma {:induction false} UntouchedBucket(ring: seq<u32>, last: nat, k: nat, j: nat)
    requires k < j <= |ring|
    ensures ClearNext(ring, last, k)[(last + j) % |ring|] == ring[(last + j) % |ring|]
  {
    if k > 0 {
      UntouchedBucket(ring, last, k - 1, j);
      ResiduesRepeat(last + j, last + k, |ring|);
    }
  }

  /** One more minute of silence loses exactly the bucket that is oldest now. */
  lemma NextLoss(ring: seq<u32>, last: nat, k: nat)
    requires k < |ring|
    ensures Sum(ClearNext(ring, last, k + 1))
            == Sum(ClearNext(ring, last, k)) - ring[(last + 1 + k) % |ring|]
  {
    UntouchedBucket(ring, last, k, k + 1);
    SumUpdate(ClearNext(ring, last, k), (last + (k + 1)) % |ring|, 0);
  }

  lemma {:induction false} ClearedBucket(ring: seq<u32>, last: nat, k: nat, i: nat)
    requires |ring| > 0 && 1 <= i <= k
    ensures ClearNext(ring, last, k)[(last + i) % |ring|] == 0
  {
    if i < k { ClearedBucket(ring, last, k - 1, i); }
  }

  /** A whole turn clears everything. */
  lemma FullTurn(ring: seq<u32>, last: nat)
    requires |ring| > 0
    ensures ClearNext(ring, last, |ring|) == Zeros(|ring|)
  {
    forall b | 0 <= b < |ring| ensures ClearNext(ring, last, |ring|)[b] == 0 {
      var n, now := |ring|, last % |ring|;
      var i := if b > now then b - now else b + n - now;
      ResidueStep(last, b, n);
      ClearedBucket(ring, last, n, i);
    }
  }

  lemma ResidueStep(last: nat, b: nat, n: nat)
    requires b < n
    ensures (last + if b > last % n then b - last % n else b + n - last % n) % n == b
  {
    var q := last / n;
    assert last == n * q + last % n;
    if b > last % n {
      QuotientRemainder(last + (b - last % n), n, q, b);
    } else {
      assert n * (q + 1) == n * q + n;
      QuotientRemainder(last + (b + n - last % n), n, q + 1, b);
    }
  }

  lemma QuotientRemainder(x: nat, n: nat, q: nat, r: nat)
    requires r < n && x == n * q + r
    ensures x % n == r
  {
    var k := q - x / n;
    assert x % n - r == k * n by {
      assert x == n * (x / n) + x % n;
      assert k * n == q * n - (x / n) * n;
    }
    if k >= 1 { MulMonotone(1, k, n); }
    if k < 0 { MulMonotone(k, -1, n); }
  }

  /** Advancing by up to a whole turn of silence is clearing that many buckets. */
  lemma LeftIsCleared(ring: seq<u32>, last: nat, k: nat)
    requires |ring| > 0 && k <= |ring|
    ensures Left(ring, last, k) == Sum(ClearNext(ring, last, k))
  {
    if k == |ring| { FullTurn(ring, last); }
  }

  lemma {:induction false} ForecastIsLeast(ring: seq<u32>, last: nat, ceiling: real, age: nat)
    requires |ring| > 0 && age <= |ring| && ceiling >= 0.0
    requires forall k | 0 <= k <= age :: Percent(Left(ring, last, k)) > ceiling
    ensures IsLeastWait(ring, last, ceiling,
                        Forecast(ring, last, Percent(Left(ring, last, age)), ceiling, age))
    decreases |ring| - age
  {
    hide Left;
    LeftIsCleared(ring, last, age);
    if age == |ring| {
      NothingIsLeft(ring, last);
    } else {
      NextLoss(ring, last, age);
      LeftIsCleared(ring, last, age + 1);
      if Percent(Left(ring, last, age + 1)) > ceiling { ForecastIsLeast(ring, last, ceiling, age + 1); }
    }
  }

  lemma NothingIsLeft(ring: seq<u32>, last: nat)
    requires |ring| > 0
    ensures Left(ring, last, |ring|) == 0
  {
    SumOfZeros(Zeros(|ring|));
  }

  /** Given the current utilisation, the answer is the exact least wait. */
  lemma SilentMinutesIsLeastWait(ring: seq<u32>, last: nat, ceiling: real)
    requires |ring| > 0 && ceiling >= 0.0
    ensures IsLeastWait(ring, last, ceiling, SilentWait(ring, last, Percent(Sum(ring)), ceiling))
  {
    hide Forecast;
    LeftIsCleared(ring, last, 0);
    if Percent(Sum(ring)) > ceiling { ForecastIsLeast(ring, last, ceiling, 0); }
  }

  lemma LeftIsTheWindow(ring: seq<u32>, last: nat, marks: seq<Mark>, k: nat)
    requires Reflects(ring, last, marks) && NotAfter(marks, last) && Window(marks, last, |ring|) < WORD
    ensures Left(ring, last, k) == Window(marks, last + k, |ring|)
  {
    hide Reflects, Window, Advanced;
    AdvancedReflects(ring, last, last + k, marks);
    WindowShrinks(marks, last, k, |ring|);
    SmallWindowIsExact(Advanced(ring, last, last + k), last + k, marks);
  }

  /** The least wait in terms of the true window, with nothing more sent. */
  ghost predicate IsLeastQuiet(marks: seq<Mark>, now: nat, n: nat, ceiling: real, wait: nat) {
    && Percent(Window(marks, now + wait, n)) <= ceiling
    && forall t | now <= t < now + wait :: Percent(Window(marks, t, n)) > ceiling
  }

  /** The forecast from the ring is the forecast from the log. */
  lemma ForecastHolds(ring: seq<u32>, last: nat, marks: seq<Mark>, ceiling: real)
    requires Reflects(ring, last, marks) && NotAfter(marks, last) && Window(marks, last, |ring|) < WORD
    requires ceiling >= 0.0
    ensures IsLeastQuiet(marks, last, |ring|, ceiling,
                         SilentWait(ring, last, Percent(Window(marks, last, |ring|)), ceiling))
  {
    hide Left, Window, Forecast, Percent;
    SmallWindowIsExact(ring, last, marks);
    SilentMinutesIsLeastWait(ring, last, ceiling);
    var wait := SilentWait(ring, last, Percent(Window(marks, last, |ring|)), ceiling);
    LeftIsTheWindow(ring, last, marks, wait);
    forall t | last <= t < last + wait ensures Percent(Window(marks, t, |ring|)) > ceiling {
      LeftIsTheWindow(ring, last, marks, t - last);
    }
  }

  // ----- the accounting state ----------------------------------------------------------------------------

  /** A custom modem, or a preset this build does not know, accounts to the last slot. */
  function SlotOf(usePreset: bool, preset: nat): (slot: nat)
    ensures slot < SLOTS
  {
    if !usePreset || preset >= SLOTS - 1 then SLOTS - 1 else preset
  }

  /** Known presets have a slot each, and everything else has one that is none of theirs. */
  lemma SlotsAreSeparate(a: nat, b: nat)
    ensures a < SLOTS - 1 && b < SLOTS - 1 ==> (SlotOf(true, a) == SlotOf(true, b) <==> a == b)
    ensures a < SLOTS - 1 ==> SlotOf(true, a) != SlotOf(false, b)
    ensures a < SLOTS - 1 <= b ==> SlotOf(true, a) != SlotOf(true, b)
    ensures b >= SLOTS - 1 ==> SlotOf(true, b) == SlotOf(false, a)
  {
  }

  class Meter {
    const channel: array<seq<u32>>
    const tx: array<u32>
    var lastUtil: nat
    var lastTx: nat
    var initialized: bool
    ghost var log: seq<Entry>

    ghost predicate Shape()
      reads channel, tx
    {
      channel.Length == SLOTS && tx.Length == MINUTES && forall sl | 0 <= sl < SLOTS :: |channel[sl]| == PERIODS
    }

    /** Every ring reflects the log of all calls ever made. */
    ghost predicate Valid()
      reads this, channel, tx
    {
      && Shape()
      && (!initialized ==> log == [])
      && (forall sl | 0 <= sl < SLOTS ::
            Reflects(channel[sl], lastUtil, ChannelMarks(log, sl)) && NotAfter(ChannelMarks(log, sl), lastUtil))
      && Reflects(tx[..], lastTx, TxMarks(log))
      && NotAfter(TxMarks(log), lastTx)
    }

    /** Uptime never runs backwards. */
    ghost predicate NotBefore(sec: u32)
      reads this
    {
      initialized ==> lastUtil <= sec / 10 && lastTx <= sec / 60
    }

    constructor ()
      ensures Valid() && !initialized && log == [] && fresh(channel) && fresh(tx)
    {
      channel := new seq<u32>[SLOTS](i => Zeros(PERIODS));
      tx := new u32[MINUTES](i => 0);
      lastUtil, lastTx, initialized, log := 0, 0, false, [];
    }

    method ClearChannels(elapsed: nat)
      requires Shape()
      modifies channel
      ensures Shape()
      ensures forall sl | 0 <= sl < SLOTS ::
                channel[sl] == Advanced(old(channel[sl]), lastUtil, lastUtil + elapsed)
    {
      if elapsed >= PERIODS {
        forall sl | 0 <= sl < SLOTS { channel[sl] := Zeros(PERIODS); }
      } else {
        for i := 1 to elapsed + 1
          invariant Shape()
          invariant forall sl | 0 <= sl < SLOTS :: channel[sl] == ClearNext(old(channel[sl]), lastUtil, i - 1)
        {
          var b := (lastUtil + i) % PERIODS;
          for sl := 0 to SLOTS
            invariant Shape()
            invariant forall s | 0 <= s < sl :: channel[s] == ClearNext(old(channel[s]), lastUtil, i)
            invariant forall s | sl <= s < SLOTS :: channel[s] == ClearNext(old(channel[s]), lastUtil, i - 1)
          {
            channel[sl] := channel[sl][b := 0];
          }
        }
      }
    }

    method ClearTx(elapsed: nat)
      requires Shape()
      modifies tx
      ensures tx[..] == Advanced(old(tx[..]), lastTx, lastTx + elapsed)
    {
      if elapsed >= MINUTES {
        forall i | 0 <= i < MINUTES { tx[i] := 0; }
      } else {
        for i := 1 to elapsed + 1
          invariant tx[..] == ClearNext(old(tx[..]), lastTx, i - 1)
        {
          tx[(lastTx + i) % MINUTES] := 0;
        }
      }
    }

    /** Bringing both windows forward keeps every ring a reflection of the log. */
    method Advance(sec: u32)
      requires Valid() && NotBefore(sec)
      modifies `lastUtil, `lastTx, `initialized, channel, tx
      ensures Valid() && initialized && lastUtil == sec / 10 && lastTx == sec / 60
      ensures old(initialized) ==> tx[..] == Advanced(old(tx[..]), old(lastTx), lastTx)
    {
      hide Reflects, NotAfter, ChannelMarks, TxMarks, Advanced;
      if initialized {
        forall sl | 0 <= sl < SLOTS
          ensures Reflects(Advanced(channel[sl], lastUtil, sec / 10), sec / 10, ChannelMarks(log, sl))
                  && NotAfter(ChannelMarks(log, sl), sec / 10)
        {
          AdvancedReflects(channel[sl], lastUtil, sec / 10, ChannelMarks(log, sl));
          LaterStill(ChannelMarks(log, sl), lastUtil, sec / 10);
        }
        AdvancedReflects(tx[..], lastTx, sec / 60, TxMarks(log));
        LaterStill(TxMarks(log), lastTx, sec / 60);
        ClearChannels(sec / 10 - lastUtil);
        ClearTx(sec / 60 - lastTx);
      } else {
        forall sl | 0 <= sl < SLOTS
          ensures Reflects(channel[sl], sec / 10, ChannelMarks(log, sl)) && NotAfter(ChannelMarks(log, sl), sec / 10)
        {
          NoMarks(sl);
          QuietRing(channel[sl], lastUtil, sec / 10, ChannelMarks(log, sl));
        }
        NoMarks(0);
        QuietRing(tx[..], lastTx, sec / 60, TxMarks(log));
      }
      initialized, lastUtil, lastTx := true, sec / 10, sec / 60;
    }

    /** One transmission or reception goes to the rings it belongs to and nowhere else. */
    method Log(kind: Kind, usePreset: bool, preset: nat, ms: u32, sec: u32)
      requires Valid() && NotBefore(sec)
      modifies this, channel, tx
      ensures Valid() && NotBefore(sec) && log == old(log) + [Entry(sec, kind, SlotOf(usePreset, preset), ms)]
    {
      hide Reflects, NotAfter, ChannelMarks, TxMarks, Advanced;
      Advance(sec);
      var slot := SlotOf(usePreset, preset);
      ghost var e := Entry(sec, kind, slot, ms);
      if kind == Tx {
        var h := (sec / 60) % MINUTES;
        AddTx(tx[..], log, e);
        ghost var ring := tx[..];
        tx[h] := (tx[h] + ms) % WORD;
        assert tx[..] == ring[h := (ring[h] + ms) % WORD];
      } else {
        SkipTx(log, e);
      }
      forall sl | 0 <= sl < SLOTS && !(kind != Other && sl == slot)
        ensures ChannelMarks(log + [e], sl) == ChannelMarks(log, sl)
      {
        SkipChannel(log, e, sl);
      }
      if kind != Other {
        var m := (sec / 10) % PERIODS;
        AddChannel(channel[slot], log, e);
        channel[slot] := channel[slot][m := (channel[slot][m] + ms) % WORD];
      }
      log := log + [e];
    }

    /** A preset's utilisation is the milliseconds logged to its slot in the last six ticks. */
    method ChannelPercent(slot: nat, sec: u32) returns (percent: real)
      requires Valid() && NotBefore(sec)
      modifies `lastUtil, `lastTx, `initialized, channel, tx
      ensures Valid() && NotBefore(sec)
      ensures percent == if slot >= SLOTS then 0.0 else
                           (Window(ChannelMarks(log, slot), sec / 10, PERIODS) % WORD) as real / 600.0
    {
      hide Reflects, NotAfter, ChannelMarks, TxMarks, Window;
      if slot >= SLOTS { return 0.0; }
      Advance(sec);
      RingSumIsTheWindow(channel[slot], lastUtil, ChannelMarks(log, slot));
      var sum := WrapSum(channel[slot]);
      percent := sum as real / 60000.0 * 100.0;
    }

    /** Transmit utilisation is the milliseconds sent in the last sixty minute ticks. */
    method TxPercent(sec: u32) returns (percent: real)
      requires Valid() && NotBefore(sec)
      modifies `lastUtil, `lastTx, `initialized, channel, tx
      ensures Valid() && NotBefore(sec)
      ensures percent == Percent(Window(TxMarks(log), sec / 60, MINUTES) % WORD)
    {
      hide Reflects, NotAfter, ChannelMarks, TxMarks, Window;
      Advance(sec);
      RingSumIsTheWindow(tx[..], lastTx, TxMarks(log));
      var sum := WrapSum(tx[..]);
      percent := sum as real / 3600000.0 * 100.0;
    }

    /** Asked with the current utilisation, the answer is the first minute tick at which the
        true window, with nothing more sent, is at or under the ceiling. */
    method SilentMinutes(txPercent: real, ceiling: real, sec: u32) returns (minutes: nat)
      requires Valid() && NotBefore(sec)
      modifies `lastUtil, `lastTx, `initialized, channel, tx
      ensures Valid() && NotBefore(sec)
      ensures txPercent <= ceiling ==> minutes == 0
      ensures txPercent > ceiling ==>
                minutes == SilentWait(tx[..], sec / 60, txPercent, ceiling) && lastTx == sec / 60
      ensures var now := Window(TxMarks(log), sec / 60, MINUTES);
              txPercent == Percent(now) && now < WORD && ceiling >= 0.0 ==>
                IsLeastQuiet(TxMarks(log), sec / 60, MINUTES, ceiling, minutes)
    {
      hide Reflects, NotAfter, ChannelMarks, TxMarks, Window;
      if txPercent <= ceiling { return 0; }
      Advance(sec);
      minutes := MINUTES;
      var remaining, age := txPercent, 0;
      while age < MINUTES
        invariant age <= MINUTES
        invariant SilentWait(tx[..], lastTx, txPercent, ceiling)
                  == Forecast(tx[..], lastTx, remaining, ceiling, age)
      {
        remaining := remaining - tx[(lastTx + 1 + age) % MINUTES] as real / (3600000.0 / 100.0);
        if remaining <= ceiling {
          minutes := age + 1;
          break;
        }
        age := age + 1;
      }
      if Window(TxMarks(log), lastTx, MINUTES) < WORD && ceiling >= 0.0 {
        ForecastHolds(tx[..], lastTx, TxMarks(log), ceiling);
      }
    }
  }

  /** A 32-bit accumulator over a ring. */
  method WrapSum(ring: seq<u32>) returns (sum: u32)
    ensures sum == Sum(ring) % WORD
  {
    sum := 0;
    for i := 0 to |ring|
      invariant sum == Sum(ring[..i]) % WORD
    {
      assert ring[..i + 1][..i] == ring[..i];
      WrapAdd(Sum(ring[..i]), ring[i]);
      sum := (sum + ring[i]) % WORD;
    }
    assert ring[..|ring|] == ring;
  }

  lemma LaterStill(marks: seq<Mark>, now: nat, later: nat)
    requires NotAfter(marks, now) && now <= later
    ensures NotAfter(marks, later)
  {
  }

  lemma NoMarks(slot: nat)
    ensures ChannelMarks([], slot) == [] && TxMarks([]) == []
  {
  }

  lemma QuietRing(ring: seq<u32>, now: nat, later: nat, marks: seq<Mark>)
    requires marks == [] && Reflects(ring, now, marks)
    ensures Reflects(ring, later, marks) && NotAfter(marks, later)
  {
  }

  lemma AddTx(ring: seq<u32>, log: seq<Entry>, e: Entry)
    requires e.kind == Tx && Reflects(ring, e.sec / 60, TxMarks(log)) && NotAfter(TxMarks(log), e.sec / 60)
    ensures var h := (e.sec / 60) % |ring|;
            Reflects(ring[h := (ring[h] + e.ms) % WORD], e.sec / 60, TxMarks(log + [e]))
    ensures NotAfter(TxMarks(log + [e]), e.sec / 60)
  {
    hide Reflects;
    assert (log + [e])[..|log|] == log;
    AddReflects(ring, e.sec / 60, TxMarks(log), e.ms);
  }

  lemma SkipTx(log: seq<Entry>, e: Entry)
    requires e.kind != Tx
    ensures TxMarks(log + [e]) == TxMarks(log)
  {
    assert (log + [e])[..|log|] == log;
  }

  lemma AddChannel(ring: seq<u32>, log: seq<Entry>, e: Entry)
    requires e.kind != Other && Reflects(ring, e.sec / 10, ChannelMarks(log, e.slot))
    requires NotAfter(ChannelMarks(log, e.slot), e.sec / 10)
    ensures var m := (e.sec / 10) % |ring|;
            Reflects(ring[m := (ring[m] + e.ms) % WORD], e.sec / 10, ChannelMarks(log + [e], e.slot))
    ensures NotAfter(ChannelMarks(log + [e], e.slot), e.sec / 10)
  {
    hide Reflects;
    assert (log + [e])[..|log|] == log;
    AddReflects(ring, e.sec / 10, ChannelMarks(log, e.slot), e.ms);
  }

  lemma SkipChannel(log: seq<Entry>, e: Entry, slot: nat)
    requires e.kind == Other || e.slot != slot
    ensures ChannelMarks(log + [e], slot) == ChannelMarks(log, slot)
  {
    assert (log + [e])[..|log|] == log;
  }
}
