/** Walks spaced by at least the responder's serve interval are always afforded, so members that
    keep that pace converge. */
module Pacing {
  import opened Bytes
  import opened Arithmetic
  import opened Stamps
  import opened Document
  import opened Digest
  import opened Merge
  import opened Buckets
  import opened Fragments
  import opened Sync
  import opened Protocol
  import opened Convergence

  /** No pause lasts longer than this many intervals, so that 32-bit credit does not wrap. */
  const LONGEST := 0x4000_0000

  /** Between one interval and LONGEST of them. */
  predicate Pause(from: int, to: int, interval: nat) { interval <= to - from <= LONGEST * interval }

  /** Nothing is owed for longer than a longest pause. */
  predicate Rested(b: Bucket, now: int, interval: nat) {
    b.tokens <= SERVE_BURST && b.refill <= now && now - b.refill < (LONGEST + 1) * interval
  }

  /** A fresh member serves, and pushes, its whole burst at once and no more. */
  lemma FreshMemberHasItsBurst(kind: ScopeKind, pinned: bool, now: int, n: nat, interval: nat)
    requires interval > 0
    ensures Grants(Init(kind, pinned, now).serve, Together(now, n), interval, SERVE_BURST) == Min(n, SERVE_BURST)
    ensures Grants(Init(kind, pinned, now).pushes, Together(now, n), interval, PUSH_BURST) == Min(n, PUSH_BURST)
  {
    hide Grants;
    BurstIsGranted(Bucket(SERVE_BURST, now), now, n, interval, SERVE_BURST);
    BurstIsGranted(Bucket(PUSH_BURST, now), now, n, interval, PUSH_BURST);
    SettledCredit(Bucket(SERVE_BURST, now), now, interval, SERVE_BURST);
  }

  /** After a pause a request is granted, and the bucket is up to date again. */
  lemma PauseEarnsAGrant(b: Bucket, last: int, now: int, interval: nat)
    requires interval > 0 && Rested(b, last, interval) && Pause(last, now, interval)
    ensures MayTake(b, now, interval, SERVE_BURST)
    ensures var b' := AfterRequest(b, now, interval, SERVE_BURST);
            b'.tokens <= SERVE_BURST && b'.refill <= now < b'.refill + interval
  {
    var elapsed := now - b.refill;
    var whole := elapsed / interval;
    QuotientBounds(elapsed, interval);
    QuotientIsGreatest(1, elapsed, interval);
    assert elapsed < (2 * LONGEST + 1) * interval;
    if whole >= 2 * LONGEST + 1 { MulMonotone(2 * LONGEST + 1, whole, interval); }
    QuietEarnsAGrant(b, now, interval, SERVE_BURST);
    assert whole % WORD == whole;
  }

  function LastRequest(start: int, ss: seq<Schedule>): (at: int) {
    if |ss| == 0 then start else ss[|ss| - 1].entriesAt
  }

  /** Every request of a run of walks comes a pause after the one before. */
  predicate Paced(start: int, ss: seq<Schedule>, interval: nat) {
    |ss| == 0 ||
    (var init, s := ss[..|ss| - 1], ss[|ss| - 1];
     Paced(start, init, interval) && Pause(LastRequest(start, init), s.vectorAt, interval)
     && Pause(s.vectorAt, s.entriesAt, interval))
  }

  /** The limit is off, or the bucket is rested and the walks are paced. */
  predicate KeepsPace(c: Config, serve: Bucket, start: int, ss: seq<Schedule>) {
    c.serveInterval == 0 || (Rested(serve, start, c.serveInterval) && Paced(start, ss, c.serveInterval))
  }

  lemma WalkIsAfforded(cb: Config, serve: Bucket, last: int, s: Schedule, asked: bool)
    requires cb.serveInterval > 0 && Rested(serve, last, cb.serveInterval)
    requires Pause(last, s.vectorAt, cb.serveInterval) && Pause(s.vectorAt, s.entriesAt, cb.serveInterval)
    ensures Affordable(cb, serve, s) && Rested(ServeAfter(cb, serve, s, asked), s.entriesAt, cb.serveInterval)
  {
    hide AfterRequest, MayTake;
    PauseEarnsAGrant(serve, last, s.vectorAt, cb.serveInterval);
    var once := AfterRequest(serve, s.vectorAt, cb.serveInterval, SERVE_BURST);
    PauseEarnsAGrant(once, s.vectorAt, s.entriesAt, cb.serveInterval);
  }

  lemma {:induction false} PacedRunIsAfforded(ca: Config, cb: Config, p: Pair, ss: seq<Schedule>, start: int)
    requires AtRest(ca, cb, p) && p.a.kind != BaseKind && Sorted(p.b.doc)
    requires Walkable(p.a.doc, ca.cap, Restrict(p.b.doc, Mine(ca, p.a)))
    requires forall i :: 0 <= i < |ss| ==> GoodSchedule(ca, p.a.doc, ss[i], Restrict(p.b.doc, Mine(ca, p.a)))
    requires KeepsPace(cb, p.b.serve, start, ss)
    ensures AllAffordable(ca, cb, p, ss)
    ensures cb.serveInterval > 0 ==> Rested(RunWalks(ca, cb, p, ss).b.serve, LastRequest(start, ss), cb.serveInterval)
  {
    hide Restrict, Walkable, Sorted, Walk, GoodSchedule, Walks, AfterRequest, Rested, Pause;
    if |ss| > 0 {
      var init, s := ss[..|ss| - 1], ss[|ss| - 1];
      PacedRunIsAfforded(ca, cb, p, init, start);
      RunFetchesBatches(ca, cb, p, init);
      var mid := RunWalks(ca, cb, p, init);
      if cb.serveInterval > 0 {
        WalkIsAfforded(cb, mid.b.serve, LastRequest(start, init), s, true);
        WalkIsAfforded(cb, mid.b.serve, LastRequest(start, init), s, false);
      }
      assert Affordable(cb, mid.b.serve, s);
      NextWalkCompletes(ca, cb, p, init, s);
    }
  }

  lemma NextWalkCompletes(ca: Config, cb: Config, p: Pair, init: seq<Schedule>, s: Schedule)
    requires AtRest(ca, cb, p) && p.a.kind != BaseKind && Sorted(p.b.doc)
    requires Walkable(p.a.doc, ca.cap, Restrict(p.b.doc, Mine(ca, p.a)))
    requires forall i :: 0 <= i < |init| ==> GoodSchedule(ca, p.a.doc, init[i], Restrict(p.b.doc, Mine(ca, p.a)))
    requires GoodSchedule(ca, p.a.doc, s, Restrict(p.b.doc, Mine(ca, p.a)))
    requires AllAffordable(ca, cb, p, init) && Affordable(cb, RunWalks(ca, cb, p, init).b.serve, s)
    ensures var mid := RunWalks(ca, cb, p, init);
            var after := Walk(ca, cb, mid, s).b.serve;
            after == ServeAfter(cb, mid.b.serve, s, true) || after == ServeAfter(cb, mid.b.serve, s, false)
  {
    hide Restrict, Walkable, Sorted, WalkTable, Walk, GoodSchedule, Affordable, ServeAfter;
    RunFetchesBatches(ca, cb, p, init);
    var mid := RunWalks(ca, cb, p, init);
    WalksKeep(p.a.doc, ca.cap, Restrict(p.b.doc, Mine(ca, p.a)), |init|);
    TrustIsWelcome(ca, p.a.doc, |init|, p.b.doc, Mine(ca, p.a), s);
    assert CanComplete(ca, cb, mid, s);
    WalkFetchesTheBatch(ca, cb, mid, s);
  }

  /** Members that keep each other's pace converge: the budget is no further condition. */
  lemma PacedMembersConverge(crc: Crc, ca: Config, cb: Config, p: Pair, ss: seq<Schedule>, us: seq<Schedule>,
                             startB: int, startA: int)
    requires AtRest(ca, cb, p) && p.a.kind != BaseKind && p.b.kind != BaseKind
    requires p.b.pull == PullIdle && (p.b.slot.Busy? ==> p.b.slot.from != ca.me)
    requires Sorted(p.a.doc) && Sorted(p.b.doc) && OneVersion(p.a.doc, p.b.doc)
    requires forall e :: e in p.a.doc + p.b.doc ==> Acceptable(e)
    requires HasRoom(p.a.doc, ca.cap, Restrict(p.b.doc, Mine(ca, p.a)))
    requires HasRoom(p.b.doc, cb.cap, Restrict(p.a.doc, Mine(cb, p.b)))
    requires |ss| * PULL_KEYS >= |Restrict(p.b.doc, Mine(ca, p.a))|
    requires |us| * PULL_KEYS >= |Restrict(p.a.doc, Mine(cb, p.b))|
    requires forall i :: 0 <= i < |ss| ==> GoodSchedule(ca, p.a.doc, ss[i], Restrict(p.b.doc, Mine(ca, p.a)))
    requires forall i :: 0 <= i < |us| ==> GoodSchedule(cb, p.b.doc, us[i], Restrict(p.a.doc, Mine(cb, p.b)))
    requires KeepsPace(cb, p.b.serve, startB, ss) && KeepsPace(ca, p.a.serve, startA, us)
    ensures var q := RunWalks(ca, cb, p, ss);
            var r := RunWalks(cb, ca, Pair(q.b, q.a), us);
            && AgreeOn(r.b.doc, r.a.doc, Intersect(Mine(ca, p.a), Mine(cb, p.b)))
            && CompareDigest(crc, r.b.doc, Mine(ca, r.b), cb.me, BuildDigest(crc, r.a.doc, Mine(cb, r.a))) == Match
            && CompareDigest(crc, r.a.doc, Mine(cb, r.a), ca.me, BuildDigest(crc, r.b.doc, Mine(ca, r.b))) == Match
  {
    hide Restrict, Sorted, Walks, RunWalks, AllAffordable, GoodSchedule, Keys, Acceptable, BehindOf,
         CompareDigest, BuildDigest, AgreeOn, OneVersion, HasRoom, KeepsPace;
    var sa, sb := Mine(ca, p.a), Mine(cb, p.b);
    var a, b := p.a.doc, p.b.doc;
    OfferFits(a, b, ca.cap, sa);
    PacedRunIsAfforded(ca, cb, p, ss, startB);
    RunFetchesBatches(ca, cb, p, ss);
    var q := RunWalks(ca, cb, p, ss);
    WalksStayInside(a, b, ca.cap, sa, |ss|);
    OfferFitsBack(a, b, q.a.doc, cb.cap, sb);
    forall i | 0 <= i < |us| ensures GoodSchedule(cb, b, us[i], Restrict(q.a.doc, sb)) {
      GoodBack(cb, us[i], a, b, q.a.doc, sb);
    }
    PacedRunIsAfforded(cb, ca, Pair(q.b, q.a), us, startA);
    MembersConverge(crc, ca, cb, p, ss, us);
  }
}
