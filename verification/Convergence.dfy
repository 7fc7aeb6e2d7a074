/** A whole anti-entropy walk between two members, run through their real handlers,
    does to the requester's document exactly what the diff promised; and repeated walks
    bring two members to agreement. */
module Convergence {
  import opened Bytes
  import opened Stamps
  import opened Document
  import opened Digest
  import opened Merge
  import opened Buckets
  import opened Fragments
  import opened Sync
  import opened Protocol
  import opened Paging

  /** Two members mid-conversation: `a` pulls from `b`. */
  datatype Pair = Pair(a: State, b: State)

  /** When the two requests are served, when the entry frames land, and the wall clock. */
  datatype Schedule = Schedule(vectorAt: int, entriesAt: int, frames: seq<int>, wall: int)

  // ----- the walk, phase by phase -----------------------------------------------------

  function RequestVector(ca: Config, cb: Config, p: Pair, now: int): Pair {
    var (a, out) := TxNext(ca, p.a);
    if out.Some? && out.value.0 == cb.me && out.value.1.VectorReq?
    then Pair(a, OnVectorReq(cb, p.b, ca.me, out.value.1.scope, now)) else Pair(a, p.b)
  }

  /** Chunks flow until the responder is done with them, or, unless it is draining, until
      the requester has heard enough. */
  function PullVector(ca: Config, cb: Config, p: Pair, wall: int, drain: bool): Pair
    decreases Unseen(p.b)
  {
    if p.b.vecDest == 0 || p.b.entDest != 0 || (!drain && p.a.pull != AwaitVector) then p
    else
      var (b, out) := TxNext(cb, p.b);
      var a := if out.value.0 == ca.me then OnVector(ca, p.a, cb.me, out.value.1.vector, wall) else p.a;
      PullVector(ca, cb, Pair(a, b), wall, drain)
  }

  function RequestEntries(ca: Config, cb: Config, p: Pair, now: int): Pair {
    if p.a.pull != SendEntryReq then p
    else
      var (a, out) := TxNext(ca, p.a);
      if out.Some? && out.value.0 == cb.me && out.value.1.EntryReq?
      then Pair(a, OnEntryReq(cb, p.b, ca.me, out.value.1.keys, now)) else Pair(a, p.b)
  }

  /** One frame of the burst per instant, until the burst is over. */
  function PullEntries(ca: Config, cb: Config, p: Pair, frames: seq<int>, wall: int): Pair
    decreases |frames|
  {
    if |frames| == 0 || p.b.entDest == 0 then p
    else
      var (b, out) := TxNext(cb, p.b);
      if out.Some? && out.value.0 == ca.me && out.value.1.EntryMsg?
      then PullEntries(ca, cb, Pair(OnEntry(ca, p.a, cb.me, out.value.1.fragment, wall, frames[0]), b),
                       frames[1..], wall)
      else Pair(p.a, b)
  }

  function Walk(ca: Config, cb: Config, p: Pair, s: Schedule): Pair {
    var asked := RequestVector(ca, cb, Pair(PullStart(ca, p.a, cb.me), p.b), s.vectorAt);
    var diffed := PullVector(ca, cb, asked, s.wall, false);
    var wanted := RequestEntries(ca, cb, diffed, s.entriesAt);
    var merged := PullEntries(ca, cb, wanted, s.frames, s.wall);
    PullVector(ca, cb, merged, s.wall, true)
  }

  // ----- what it takes to complete ----------------------------------------------------

  /** `a` is free to pull and `b` is free to serve. */
  predicate AtRest(ca: Config, cb: Config, p: Pair) {
    && cb.me != 0 && ca.me != 0 && ca.me != cb.me
    && p.a.pull == PullIdle && p.a.entDest == 0 && p.a.vecDest == 0
    && p.b.entDest == 0 && p.b.vecDest == 0
    && (p.a.slot.Busy? ==> p.a.slot.from != cb.me)
  }

  /** `b`'s reply budget covers both requests of one walk. */
  predicate Affordable(cb: Config, serve: Bucket, s: Schedule) {
    && MayTake(serve, s.vectorAt, cb.serveInterval, SERVE_BURST)
    && MayTake(AfterRequest(serve, s.vectorAt, cb.serveInterval, SERVE_BURST), s.entriesAt,
               cb.serveInterval, SERVE_BURST)
  }

  /** The budget after a walk: the vector request, and the entry request if there was one. */
  function ServeAfter(cb: Config, serve: Bucket, s: Schedule, asked: bool): (b: Bucket) {
    var once := AfterRequest(serve, s.vectorAt, cb.serveInterval, SERVE_BURST);
    if asked then AfterRequest(once, s.entriesAt, cb.serveInterval, SERVE_BURST) else once
  }

  /** An entry passes every gate of the requester. */
  predicate Welcome(ca: Config, mine: Scope, wall: int, e: Entry) {
    Admissible(mine, wall, e) && ca.gate(e.key, e.stamp) && ca.vouch(e)
  }

  /** Every in-scope row the peer is ahead on passes every gate of the requester. */
  predicate AheadIsWelcome(ca: Config, t: seq<Entry>, mine: Scope, wall: int, es: seq<Entry>) {
    forall e :: e in es && Behind(t, e) ==> Welcome(ca, mine, wall, e)
  }

  // ----- phase 1: the vector request ----------------------------------------------------

  lemma VectorIsRequested(ca: Config, cb: Config, p: Pair, now: int)
    requires AtRest(ca, cb, p) && p.a.kind != BaseKind
    requires MayTake(p.b.serve, now, cb.serveInterval, SERVE_BURST)
    ensures var q := RequestVector(ca, cb, Pair(PullStart(ca, p.a, cb.me), p.b), now);
            && q.a == p.a.(pull := AwaitVector, pullPeer := cb.me, pullKeys := [])
            && q.b == p.b.(serve := AfterRequest(p.b.serve, now, cb.serveInterval, SERVE_BURST),
                           vecScope := q.b.vecScope, vecDest := ca.me, vecOffset := 0, vecEmitted := 0)
            && ScopeMake(q.b.vecScope, ca.me) == Mine(ca, p.a)
  {
  }

  // ----- phase 2: the diff ----------------------------------------------------------------

  /** `b` has sent the rows of its first `p.b.vecOffset` entries and `a` has diffed them. */
  predicate Diffing(ca: Config, cb: Config, p: Pair) {
    var s, off := Mine(ca, p.a), p.b.vecOffset;
    && ca.me != 0 && cb.me != 0
    && p.b.entDest == 0 && p.b.vecDest == ca.me && ScopeMake(p.b.vecScope, ca.me) == s
    && off <= |p.b.doc| && p.b.vecEmitted == |Restrict(p.b.doc[..off], s)|
    && p.a.pull == AwaitVector && p.a.pullPeer == cb.me
    && p.a.pullKeys == KeysOf(Take(BehindOf(p.a.doc, Restrict(p.b.doc[..off], s)), PULL_KEYS))
  }

  /** `q.a` is `p.a` with its pull decided: exactly the batch the walk will fetch. */
  predicate Decided(p: Pair, q: Pair, batch: seq<Entry>) {
    && q.a == p.a.(hlc := q.a.hlc, pull := q.a.pull, pullPeer := q.a.pullPeer, pullKeys := KeysOf(batch))
    && q.a.pull == (if |batch| == 0 then PullIdle else SendEntryReq)
    && q.a.pullPeer == (if |batch| == 0 then 0 else p.a.pullPeer)
    && q.b == p.b.(vecDest := q.b.vecDest, vecOffset := q.b.vecOffset, vecEmitted := q.b.vecEmitted)
  }

  lemma {:induction false} VectorIsDiffed(ca: Config, cb: Config, p: Pair, wall: int)
    requires Diffing(ca, cb, p)
    requires var es := Restrict(p.b.doc, Mine(ca, p.a));
             Sorted(p.a.doc) && AllAdmissible(p.a.doc, Mine(ca, p.a), wall, es) && HasRoom(p.a.doc, ca.cap, es)
    ensures Decided(p, PullVector(ca, cb, p, wall, false),
                    WalkBatch(p.a.doc, Restrict(p.b.doc, Mine(ca, p.a))))
    decreases Unseen(p.b)
  {
    var q := ChunkIsDiffed(ca, cb, p, wall);
    if q.a.pull == AwaitVector { VectorIsDiffed(ca, cb, q, wall); }
  }

  /** One chunk: the requester is either done, with exactly its batch, or still diffing. */
  lemma ChunkIsDiffed(ca: Config, cb: Config, p: Pair, wall: int) returns (q: Pair)
    requires Diffing(ca, cb, p)
    requires var es := Restrict(p.b.doc, Mine(ca, p.a));
             Sorted(p.a.doc) && AllAdmissible(p.a.doc, Mine(ca, p.a), wall, es) && HasRoom(p.a.doc, ca.cap, es)
    ensures Unseen(q.b) < Unseen(p.b)
    ensures q.a.pull == AwaitVector ==>
              Diffing(ca, cb, q)
    ensures q.a.pull != AwaitVector ==>
              Decided(p, q, WalkBatch(p.a.doc, Restrict(p.b.doc, Mine(ca, p.a))))
    ensures q.a == p.a.(hlc := q.a.hlc, pull := q.a.pull, pullPeer := q.a.pullPeer, pullKeys := q.a.pullKeys)
    ensures q.b == p.b.(vecDest := q.b.vecDest, vecOffset := q.b.vecOffset, vecEmitted := q.b.vecEmitted)
    ensures PullVector(ca, cb, p, wall, false) == PullVector(ca, cb, q, wall, false)
  {
    hide Restrict, BehindOf, DiffRows, Sorted, Admissible, HasRoom, ChunkEnd, TxEntry;
    var s, off := Mine(ca, p.a), p.b.vecOffset;
    var end := ChunkEnd(p.b.doc, s, off, VECTOR_ROWS);
    var (b, v) := TxVector(p.b);
    q := Pair(OnVector(ca, p.a, cb.me, v, wall), b);
    ChunkRows(p.a.doc, p.b.doc, s, off, end);
    var before, chunk := Restrict(p.b.doc[..off], s), Restrict(p.b.doc[off..end], s);
    DiffCollectsBehind(p.a.doc, ca.cap, s, wall, p.a.hlc, before, chunk, Restrict(p.b.doc, s));
    assert TxNext(cb, p.b) == (b, Some((ca.me, VectorMsg(v)))) by { NoBurst(p.b); }
  }

  lemma NoBurst(b: State)
    requires b.entDest == 0
    ensures TxEntry(b) == (b, None)
  {
  }

  /** The rows up to a chunk's end, and what they settle about the batch. */
  lemma ChunkRows(t: seq<Entry>, doc: seq<Entry>, s: Scope, off: nat, end: nat)
    requires off <= end <= |doc|
    ensures var upTo, all := Restrict(doc[..end], s), Restrict(doc, s);
            && upTo == Restrict(doc[..off], s) + Restrict(doc[off..end], s)
            && upTo <= all
            && (end == |doc| || |upTo| == |all| ==> upTo == all)
            && (|Take(BehindOf(t, upTo), PULL_KEYS)| >= PULL_KEYS || upTo == all ==>
                  Take(BehindOf(t, upTo), PULL_KEYS) == WalkBatch(t, all))
    ensures forall e :: e in Restrict(doc[off..end], s) ==> e in Restrict(doc, s)
  {
    hide Restrict, BehindOf;
    ChunkSplits(doc, s, off, end);
    ChunkSplits(doc, s, 0, end);
    assert doc[0..] == doc && doc[0..end] == doc[..end];
    var upTo, all := Restrict(doc[..end], s), Restrict(doc, s);
    BehindPrefix(t, all, |upTo|);
    assert all[..|upTo|] == upTo;
    if end == |doc| { assert doc[..end] == doc; }
  }

  // ----- phase 3: the entry request ---------------------------------------------------

  lemma EntriesAreRequested(ca: Config, cb: Config, p: Pair, now: int)
    requires p.a.pull == SendEntryReq && p.a.pullPeer == cb.me && cb.me != 0 && ca.me != 0
    requires p.a.entDest == 0 && p.a.vecDest == 0 && p.b.entDest == 0
    requires 0 < |p.a.pullKeys| <= PULL_KEYS
    requires MayTake(p.b.serve, now, cb.serveInterval, SERVE_BURST)
    ensures var q := RequestEntries(ca, cb, p, now);
            && q.a == PullReset(p.a)
            && q.b == p.b.(serve := AfterRequest(p.b.serve, now, cb.serveInterval, SERVE_BURST),
                           entDest := ca.me, entKeys := p.a.pullKeys, entNext := 0, entOff := 0)
  {
  }

  // ----- phase 4: the burst ---------------------------------------------------------------

  /** What the rest of a burst puts on the air. */
  function BurstFrames(es: seq<Entry>): (fs: seq<Fragment>) {
    if |es| == 0 then [] else FragmentsFrom(es[0], 0, FRAG_MAX) + BurstFrames(es[1..])
  }

  /** `b` is about to serve `es`, having sent `off` bytes of the first. */
  predicate Serving(ca: Config, b: State, es: seq<Entry>, off: nat) {
    && ca.me != 0
    && b.entDest == (if |es| == 0 then 0 else ca.me)
    && |es| <= |b.entKeys| && (|es| > 0 ==> b.entNext == |b.entKeys| - |es|)
    && (forall i :: 0 <= i < |es| ==> Find(b.doc, b.entKeys[|b.entKeys| - |es| + i]) == Some(es[i]))
    && (|es| > 0 ==> b.entOff == off && off <= |es[0].payload|)
  }

  /** Handing `a` a run of frames, one instant each. */
  function Receive(ca: Config, a: State, from: u32, fs: seq<Fragment>, times: seq<int>, wall: int): State
    requires |times| >= |fs|
    decreases |fs|
  {
    if |fs| == 0 then a
    else Receive(ca, OnEntry(ca, a, from, fs[0], wall, times[0]), from, fs[1..], times[1..], wall)
  }

  lemma {:induction false} ReceiveAppend(ca: Config, a: State, from: u32, fs: seq<Fragment>,
                                         gs: seq<Fragment>, times: seq<int>, wall: int)
    requires |times| >= |fs| + |gs|
    ensures Receive(ca, a, from, fs + gs, times, wall)
            == Receive(ca, Receive(ca, a, from, fs, times, wall), from, gs, times[|fs|..], wall)
    decreases |fs|
  {
    hide OnEntry;
    if |fs| == 0 {
      assert fs + gs == gs && times[0..] == times;
    } else {
      assert (fs + gs)[1..] == fs[1..] + gs;
      assert times[1..][|fs| - 1..] == times[|fs|..];
      ReceiveAppend(ca, OnEntry(ca, a, from, fs[0], wall, times[0]), from, fs[1..], gs, times[1..], wall);
    }
  }

  /** One frame of the burst, and where it leaves the responder. */
  lemma FrameIsSent(ca: Config, cb: Config, b: State, es: seq<Entry>, off: nat) returns (b': State)
    requires |es| > 0 && Serving(ca, b, es, off)
    ensures TxNext(cb, b) == (b', Some((ca.me, EntryMsg(EntryFragment(es[0], off, FRAG_MAX)))))
    ensures b' == b.(entDest := b'.entDest, entNext := b'.entNext, entOff := b'.entOff)
    ensures var next := NextCursor(es[0], off, FRAG_MAX);
            if next < |es[0].payload| then Serving(ca, b', es, next) else Serving(ca, b', es[1..], 0)
  {
    hide TxVector, TxPush, Find;
    b' := TxEntry(b).0;
    assert Find(b.doc, b.entKeys[b.entNext]) == Some(es[0]);
  }

  /** The frames the burst really sends are the fragments of the requested entries, in order. */
  lemma {:induction false} BurstIsServed(ca: Config, cb: Config, p: Pair, es: seq<Entry>, off: nat,
                                         times: seq<int>, wall: int)
    requires Serving(ca, p.b, es, off)
    requires var fs := if |es| == 0 then [] else FragmentsFrom(es[0], off, FRAG_MAX) + BurstFrames(es[1..]);
             |times| >= |fs|
    ensures var fs := if |es| == 0 then [] else FragmentsFrom(es[0], off, FRAG_MAX) + BurstFrames(es[1..]);
            var q := PullEntries(ca, cb, p, times, wall);
            && q.a == Receive(ca, p.a, cb.me, fs, times, wall)
            && q.b == p.b.(entDest := 0, entNext := q.b.entNext, entOff := q.b.entOff)
    decreases |es|, if |es| == 0 then 0 else |es[0].payload| - off
  {
    hide OnEntry, TxNext, EntryFragment, Find;
    if |es| > 0 {
      var e, next := es[0], NextCursor(es[0], off, FRAG_MAX);
      var b := FrameIsSent(ca, cb, p.b, es, off);
      var a := OnEntry(ca, p.a, cb.me, EntryFragment(e, off, FRAG_MAX), wall, times[0]);
      var fs := FragmentsFrom(e, off, FRAG_MAX) + BurstFrames(es[1..]);
      if next < |e.payload| {
        assert fs[1..] == FragmentsFrom(e, next, FRAG_MAX) + BurstFrames(es[1..]);
        BurstIsServed(ca, cb, Pair(a, b), es, next, times[1..], wall);
      } else {
        assert fs[1..] == BurstFrames(es[1..]);
        BurstIsServed(ca, cb, Pair(a, b), es[1..], 0, times[1..], wall);
      }
    }
  }

  /** Fragments of one version, all admitted, whose slot completes on the last of them,
      merge exactly that version. */
  lemma {:induction false} FragmentsAreMerged(ca: Config, a: State, from: u32, e: Entry, fs: seq<Fragment>,
                                              times: seq<int>, wall: int)
    requires |times| == |fs| > 0 && Admits(ca, a, e.key, e.stamp, wall)
    requires forall i :: 0 <= i < |fs| ==> VersionOf(fs[i]) == EntryVersion(e)
    requires fs[|fs| - 1].sig == e.sig
    requires CompletesLast(Deliver(a.slot, from, fs, times, ca.fragTimeout, FRAG_MAX).1, e.payload)
    ensures Receive(ca, a, from, fs, times, wall)
            == Ingest(ca, a.(slot := Deliver(a.slot, from, fs, times, ca.fragTimeout, FRAG_MAX).0), e, wall)
    decreases |fs|
  {
    hide Reassemble, AcceptTable, ObserveAt;
    var f := fs[0];
    var (slot, out) := Reassemble(a.slot, from, f, times[0], ca.fragTimeout, FRAG_MAX);
    var outs := Deliver(a.slot, from, fs, times, ca.fragTimeout, FRAG_MAX).1;
    assert outs[0] == out;
    assert VersionOf(f) == EntryVersion(e);
    if |fs| > 1 {
      assert outs[1..] == Deliver(slot, from, fs[1..], times[1..], ca.fragTimeout, FRAG_MAX).1;
      FragmentsAreMerged(ca, a.(slot := slot), from, e, fs[1..], times[1..], wall);
    } else {
      assert Entry(f.key, f.stamp, f.tombstone, e.payload, f.sig) == e;
      assert fs[1..] == [];
    }
  }

  lemma {:induction false} ReceiveUses(ca: Config, a: State, from: u32, fs: seq<Fragment>, times: seq<int>,
                                       wall: int)
    requires |times| >= |fs|
    ensures Receive(ca, a, from, fs, times, wall) == Receive(ca, a, from, fs, times[..|fs|], wall)
    decreases |fs|
  {
    hide OnEntry;
    if |fs| > 0 {
      assert times[..|fs|][1..] == times[1..][..|fs| - 1];
      ReceiveUses(ca, OnEntry(ca, a, from, fs[0], wall, times[0]), from, fs[1..], times[1..], wall);
    }
  }

  /** An admitted entry delivered in order merges whole and frees the slot it used. */
  lemma EntryIsMerged(ca: Config, a: State, from: u32, e: Entry, times: seq<int>, wall: int)
    requires |e.payload| <= PAYLOAD_MAX && Admits(ca, a, e.key, e.stamp, wall) && ca.vouch(e)
    requires |times| >= |FragmentsFrom(e, 0, FRAG_MAX)| && Timely(times, ca.fragTimeout)
    requires a.slot.Busy? ==> a.slot.from != from
    ensures var r := Receive(ca, a, from, FragmentsFrom(e, 0, FRAG_MAX), times, wall);
            && r == a.(doc := AcceptTable(a.doc, ca.cap, e), hlc := r.hlc, slot := r.slot)
            && (r.slot.Busy? ==> r.slot.from != from)
  {
    var fs := FragmentsFrom(e, 0, FRAG_MAX);
    var exact := times[..|fs|];
    ReceiveUses(ca, a, from, fs, times, wall);
    BackToBackCompletes(a.slot, from, e, FRAG_MAX, exact, ca.fragTimeout, FRAG_MAX);
    LastCarriesSignature(e, 0, FRAG_MAX);
    FragmentsAreMerged(ca, a, from, e, fs, exact, wall);
  }

  lemma TimelyFrom(times: seq<int>, timeout: nat, n: nat)
    requires Timely(times, timeout) && n <= |times|
    ensures Timely(times[n..], timeout)
  {
  }

  lemma {:induction false} BurstIsMerged(ca: Config, a: State, from: u32, es: seq<Entry>,
                                         times: seq<int>, wall: int)
    requires forall e :: e in es ==> Welcome(ca, Mine(ca, a), wall, e)
    requires |times| >= |BurstFrames(es)| && Timely(times, ca.fragTimeout)
    requires a.slot.Busy? ==> a.slot.from != from
    ensures var r := Receive(ca, a, from, BurstFrames(es), times, wall);
            && r == a.(doc := AcceptAll(a.doc, ca.cap, es), hlc := r.hlc, slot := r.slot)
            && (r.slot.Busy? ==> r.slot.from != from)
    decreases |es|
  {
    hide AcceptTable, FragmentsFrom, OnEntry;
    if |es| > 0 {
      var e, rest := es[0], es[1..];
      var fs := FragmentsFrom(e, 0, FRAG_MAX);
      assert e in es;
      EntryIsMerged(ca, a, from, e, times, wall);
      ReceiveAppend(ca, a, from, fs, BurstFrames(rest), times, wall);
      TimelyFrom(times, ca.fragTimeout, |fs|);
      BurstIsMerged(ca, Receive(ca, a, from, fs, times, wall), from, rest, times[|fs|..], wall);
      assert es == [e] + rest;
      AcceptAllPrepend(a.doc, ca.cap, e, rest);
    }
  }

  /** No entry needs more than two frames. */
  lemma {:induction false} BurstIsShort(es: seq<Entry>)
    requires forall e :: e in es ==> |e.payload| <= PAYLOAD_MAX
    ensures |BurstFrames(es)| <= 2 * |es|
  {
    if |es| > 0 {
      assert es[0] in es;
      var next := NextCursor(es[0], 0, FRAG_MAX);
      if next < |es[0].payload| {
        assert NextCursor(es[0], next, FRAG_MAX) >= |es[0].payload|;
        assert |FragmentsFrom(es[0], next, FRAG_MAX)| == 1;
      }
      BurstIsShort(es[1..]);
    }
  }

  // ----- phase 5: late chunks ---------------------------------------------------------------

  /** The tail of a long vector reaches a requester that has moved on, and changes nothing. */
  lemma {:induction false} LateChunksAreIgnored(ca: Config, cb: Config, p: Pair, wall: int)
    requires p.a.pull == PullIdle && p.b.entDest == 0
    ensures var q := PullVector(ca, cb, p, wall, true);
            q == Pair(p.a, p.b.(vecDest := 0, vecOffset := q.b.vecOffset, vecEmitted := q.b.vecEmitted))
    decreases Unseen(p.b)
  {
    hide Restrict;
    if p.b.vecDest != 0 {
      NoBurst(p.b);
      LateChunksAreIgnored(ca, cb, Pair(p.a, TxNext(cb, p.b).0), wall);
    }
  }

  // ----- the walk -----------------------------------------------------------------------------

  /** Everything a completed walk assumes of its two members and its schedule. */
  predicate CanComplete(ca: Config, cb: Config, p: Pair, s: Schedule) {
    var es := Restrict(p.b.doc, Mine(ca, p.a));
    && AtRest(ca, cb, p) && p.a.kind != BaseKind && Affordable(cb, p.b.serve, s)
    && Walkable(p.a.doc, ca.cap, es) && Sorted(p.b.doc)
    && AheadIsWelcome(ca, p.a.doc, Mine(ca, p.a), s.wall, es)
    && |s.frames| >= 2 * PULL_KEYS && Timely(s.frames, ca.fragTimeout)
  }

  /** A completed walk, run through both members' handlers and frames, fetches exactly the
      first batch of what the peer is ahead on, and leaves both members free for the next. */
  lemma WalkFetchesTheBatch(ca: Config, cb: Config, p: Pair, s: Schedule)
    requires CanComplete(ca, cb, p, s)
    ensures var q := Walk(ca, cb, p, s);
            && q.a == PullReset(p.a).(doc := WalkTable(p.a.doc, ca.cap, Restrict(p.b.doc, Mine(ca, p.a))),
                                      hlc := q.a.hlc, slot := q.a.slot)
            && q.b.doc == p.b.doc && q.b.kind == p.b.kind && q.b.slot == p.b.slot
            && q.b.pull == p.b.pull
            && q.b.serve == ServeAfter(cb, p.b.serve, s, |WalkBatch(p.a.doc, Restrict(p.b.doc, Mine(ca, p.a)))| > 0)
            && AtRest(ca, cb, q)
  {
    hide Restrict, Sorted, Walkable, PullVector, PullEntries, RequestVector, RequestEntries, WalkTable, BehindOf,
         AfterRequest, MayTake;
    var es := Restrict(p.b.doc, Mine(ca, p.a));
    VectorIsRequested(ca, cb, p, s.vectorAt);
    var asked := RequestVector(ca, cb, Pair(PullStart(ca, p.a, cb.me), p.b), s.vectorAt);
    DiffIsDecided(ca, cb, p, asked, s);
    var diffed := PullVector(ca, cb, asked, s.wall, false);
    var batch := WalkBatch(p.a.doc, es);
    assert Decided(asked, diffed, batch);
    if |batch| == 0 {
      EmptyBatch(ca, cb, p, diffed, s);
    } else {
      EntriesAreRequested(ca, cb, diffed, s.entriesAt);
      var wanted := RequestEntries(ca, cb, diffed, s.entriesAt);
      FetchBatch(ca, cb, p, wanted, s);
    }
    var merged := PullEntries(ca, cb, RequestEntries(ca, cb, diffed, s.entriesAt), s.frames, s.wall);
    LateChunksAreIgnored(ca, cb, merged, s.wall);
  }

  lemma DiffIsDecided(ca: Config, cb: Config, p: Pair, asked: Pair, s: Schedule)
    requires CanComplete(ca, cb, p, s)
    requires asked.a == p.a.(pull := AwaitVector, pullPeer := cb.me, pullKeys := [])
    requires asked.b == p.b.(serve := asked.b.serve, vecScope := asked.b.vecScope, vecDest := ca.me,
                             vecOffset := 0, vecEmitted := 0)
    requires ScopeMake(asked.b.vecScope, ca.me) == Mine(ca, p.a)
    ensures Decided(asked, PullVector(ca, cb, asked, s.wall, false),
                    WalkBatch(p.a.doc, Restrict(p.b.doc, Mine(ca, p.a))))
  {
    assert p.b.doc[..0] == [];
    VectorIsDiffed(ca, cb, asked, s.wall);
  }

  lemma EmptyBatch(ca: Config, cb: Config, p: Pair, diffed: Pair, s: Schedule)
    requires diffed.a.pull == PullIdle && diffed.b.entDest == 0
    requires WalkBatch(p.a.doc, Restrict(p.b.doc, Mine(ca, p.a))) == []
    ensures PullEntries(ca, cb, RequestEntries(ca, cb, diffed, s.entriesAt), s.frames, s.wall) == diffed
    ensures WalkTable(p.a.doc, ca.cap, Restrict(p.b.doc, Mine(ca, p.a))) == p.a.doc
  {
  }

  lemma FetchBatch(ca: Config, cb: Config, p: Pair, wanted: Pair, s: Schedule)
    requires CanComplete(ca, cb, p, s)
    requires var batch := WalkBatch(p.a.doc, Restrict(p.b.doc, Mine(ca, p.a)));
             |batch| > 0 && wanted.b.entKeys == KeysOf(batch)
    requires wanted.b.entDest == ca.me && wanted.b.entNext == 0 && wanted.b.entOff == 0
    requires wanted.b.doc == p.b.doc && wanted.a.doc == p.a.doc
    requires wanted.a.kind == p.a.kind && wanted.a.slot == p.a.slot
    ensures var q := PullEntries(ca, cb, wanted, s.frames, s.wall);
            && q.a == wanted.a.(doc := WalkTable(p.a.doc, ca.cap, Restrict(p.b.doc, Mine(ca, p.a))),
                                hlc := q.a.hlc, slot := q.a.slot)
            && (q.a.slot.Busy? ==> q.a.slot.from != cb.me)
            && q.b == wanted.b.(entDest := 0, entNext := q.b.entNext, entOff := q.b.entOff)
  {
    hide Sorted, Restrict, BehindOf, AcceptAll, Receive, PullEntries, FragmentsFrom, Walkable, Admissible, Find,
         Timely;
    var batch := WalkBatch(p.a.doc, Restrict(p.b.doc, Mine(ca, p.a)));
    BatchIsHeld(p.a.doc, ca.cap, p.b.doc, Mine(ca, p.a));
    assert forall e :: e in batch ==> |e.payload| <= PAYLOAD_MAX by { BatchFits(ca, p); }
    BurstIsShort(batch);
    BurstIsServed(ca, cb, wanted, batch, 0, s.frames, s.wall);
    BurstIsMerged(ca, wanted.a, cb.me, batch, s.frames, s.wall);
  }

  lemma BatchFits(ca: Config, p: Pair)
    requires Walkable(p.a.doc, ca.cap, Restrict(p.b.doc, Mine(ca, p.a)))
    ensures forall e :: e in WalkBatch(p.a.doc, Restrict(p.b.doc, Mine(ca, p.a))) ==> |e.payload| <= PAYLOAD_MAX
  {
    BatchFacts(p.a.doc, ca.cap, Restrict(p.b.doc, Mine(ca, p.a)));
  }

  /** Every entry of a batch is exactly what the peer would serve for its key. */
  lemma BatchIsHeld(t: seq<Entry>, cap: nat, doc: seq<Entry>, mine: Scope)
    requires Sorted(doc) && Walkable(t, cap, Restrict(doc, mine))
    ensures var batch := WalkBatch(t, Restrict(doc, mine));
            && (forall i :: 0 <= i < |batch| ==> Find(doc, batch[i].key) == Some(batch[i]))
            && forall e :: e in batch ==> e in Restrict(doc, mine) && Behind(t, e)
  {
    var batch := WalkBatch(t, Restrict(doc, mine));
    BatchFacts(t, cap, Restrict(doc, mine));
    forall i | 0 <= i < |batch| ensures Find(doc, batch[i].key) == Some(batch[i]) {
      assert batch[i] in batch;
      RestrictMember(doc, mine, batch[i]);
      FindMember(doc, batch[i]);
    }
  }

  // ----- repeated walks -------------------------------------------------------------------

  function RunWalks(ca: Config, cb: Config, p: Pair, ss: seq<Schedule>): Pair {
    if |ss| == 0 then p else Walk(ca, cb, RunWalks(ca, cb, p, ss[..|ss| - 1]), ss[|ss| - 1])
  }

  /** `b`'s reply budget covers every walk of the run. */
  predicate AllAffordable(ca: Config, cb: Config, p: Pair, ss: seq<Schedule>) {
    |ss| == 0 ||
    (AllAffordable(ca, cb, p, ss[..|ss| - 1])
     && Affordable(cb, RunWalks(ca, cb, p, ss[..|ss| - 1]).b.serve, ss[|ss| - 1]))
  }

  /** A document entry member `c` would take from anyone. */
  predicate Trusted(c: Config, wall: int, e: Entry) {
    Acceptable(e) && Shareable(e.key.section) && c.gate(e.key, e.stamp) && c.vouch(e) && WithinHorizon(e.stamp, wall)
  }

  /** Enough frames, in time, and every offered entry that is ahead of `t` is trusted. */
  predicate GoodSchedule(c: Config, t: seq<Entry>, s: Schedule, es: seq<Entry>) {
    && |s.frames| >= 2 * PULL_KEYS && Timely(s.frames, c.fragTimeout)
    && forall e :: e in es && Behind(t, e) ==> Trusted(c, s.wall, e)
  }

  /** A run of completed walks is the run of batches, and disturbs nothing else. */
  lemma {:induction false} RunFetchesBatches(ca: Config, cb: Config, p: Pair, ss: seq<Schedule>)
    requires AtRest(ca, cb, p) && p.a.kind != BaseKind && Sorted(p.b.doc)
    requires Walkable(p.a.doc, ca.cap, Restrict(p.b.doc, Mine(ca, p.a)))
    requires AllAffordable(ca, cb, p, ss)
    requires forall i :: 0 <= i < |ss| ==> GoodSchedule(ca, p.a.doc, ss[i], Restrict(p.b.doc, Mine(ca, p.a)))
    ensures var q := RunWalks(ca, cb, p, ss);
            && q.a.doc == Walks(p.a.doc, ca.cap, Restrict(p.b.doc, Mine(ca, p.a)), |ss|)
            && q.a.kind == p.a.kind && q.a.serve == p.a.serve && AtRest(ca, cb, q)
            && q.b.doc == p.b.doc && q.b.kind == p.b.kind && q.b.slot == p.b.slot && q.b.pull == p.b.pull
  {
    hide Restrict, Walkable, Sorted, WalkTable, Walk, GoodSchedule;
    if |ss| > 0 {
      var init, last := ss[..|ss| - 1], ss[|ss| - 1];
      RunFetchesBatches(ca, cb, p, init);
      var mid := RunWalks(ca, cb, p, init);
      WalksKeep(p.a.doc, ca.cap, Restrict(p.b.doc, Mine(ca, p.a)), |init|);
      TrustIsWelcome(ca, p.a.doc, |init|, p.b.doc, Mine(ca, p.a), last);
      assert CanComplete(ca, cb, mid, last);
      WalkFetchesTheBatch(ca, cb, mid, last);
    }
  }

  /** What is still ahead after some walks was ahead before them, and so is welcome. */
  lemma TrustIsWelcome(c: Config, t: seq<Entry>, n: nat, doc: seq<Entry>, mine: Scope, s: Schedule)
    requires Walkable(t, c.cap, Restrict(doc, mine)) && GoodSchedule(c, t, s, Restrict(doc, mine))
    ensures AheadIsWelcome(c, Walks(t, c.cap, Restrict(doc, mine), n), mine, s.wall, Restrict(doc, mine))
    ensures |s.frames| >= 2 * PULL_KEYS && Timely(s.frames, c.fragTimeout)
  {
    hide Behind, Restrict, Walks, Walkable, BehindOf;
    var es := Restrict(doc, mine);
    var t' := Walks(t, c.cap, es, n);
    WalksDrain(t, c.cap, es, n);
    forall e | e in es && Behind(t', e) ensures Welcome(c, mine, s.wall, e) {
      BehindMember(t', es, e);
      BehindMember(t, es, e);
      RestrictMember(doc, mine, e);
      assert Trusted(c, s.wall, e);
    }
  }

  /** Two members converge if each can hold its own document and what the other offers inside
      its claim, and trusts the offered rows it lacks: after enough walks one way and then the
      other they agree on everything both claim, and each finds the other's digest a match. */
  lemma MembersConverge(crc: Crc, ca: Config, cb: Config, p: Pair, ss: seq<Schedule>, us: seq<Schedule>)
    requires AtRest(ca, cb, p) && p.a.kind != BaseKind && p.b.kind != BaseKind
    requires p.b.pull == PullIdle && (p.b.slot.Busy? ==> p.b.slot.from != ca.me)
    requires Sorted(p.a.doc) && Sorted(p.b.doc) && OneVersion(p.a.doc, p.b.doc)
    requires forall e :: e in p.a.doc + p.b.doc ==> Acceptable(e)
    requires HasRoom(p.a.doc, ca.cap, Restrict(p.b.doc, Mine(ca, p.a)))
    requires HasRoom(p.b.doc, cb.cap, Restrict(p.a.doc, Mine(cb, p.b)))
    requires |ss| * PULL_KEYS >= |Restrict(p.b.doc, Mine(ca, p.a))|
    requires |us| * PULL_KEYS >= |Restrict(p.a.doc, Mine(cb, p.b))|
    requires forall i :: 0 <= i < |ss| ==> GoodSchedule(ca, p.a.doc, ss[i], Restrict(p.b.doc, Mine(ca, p.a)))
    requires forall i :: 0 <= i < |us| ==> GoodSchedule(cb, p.b.doc, us[i], Restrict(p.a.doc, Mine(cb, p.b)))
    requires AllAffordable(ca, cb, p, ss)
    requires var q := RunWalks(ca, cb, p, ss); AllAffordable(cb, ca, Pair(q.b, q.a), us)
    ensures var q := RunWalks(ca, cb, p, ss);
            var r := RunWalks(cb, ca, Pair(q.b, q.a), us);
            && AgreeOn(r.b.doc, r.a.doc, Intersect(Mine(ca, p.a), Mine(cb, p.b)))
            && CompareDigest(crc, r.b.doc, Mine(ca, r.b), cb.me, BuildDigest(crc, r.a.doc, Mine(cb, r.a))) == Match
            && CompareDigest(crc, r.a.doc, Mine(cb, r.a), ca.me, BuildDigest(crc, r.b.doc, Mine(ca, r.b))) == Match
  {
    hide Restrict, Sorted, Walks, RunWalks, AllAffordable, GoodSchedule, Keys, Acceptable, BehindOf,
         CompareDigest, BuildDigest, AgreeOn, OneVersion, HasRoom;
    var sa, sb := Mine(ca, p.a), Mine(cb, p.b);
    var a, b := p.a.doc, p.b.doc;
    OfferFits(a, b, ca.cap, sa);
    RunFetchesBatches(ca, cb, p, ss);
    var q := RunWalks(ca, cb, p, ss);
    WalksStayInside(a, b, ca.cap, sa, |ss|);
    OfferFitsBack(a, b, q.a.doc, cb.cap, sb);
    forall i | 0 <= i < |us| ensures GoodSchedule(cb, b, us[i], Restrict(q.a.doc, sb)) {
      GoodBack(cb, us[i], a, b, q.a.doc, sb);
    }
    RunFetchesBatches(cb, ca, Pair(q.b, q.a), us);
    RepeatedWalksConverge(crc, a, b, ca.cap, cb.cap, p.a.kind, p.b.kind, ca.me, cb.me, |ss|, |us|);
  }

  lemma OfferFits(a: seq<Entry>, b: seq<Entry>, cap: nat, s: Scope)
    requires Sorted(a) && Sorted(b) && HasRoom(a, cap, Restrict(b, s))
    requires forall e :: e in a + b ==> Acceptable(e)
    ensures Walkable(a, cap, Restrict(b, s))
    ensures |BehindOf(a, Restrict(b, s))| <= |Restrict(b, s)|
  {
    OfferIsAcceptable(b, a, s);
    BehindShorter(a, Restrict(b, s));
  }

  /** What `b` lacks of `a`'s document after `a` has pulled from it is `a`'s own: `b` is behind on
      nothing it sent itself. */
  lemma AheadIsOwn(a: seq<Entry>, b: seq<Entry>, a': seq<Entry>, s: Scope, e: Entry)
    requires Sorted(b) && forall x :: x in a' ==> x in a + b
    requires e in Restrict(a', s) && Behind(b, e)
    ensures e in Restrict(a, s)
  {
    RestrictMember(a', s, e);
    RestrictMember(a, s, e);
    if e in b { FindMember(b, e); }
  }

  lemma OfferFitsBack(a: seq<Entry>, b: seq<Entry>, a': seq<Entry>, cap: nat, s: Scope)
    requires Sorted(a) && Sorted(a') && Sorted(b) && HasRoom(b, cap, Restrict(a, s))
    requires forall e :: e in a + b ==> Acceptable(e)
    requires forall e :: e in a' ==> e in a + b
    ensures Walkable(b, cap, Restrict(a', s))
    ensures |BehindOf(b, Restrict(a', s))| <= |Restrict(a, s)|
  {
    hide Sorted, Restrict, Behind, BehindOf, Acceptable, Keys;
    OfferIsAcceptable(a', b, s);
    OfferIsAcceptable(a, b, s);
    OfferKeys(a, b, a', s);
    SubsetSize(Keys(b) + Keys(Restrict(a', s)), Keys(b) + Keys(Restrict(a, s)));
    var ahead := BehindOf(b, Restrict(a', s));
    BehindSorted(b, Restrict(a', s));
    forall e | e in ahead ensures e in Restrict(a, s) {
      BehindMember(b, Restrict(a', s), e);
      AheadIsOwn(a, b, a', s, e);
    }
    KeysMonotone(ahead, Restrict(a, s));
    SubsetSize(Keys(ahead), Keys(Restrict(a, s)));
    SortedKeysAreDistinct(ahead);
    SortedKeysAreDistinct(Restrict(a, s));
  }

  lemma OfferKeys(a: seq<Entry>, b: seq<Entry>, a': seq<Entry>, s: Scope)
    requires forall e :: e in a' ==> e in a + b
    ensures Keys(Restrict(a', s)) <= Keys(b) + Keys(Restrict(a, s))
  {
    forall e | e in Restrict(a', s) ensures e in Restrict(a, s) + b {
      RestrictMember(a', s, e);
      RestrictMember(a, s, e);
    }
    KeysWithin(Restrict(a', s), Restrict(a, s), b);
  }

  lemma GoodBack(c: Config, s: Schedule, a: seq<Entry>, b: seq<Entry>, a': seq<Entry>, mine: Scope)
    requires Sorted(b) && (forall x :: x in a' ==> x in a + b) && GoodSchedule(c, b, s, Restrict(a, mine))
    ensures GoodSchedule(c, b, s, Restrict(a', mine))
  {
    hide Behind, Restrict, Sorted;
    forall e | e in Restrict(a', mine) && Behind(b, e) ensures Trusted(c, s.wall, e) {
      AheadIsOwn(a, b, a', mine, e);
    }
  }

  lemma KeysWithin(a': seq<Entry>, a: seq<Entry>, b: seq<Entry>)
    requires forall e :: e in a' ==> e in a + b
    ensures Keys(a') <= Keys(a) + Keys(b)
  {
    forall k | k in Keys(a') ensures k in Keys(a) + Keys(b) {
      KeysMember(a', k);
      KeysMember(a, k);
      KeysMember(b, k);
      var i :| 0 <= i < |a'| && a'[i].key == k;
      assert a'[i] in a + b;
    }
  }

  /** Walks only ever bring in the peer's own entries. */
  lemma WalksStayInside(a: seq<Entry>, b: seq<Entry>, cap: nat, s: Scope, n: nat)
    requires Walkable(a, cap, Restrict(b, s))
    ensures var a' := Walks(a, cap, Restrict(b, s), n);
            Sorted(a') && forall e :: e in a' ==> e in a + b
  {
    var a' := Walks(a, cap, Restrict(b, s), n);
    WalksKeep(a, cap, Restrict(b, s), n);
    forall e | e in a' ensures e in a + b {
      FindMember(a', e);
      WalksOrigin(a, cap, Restrict(b, s), n, e.key);
      if Find(a, e.key) != Some(e) { RestrictMember(b, s, e); }
    }
  }

  lemma {:induction false} BehindShorter(t: seq<Entry>, es: seq<Entry>)
    ensures |BehindOf(t, es)| <= |es|
  {
    if |es| > 0 { BehindShorter(t, es[..|es| - 1]); }
  }
}
