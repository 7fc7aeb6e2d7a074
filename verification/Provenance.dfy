/** Where what a member holds comes from, and what its clock has seen, over every run. */
module Provenance {
  import opened Bytes
  import opened Stamps
  import opened Document
  import opened Digest
  import opened Merge
  import Buckets
  import opened Fragments
  import opened Sync
  import opened Protocol
  import opened Overflow
  import opened Invariants

  // ----- every entry is accounted for -------------------------------------------------------------

  /** A section all members share, and a key this member claims. */
  predicate Claimed(c: Config, st: State, e: Entry) {
    && e.key.section in SHAREABLE
    && (st.kind == FullKind || c.me == 0 || e.key.layer == LAYER_BASE || e.key.node == c.me)
  }

  /** The step that brought an entry in: heard from a peer with every gate passed, loaded from a
      well-formed record, or minted here. */
  ghost predicate BroughtBy(c: Config, st: State, step: Step, e: Entry) {
    || (&& step.HearEntry? && VersionOf(step.fragment) == EntryVersion(e) && Claimed(c, st, e)
        && c.gate(e.key, e.stamp) && c.vouch(e)
        && (step.wall <= 0 || e.stamp.physical <= step.wall + MAX_DRIFT_MS))
    || (step.Load? && step.entry == e && step.wellFormed && Claimed(c, st, e))
    || (&& step.Write? && ClockInRange(st, step)
        && e.key == step.key && e.tombstone == step.tombstone && e.payload == step.payload && e.stamp.node == c.me
        && e.sig == c.sign(e.(sig := None)))
  }

  lemma AcceptBrings(t: seq<Entry>, cap: nat, e: Entry, x: Entry)
    requires Sorted(t) && x in AcceptTable(t, cap, e)
    ensures x in t || x == e
  {
    AcceptIsUpdate(t, cap, e, x.key);
    FindMember(AcceptTable(t, cap, e), x);
  }

  lemma RestrictBrings(t: seq<Entry>, s: Scope, x: Entry)
    requires x in Restrict(t, s)
    ensures x in t
  {
    RestrictMember(t, s, x);
  }

  lemma HeardIsAuthorised(c: Config, st: State, from: u32, f: Fragment, wall: int, now: int, e: Entry)
    requires DocSound(c, st) && e in OnEntry(c, st, from, f, wall, now).doc
    ensures e in st.doc || BroughtBy(c, st, HearEntry(from, f, wall), e)
  {
    hide Sorted, AcceptTable, Reassemble, ObserveAt, Acceptable;
    var out := Reassemble(st.slot, from, f, now, c.fragTimeout, FRAG_MAX).1;
    if out.Some? {
      var x := Entry(f.key, f.stamp, f.tombstone, out.value, f.sig);
      if e in AcceptTable(st.doc, c.cap, x) { AcceptBrings(st.doc, c.cap, x, e); }
    }
  }

  /** A fragment of another section, outside the claim, too far ahead or from the wrong author changes
      nothing at all, and a whole entry that is not vouched for moves neither the document nor the
      clock. */
  lemma RefusedLeavesNoTrace(c: Config, st: State, from: u32, f: Fragment, wall: int, now: int)
    ensures f.key.section !in SHAREABLE || !Contains(Mine(c, st), f.key) || !c.gate(f.key, f.stamp)
            || (wall > 0 && f.stamp.physical > wall + MAX_DRIFT_MS) ==>
              OnEntry(c, st, from, f, wall, now) == st
    ensures var out := Reassemble(st.slot, from, f, now, c.fragTimeout, FRAG_MAX).1;
            out.None? || !c.vouch(Entry(f.key, f.stamp, f.tombstone, out.value, f.sig)) ==>
              OnEntry(c, st, from, f, wall, now) == st.(slot := OnEntry(c, st, from, f, wall, now).slot)
  {
    hide Reassemble, AcceptTable, ObserveAt;
  }

  lemma WrittenIsAsAsked(c: Config, st: State, ev: Event, e: Entry)
    requires DocSound(c, st) && Legal(c, st, ev.step) && ev.step.Write? && e in Next(c, st, ev).doc
    ensures e in st.doc || BroughtBy(c, st, ev.step, e)
  {
    hide Sorted, AcceptTable, AcceptVerdict, Restrict, MintClock, WriteLocal, Demote, Acceptable;
    var (ready, x) := WriteTarget(c, st, ev.step);
    WriteAccepts(c, st, ev.now, ev.step);
    RestrictSorted(st.doc, MyScope(CoreKind, c.me));
    AcceptBrings(ready.doc, c.cap, x, e);
    if e in Restrict(st.doc, MyScope(CoreKind, c.me)) { RestrictBrings(st.doc, MyScope(CoreKind, c.me), e); }
  }

  lemma StepIsAccounted(c: Config, st: State, ev: Event, e: Entry)
    requires DocSound(c, st) && Legal(c, st, ev.step) && e in Next(c, st, ev).doc
    ensures e in st.doc || BroughtBy(c, st, ev.step, e)
  {
    hide Sorted, AcceptTable, Restrict, Reassemble, ObserveAt, DiffRows, TxNext, CompareDigest, OnEntry, WriteLocal,
         Acceptable, BroughtBy, Buckets.AfterRequest, Buckets.MayTake;
    match ev.step
    case HearEntry(from, f, wall) => HeardIsAuthorised(c, st, from, f, wall, ev.now, e);
    case Write(_, _, _, _, _) => WrittenIsAsAsked(c, st, ev, e);
    case Load(x, wellFormed, wall) => LoadedIsTaken(c, st, x, wellFormed, wall, e);
    case HearVector(_, _, _) =>
      if e in Restrict(st.doc, MyScope(CoreKind, c.me)) { RestrictBrings(st.doc, MyScope(CoreKind, c.me), e); }
    case SelectScope(kind, _) => RestrictBrings(st.doc, MyScope(kind, c.me), e);
    case Transmit => TransmitKeeps(c, st);
    case _ =>
  }

  lemma LoadedIsTaken(c: Config, st: State, x: Entry, wellFormed: bool, wall: int, e: Entry)
    requires DocSound(c, st) && e in LoadRecord(c, st, x, wellFormed, wall).doc
    ensures e in st.doc || BroughtBy(c, st, Load(x, wellFormed, wall), e)
  {
    hide Sorted, AcceptTable, ObserveAt, Acceptable;
    if e in AcceptTable(st.doc, c.cap, x) { AcceptBrings(st.doc, c.cap, x, e); }
  }

  /** Held at the start, or brought in by some step of the run. */
  ghost predicate Accounted(c: Config, st: State, evs: seq<Event>, e: Entry)
    requires LegalRun(c, st, evs)
    decreases |evs|
  {
    if |evs| == 0 then e in st.doc
    else
      var init := evs[..|evs| - 1];
      Accounted(c, st, init, e) || BroughtBy(c, Run(c, st, init), evs[|evs| - 1].step, e)
  }

  /** Over every run nothing gets into the document but what was authorised: every entry held was
      there at the start, was written here as asked and signed, was loaded from a well-formed record
      inside the claim, or came from a peer, in scope, in horizon, past both gates. */
  lemma {:induction false} RunIsAccounted(c: Config, st: State, evs: seq<Event>, e: Entry)
    requires DocSound(c, st) && LegalRun(c, st, evs) && e in Run(c, st, evs).doc
    ensures Accounted(c, st, evs, e)
    decreases |evs|
  {
    hide DocSound, Next, BroughtBy;
    if |evs| > 0 {
      var init := evs[..|evs| - 1];
      RunKeepsDoc(c, st, init);
      StepIsAccounted(c, Run(c, st, init), evs[|evs| - 1], e);
      if e in Run(c, st, init).doc { RunIsAccounted(c, st, init, e); }
    }
  }

  /** Over every run every entry held is well formed: a bounded payload that is empty exactly for a
      tombstone, a key of the base layer without a node or of the node layer with one, no tombstone
      in base, a stamp, a shared section, inside the claim. And no key is held twice. */
  lemma HeldIsWellFormed(c: Config, kind: ScopeKind, pinned: bool, now: int, evs: seq<Event>, i: nat)
    requires kind != BaseKind && LegalRun(c, Init(kind, pinned, now), evs)
    requires i < |Run(c, Init(kind, pinned, now), evs).doc|
    ensures var st := Run(c, Init(kind, pinned, now), evs);
            var e := st.doc[i];
            && |e.payload| <= PAYLOAD_MAX && (e.tombstone <==> e.payload == [])
            && (e.key.layer == LAYER_BASE ==> e.key.node == 0 && !e.tombstone)
            && (e.key.layer != LAYER_BASE ==> e.key.layer == LAYER_NODE && e.key.node != 0)
            && e.stamp != UNSET && Claimed(c, st, e) && |st.doc| <= c.cap
            && forall j :: 0 <= j < |st.doc| && j != i ==> st.doc[j].key != e.key
  {
    hide Run, LegalRun;
    EmptySorted();
    RunKeepsDoc(c, Init(kind, pinned, now), evs);
    var st := Run(c, Init(kind, pinned, now), evs);
    assert Storable(c, st, st.doc[i]);
    forall j | 0 <= j < |st.doc| && j != i ensures st.doc[j].key != st.doc[i].key {
      if j < i { assert KeyCmp(st.doc[j].key, st.doc[i].key) < 0; } else { assert KeyCmp(st.doc[i].key, st.doc[j].key) < 0; }
    }
  }

  // ----- the clock has seen it ----------------------------------------------------------------------

  /** A stamp the step lets the clock see: a digest's newest, a row that is reached, an ingested
      entry's, a loaded record's, the config store's, each within the drift limit. */
  ghost predicate Sees(c: Config, st: State, ev: Event, s: Stamp) {
    match ev.step
    case HearDigest(_, d, wall, _) => s == d.maxStamp && !Clamped(s, wall)
    case HearVector(from, v, wall) =>
      && st.pull == AwaitVector && from == st.pullPeer && |st.pullKeys| <= PULL_KEYS
      && exists i :: && 0 <= i < |v.rows| && v.rows[i].stamp == s && v.rows[i].key.section in SHAREABLE
                     && Reached(st.doc, c.cap, Mine(c, st), wall, |st.pullKeys|, v.rows, i)
                     && (wall <= 0 || s.physical <= wall + MAX_DRIFT_MS)
    case HearEntry(from, f, wall) =>
      var out := Reassemble(st.slot, from, f, ev.now, c.fragTimeout, FRAG_MAX).1;
      && s == f.stamp && Admits(c, st, f.key, s, wall) && out.Some?
      && c.vouch(Entry(f.key, s, f.tombstone, out.value, f.sig))
    case Load(e, wellFormed, wall) =>
      s == e.stamp && Shareable(e.key.section) && wellFormed && Contains(Mine(c, st), e.key) && !Clamped(s, wall)
    case Write(_, storeStamp, _, _, wall) => s == storeStamp && !Clamped(s, wall)
    case _ => false
  }

  lemma ObservedIsCovered(h: Hlc, s: Stamp, wall: int)
    requires !Clamped(s, wall)
    ensures Covers(ObserveAt(h, s, wall), s)
  {
    ObservePassesRemote(h, s, wall);
    AfterCovers(ObserveAt(h, s, wall), s);
  }

  lemma StepSees(c: Config, st: State, ev: Event, s: Stamp)
    requires Legal(c, st, ev.step) && Sees(c, st, ev, s)
    ensures Covers(Next(c, st, ev).hlc, s)
  {
    hide Sorted, AcceptTable, Restrict, Reassemble, ObserveAt, LocalAt, DiffRows, CompareDigest, Covers, Reached,
         AcceptVerdict, MintedEntry, PushEnqueue;
    match ev.step
    case HearDigest(_, _, wall, _) => ObservedIsCovered(st.hlc, s, wall);
    case HearVector(_, v, wall) =>
      var i :| && 0 <= i < |v.rows| && v.rows[i].stamp == s && v.rows[i].key.section in SHAREABLE
               && Reached(st.doc, c.cap, Mine(c, st), wall, |st.pullKeys|, v.rows, i);
      DiffSees(st.doc, c.cap, Mine(c, st), wall, Pulling(st.pullKeys, st.hlc, false), v.rows, i);
    case HearEntry(_, _, wall) => ObservedIsCovered(st.hlc, s, wall);
    case Load(_, _, wall) => ObservedIsCovered(st.hlc, s, wall);
    case Write(_, _, _, _, wall) =>
      ObservedIsCovered(st.hlc, s, wall);
      CoverIsStable(ObserveAt(st.hlc, s, wall), s, s, wall);
      WriteKeepsHlc(c, st, ev);
    case _ =>
  }

  lemma WriteKeepsHlc(c: Config, st: State, ev: Event)
    requires ev.step.Write? && Legal(c, st, ev.step)
    ensures Next(c, st, ev).hlc == LocalAt(ObserveAt(st.hlc, ev.step.storeStamp, ev.step.wall), ev.step.wall)
  {
    hide AcceptTable, Restrict, AcceptVerdict, MintedEntry, ObserveAt, LocalAt, Buckets.AfterRequest, Buckets.MayTake;
  }

  /** No step takes the clock back behind a stamp it covers. */
  lemma StepKeepsClock(c: Config, st: State, ev: Event, s: Stamp)
    requires Legal(c, st, ev.step) && Covers(st.hlc, s)
    ensures Covers(Next(c, st, ev).hlc, s)
  {
    hide Sorted, AcceptTable, Restrict, Reassemble, ObserveAt, LocalAt, DiffRows, CompareDigest, Covers, WriteLocal,
         TxNext, Buckets.AfterRequest, Buckets.MayTake;
    match ev.step
    case HearDigest(_, d, wall, _) => CoverIsStable(st.hlc, s, d.maxStamp, wall);
    case HearVector(_, v, wall) =>
      DiffKeepsClock(st.doc, c.cap, Mine(c, st), wall, Pulling(st.pullKeys, st.hlc, false), v.rows, s);
    case HearEntry(_, f, wall) => CoverIsStable(st.hlc, s, f.stamp, wall);
    case Load(e, _, wall) => CoverIsStable(st.hlc, s, e.stamp, wall);
    case Write(_, storeStamp, _, _, wall) =>
      CoverIsStable(st.hlc, s, storeStamp, wall);
      CoverIsStable(ObserveAt(st.hlc, storeStamp, wall), s, storeStamp, wall);
      WriteKeepsHlc(c, st, ev);
    case Transmit => TransmitKeeps(c, st);
    case _ =>
  }

  /** Seen at some step of the run. */
  ghost predicate SeenIn(c: Config, st: State, evs: seq<Event>, s: Stamp)
    requires LegalRun(c, st, evs)
    decreases |evs|
  {
    |evs| > 0 && var init := evs[..|evs| - 1];
    SeenIn(c, st, init, s) || Sees(c, Run(c, st, init), evs[|evs| - 1], s)
  }

  lemma {:induction false} RunCoversSeen(c: Config, st: State, evs: seq<Event>, s: Stamp)
    requires LegalRun(c, st, evs) && SeenIn(c, st, evs, s)
    ensures Covers(Run(c, st, evs).hlc, s)
    decreases |evs|
  {
    hide Next, Sees, Covers, Legal;
    var init, ev := evs[..|evs| - 1], evs[|evs| - 1];
    if SeenIn(c, st, init, s) {
      RunCoversSeen(c, st, init, s);
      StepKeepsClock(c, Run(c, st, init), ev, s);
    } else {
      StepSees(c, Run(c, st, init), ev, s);
    }
  }

  /** Over every run a write outranks every stamp the member has seen before it, from whomever and
      in whatever message, as long as it was within the drift limit when it was seen. */
  lemma WriteOutranksSeen(c: Config, st: State, evs: seq<Event>, s: Stamp, step: Step)
    requires LegalRun(c, st, evs) && SeenIn(c, st, evs, s)
    requires step.Write? && ClockInRange(Run(c, st, evs), step)
    ensures Newer(WriteTarget(c, Run(c, st, evs), step).1.stamp, s)
  {
    hide Run, LegalRun, SeenIn, ObserveAt, LocalAt, Covers, Newer, AcceptVerdict, Demote;
    var end := Run(c, st, evs);
    RunCoversSeen(c, st, evs, s);
    CoverIsStable(end.hlc, s, step.storeStamp, step.wall);
    MintOutranksCovered(ObserveAt(end.hlc, step.storeStamp, step.wall), s, c.me, step.wall);
  }

  // ----- the walk in hand ------------------------------------------------------------------------------

  /** A walk is with another, known member, asks for at most a batch, and for something if it asks;
      without one there is no peer and no batch. */
  predicate PullSound(c: Config, st: State) {
    && |st.pullKeys| <= PULL_KEYS
    && (st.pull != PullIdle ==> st.pullPeer != 0 && st.pullPeer != c.me)
    && (st.pull == SendEntryReq ==> st.pullKeys != [])
    && (st.pull == PullIdle ==> st.pullPeer == 0 && st.pullKeys == [])
  }

  lemma VectorKeepsPull(c: Config, st: State, from: u32, v: Vector, wall: int)
    requires PullSound(c, st)
    ensures PullSound(c, OnVector(c, st, from, v, wall))
  {
    hide DiffRows, Restrict, WantedAmong;
    DiffTakes(st.doc, c.cap, Mine(c, st), wall, Pulling(st.pullKeys, st.hlc, false), v.rows);
  }

  lemma TransmitKeepsPull(c: Config, st: State)
    requires PullSound(c, st)
    ensures PullSound(c, TxNext(c, st).0)
  {
    hide TxEntry, TxVector, TxPush;
    assert TxEntry(st).0 == st.(entDest := TxEntry(st).0.entDest, entNext := TxEntry(st).0.entNext,
                                entOff := TxEntry(st).0.entOff);
  }

  lemma EntryKeepsPull(c: Config, st: State, from: u32, f: Fragment, wall: int, now: int)
    requires PullSound(c, st)
    ensures PullSound(c, OnEntry(c, st, from, f, wall, now))
  {
    hide Reassemble, AcceptTable, ObserveAt;
  }

  lemma DemoteKeepsPull(c: Config, st: State)
    requires PullSound(c, st)
    ensures PullSound(c, Demote(c, st))
  {
    hide Restrict;
  }

  lemma EnqueueKeepsPull(c: Config, st: State, key: Key, now: int)
    requires PullSound(c, st)
    ensures PullSound(c, PushEnqueue(c, st, key, now))
  {
    hide Buckets.AfterRequest, Buckets.MayTake;
  }

  lemma WriteKeepsPull(c: Config, st: State, ev: Event)
    requires PullSound(c, st) && ev.step.Write? && Legal(c, st, ev.step)
    ensures PullSound(c, Next(c, st, ev))
  {
    hide Demote, PushEnqueue, AcceptTable, AcceptVerdict, MintClock, MintedEntry;
    var minted := st.(hlc := MintClock(st, ev.step.storeStamp, ev.step.wall));
    DemoteKeepsPull(c, minted);
    forall ready | PullSound(c, ready) ensures PullSound(c, PushEnqueue(c, ready, ev.step.key, ev.now)) {
      EnqueueKeepsPull(c, ready, ev.step.key, ev.now);
    }
  }

  lemma StepKeepsPull(c: Config, st: State, ev: Event)
    requires PullSound(c, st) && Legal(c, st, ev.step)
    ensures PullSound(c, Next(c, st, ev))
  {
    hide Restrict, DiffRows, OnVector, OnEntry, WriteLocal, AcceptTable, ObserveAt, CompareDigest, TxNext,
         Buckets.AfterRequest, Buckets.MayTake;
    match ev.step
    case HearVector(from, v, wall) => VectorKeepsPull(c, st, from, v, wall);
    case HearEntry(from, f, wall) => EntryKeepsPull(c, st, from, f, wall, ev.now);
    case Write(_, _, _, _, _) => WriteKeepsPull(c, st, ev);
    case Transmit => TransmitKeepsPull(c, st);
    case _ =>
  }

  /** Over every run a member never pulls from itself or from nobody, and its batch never overflows. */
  lemma {:induction false} RunKeepsPull(c: Config, st: State, evs: seq<Event>)
    requires PullSound(c, st) && LegalRun(c, st, evs)
    ensures PullSound(c, Run(c, st, evs))
    decreases |evs|
  {
    hide Next, PullSound, Legal;
    if |evs| > 0 {
      RunKeepsPull(c, st, evs[..|evs| - 1]);
      StepKeepsPull(c, Run(c, st, evs[..|evs| - 1]), evs[|evs| - 1]);
    }
  }
}
