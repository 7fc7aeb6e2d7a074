/** What a member makes of what it hears: a digest that differs opens a walk, fragments from any
    number of senders never splice into an entry nobody wrote, and running out of table narrows
    the claim at most once. */
module Gossip {
  import opened Bytes
  import opened Stamps
  import opened Document
  import opened Digest
  import opened Merge
  import Buckets
  import opened Fragments
  import opened Sync
  import opened Protocol
  import opened Invariants

  // ----- divergence is noticed ------------------------------------------------------------------

  /** What is compared decides: short of a CRC collision, an idle member opens a walk with the
      sender of a digest exactly when the two share a leg, their documents disagree on the
      compared scope, and the backoff does not hold the walk. */
  lemma WalkOpensExactly(c: Config, st: State, from: u32, theirs: seq<Entry>, d: ClusterDigest, wall: int, held: bool)
    requires Sorted(st.doc) && Sorted(theirs) && Describes(c.crc, d, theirs, from)
    requires var over := ComparedScope(Mine(c, st), ScopeFromWire(d.scope, from));
             !Collide(c.crc, Restrict(st.doc, over), Restrict(theirs, over))
    requires st.pull == PullIdle && from != 0 && from != c.me
    ensures var over := ComparedScope(Mine(c, st), ScopeFromWire(d.scope, from));
            var opens := Comparable(Mine(c, st), d) && !AgreeOn(st.doc, theirs, over) && !held;
            var st' := OnDigest(c, st, from, d, wall, held);
            st' == if opens then st.(hlc := st'.hlc, pull := SendVectorReq, pullPeer := from, pullKeys := [])
                   else st.(hlc := st'.hlc)
  {
    hide CompareDigest, Describes, AgreeOn, Collide, Restrict, ComparedScope, Sorted;
    ComparisonIsExact(c.crc, st.doc, theirs, Mine(c, st), from, d);
  }

  /** The compared scope can be smaller than what both claim. A CORE member compares only base
      with a FULL peer, so whatever differs in its own rows, such a peer's digest opens no walk. */
  lemma OwnRowsAreNotCompared(c: Config, st: State, from: u32, theirs: seq<Entry>, d: ClusterDigest, wall: int,
                              held: bool)
    requires Sorted(st.doc) && Sorted(theirs) && Describes(c.crc, d, theirs, from)
    requires st.kind == CoreKind && c.me != 0 && d.scope == WireFull && AgreeOn(st.doc, theirs, BASE_ONLY)
    ensures var st' := OnDigest(c, st, from, d, wall, held); st' == st.(hlc := st'.hlc)
    ensures forall s :: Contains(Intersect(Mine(c, st), ScopeFromWire(d.scope, from)), NodeKey(c.me, s))
  {
    hide AgreeOn, Sorted;
    assert ComparedScope(Mine(c, st), ScopeFromWire(d.scope, from)) == BASE_ONLY;
    AgreementIsEqualRows(st.doc, theirs, BASE_ONLY);
    LegsSeeOnlyVersions(c.crc, Restrict(st.doc, BASE_ONLY), Restrict(theirs, BASE_ONLY));
  }

  // ----- no entry is spliced, over every run -----------------------------------------------------

  /** Stamps of other nodes name versions that exist: the payload held is that version's. */
  predicate EntryHonest(c: Config, payloadOf: Version -> seq<byte>, e: Entry) {
    e.stamp.node != c.me ==> e.payload == payloadOf(EntryVersion(e))
  }

  ghost predicate DocHonest(c: Config, payloadOf: Version -> seq<byte>, st: State) {
    SlotHonest(payloadOf, st.slot) && forall e :: e in st.doc ==> EntryHonest(c, payloadOf, e)
  }

  /** Every fragment heard is a true slice of some version, and flash returns what was stored. */
  predicate HonestStep(c: Config, payloadOf: Version -> seq<byte>, step: Step) {
    && (step.HearEntry? ==> Honest(payloadOf, step.fragment))
    && (step.Load? ==> EntryHonest(c, payloadOf, step.entry))
  }

  lemma AcceptKeepsHonest(c: Config, payloadOf: Version -> seq<byte>, t: seq<Entry>, e: Entry, x: Entry)
    requires Sorted(t) && (forall y :: y in t ==> EntryHonest(c, payloadOf, y)) && EntryHonest(c, payloadOf, e)
    requires x in AcceptTable(t, c.cap, e)
    ensures EntryHonest(c, payloadOf, x)
  {
    hide EntryHonest;
    AcceptIsUpdate(t, c.cap, e, x.key);
    FindMember(AcceptTable(t, c.cap, e), x);
  }

  lemma RestrictKeepsHonest(c: Config, payloadOf: Version -> seq<byte>, t: seq<Entry>, s: Scope)
    requires forall y :: y in t ==> EntryHonest(c, payloadOf, y)
    ensures forall y :: y in Restrict(t, s) ==> EntryHonest(c, payloadOf, y)
  {
    forall y | y in Restrict(t, s) ensures EntryHonest(c, payloadOf, y) { RestrictMember(t, s, y); }
  }

  lemma HeardKeepsHonest(c: Config, payloadOf: Version -> seq<byte>, st: State, from: u32, f: Fragment, wall: int,
                         now: int)
    requires Sorted(st.doc) && DocHonest(c, payloadOf, st) && Honest(payloadOf, f)
    ensures DocHonest(c, payloadOf, OnEntry(c, st, from, f, wall, now))
  {
    hide Sorted, AcceptTable, Reassemble, ObserveAt, Honest, SlotHonest;
    StepNeverSplices(payloadOf, st.slot, Arrival(from, f, now), c.fragTimeout, FRAG_MAX);
    var (slot, out) := Reassemble(st.slot, from, f, now, c.fragTimeout, FRAG_MAX);
    if Admits(c, st, f.key, f.stamp, wall) && out.Some? {
      var e := Entry(f.key, f.stamp, f.tombstone, out.value, f.sig);
      assert EntryHonest(c, payloadOf, e);
      forall x | x in AcceptTable(st.doc, c.cap, e) ensures EntryHonest(c, payloadOf, x) {
        AcceptKeepsHonest(c, payloadOf, st.doc, e, x);
      }
    }
  }

  lemma WriteKeepsHonest(c: Config, payloadOf: Version -> seq<byte>, st: State, step: Step, now: int)
    requires DocSound(c, st) && DocHonest(c, payloadOf, st) && step.Write? && Legal(c, st, step)
    ensures DocHonest(c, payloadOf, Next(c, st, Event(now, step)))
  {
    hide Sorted, AcceptTable, AcceptVerdict, MintClock, Buckets.AfterRequest, Buckets.MayTake, Restrict, Acceptable;
    var (ready, e) := WriteTarget(c, st, step);
    var minted := st.(hlc := MintClock(st, step.storeStamp, step.wall));
    if !minted.pinned && minted.kind != CoreKind { ScopeSetKeepsDoc(c, minted, CoreKind, false); }
    RestrictKeepsHonest(c, payloadOf, st.doc, MyScope(CoreKind, c.me));
    assert EntryHonest(c, payloadOf, e);
    forall x | x in AcceptTable(ready.doc, c.cap, e) ensures EntryHonest(c, payloadOf, x) {
      AcceptKeepsHonest(c, payloadOf, ready.doc, e, x);
    }
  }

  lemma StepKeepsHonest(c: Config, payloadOf: Version -> seq<byte>, st: State, ev: Event)
    requires DocSound(c, st) && DocHonest(c, payloadOf, st)
    requires Legal(c, st, ev.step) && HonestStep(c, payloadOf, ev.step)
    ensures DocHonest(c, payloadOf, Next(c, st, ev))
  {
    hide Sorted, AcceptTable, Reassemble, ObserveAt, CompareDigest, DiffRows, TxNext, WriteLocal, OnEntry,
         EntryHonest, Buckets.AfterRequest, Buckets.MayTake;
    match ev.step
    case HearVector(_, _, _) => RestrictKeepsHonest(c, payloadOf, st.doc, MyScope(CoreKind, c.me));
    case HearEntry(from, f, wall) => HeardKeepsHonest(c, payloadOf, st, from, f, wall, ev.now);
    case Transmit => TransmitKeeps(c, st);
    case Write(_, _, _, _, _) => WriteKeepsHonest(c, payloadOf, st, ev.step, ev.now);
    case SelectScope(kind, _) => RestrictKeepsHonest(c, payloadOf, st.doc, MyScope(kind, c.me));
    case Load(e, _, _) =>
      forall x | x in AcceptTable(st.doc, c.cap, e) ensures EntryHonest(c, payloadOf, x) {
        AcceptKeepsHonest(c, payloadOf, st.doc, e, x);
      }
    case _ =>
  }

  /** Over every run in which senders tell the truth about what they hold, however their fragments
      interleave, get lost or repeated, an entry held under another node's stamp has exactly the
      payload of its version. */
  lemma {:induction false} RunNeverSplices(c: Config, payloadOf: Version -> seq<byte>, st: State, evs: seq<Event>)
    requires DocSound(c, st) && DocHonest(c, payloadOf, st) && LegalRun(c, st, evs)
    requires forall i :: 0 <= i < |evs| ==> HonestStep(c, payloadOf, evs[i].step)
    ensures DocHonest(c, payloadOf, Run(c, st, evs))
    decreases |evs|
  {
    hide DocSound, DocHonest, HonestStep, Next;
    if |evs| > 0 {
      RunNeverSplices(c, payloadOf, st, evs[..|evs| - 1]);
      RunKeepsDoc(c, st, evs[..|evs| - 1]);
      StepKeepsHonest(c, payloadOf, Run(c, st, evs[..|evs| - 1]), evs[|evs| - 1]);
    }
  }

  // ----- narrowing happens at most once -----------------------------------------------------------

  /** A table of twice the allowlist can hold all a CORE claim covers, so diffing against any rows
      a CORE member hears never reports overflow. */
  lemma {:induction false} CoreNeverOverflows(c: Config, st: State, wall: int, p: Pulling, rows: seq<Row>)
    requires DocSound(c, st) && st.kind == CoreKind && c.me != 0 && c.cap >= 2 * |SHAREABLE| && !p.noSpace
    ensures !DiffRows(st.doc, c.cap, Mine(c, st), wall, p, rows).noSpace
    decreases |rows|
  {
    hide ObserveAt, Sorted;
    if |rows| > 0 {
      var row := rows[|rows| - 1];
      CoreNeverOverflows(c, st, wall, p, rows[..|rows| - 1]);
      if Shareable(row.key.section) && KeyIsValid(row.key) && Contains(Mine(c, st), row.key)
         && Find(st.doc, row.key).None?
      {
        forall e | e in st.doc
          ensures Acceptable(e) && Shareable(e.key.section) && Contains(ScopeMake(CoreKind, c.me), e.key)
        {
          assert Storable(c, st, e);
        }
        CoreClaimFits(st.doc, c.me, row.key);
      }
    }
  }

  /** The operator has not chosen a scope. */
  predicate Unattended(evs: seq<Event>) {
    forall i :: 0 <= i < |evs| ==> !evs[i].step.SelectScope? && !evs[i].step.Clear?
  }

  /** This step narrowed the claim. */
  predicate Narrows(c: Config, st: State, ev: Event)
    requires ClockInRange(st, ev.step)
  {
    Next(c, st, ev).kind != st.kind
  }

  ghost function Narrowings(c: Config, st: State, evs: seq<Event>): (n: nat)
    requires LegalRun(c, st, evs)
    decreases |evs|
  {
    if |evs| == 0 then 0
    else Narrowings(c, st, evs[..|evs| - 1])
         + if Narrows(c, Run(c, st, evs[..|evs| - 1]), evs[|evs| - 1]) then 1 else 0
  }

  lemma KindChangesOnlyToCore(c: Config, st: State, ev: Event)
    requires Legal(c, st, ev.step) && !ev.step.SelectScope? && !ev.step.Clear?
    ensures Narrows(c, st, ev) ==> st.kind != CoreKind && !st.pinned && Next(c, st, ev).kind == CoreKind
    ensures Next(c, st, ev).pinned == st.pinned
  {
    hide Restrict, DiffRows, Reassemble, TxNext, AcceptTable, AcceptVerdict, ObserveAt, MintClock, MintedEntry,
         CompareDigest, Buckets.AfterRequest, Buckets.MayTake;
    if ev.step.Transmit? { TransmitKeeps(c, st); }
  }

  /** Left to itself a member narrows at most once over a whole run, and then claims CORE; it neither
      sets nor lifts a pin, and under one it does not narrow. */
  lemma {:induction false} NarrowsAtMostOnce(c: Config, st: State, evs: seq<Event>)
    requires LegalRun(c, st, evs) && Unattended(evs)
    ensures Narrowings(c, st, evs) <= 1
    ensures Run(c, st, evs).kind == if Narrowings(c, st, evs) == 0 then st.kind else CoreKind
    ensures Run(c, st, evs).pinned == st.pinned && (st.pinned ==> Narrowings(c, st, evs) == 0)
    decreases |evs|
  {
    hide Next, Legal;
    if |evs| > 0 {
      NarrowsAtMostOnce(c, st, evs[..|evs| - 1]);
      KindChangesOnlyToCore(c, Run(c, st, evs[..|evs| - 1]), evs[|evs| - 1]);
    }
  }
}
