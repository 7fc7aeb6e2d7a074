/** What every step of a member keeps, over every run: the table matches the claim, the
    clock stays ahead of the document, a local write lands, and transmissions stay within
    budget. */
module Invariants {
  import opened Arithmetic
  import opened Bytes
  import opened Stamps
  import opened Document
  import opened Digest
  import opened Merge
  import opened Buckets
  import opened Fragments
  import opened Sync
  import opened Protocol

  datatype Step =
    | Pull(peer: u32)
    | HearDigest(from: u32, digest: ClusterDigest, wall: int, held: bool)
    | ExpirePull
    | DropChannel
    | HearVectorReq(from: u32, scope: WireScope)
    | HearVector(from: u32, vector: Vector, wall: int)
    | HearEntryReq(from: u32, keys: seq<Key>)
    | HearEntry(from: u32, fragment: Fragment, wall: int)
    | Transmit
    | Write(key: Key, storeStamp: Stamp, tombstone: bool, payload: seq<byte>, wall: int)
    | SelectScope(kind: ScopeKind, pinned: bool)
    | Clear(kind: ScopeKind, pinned: bool)
    | Load(entry: Entry, wellFormed: bool, wall: int)

  datatype Event = Event(now: int, step: Step)

  /** A wall clock past the end of the signed 64-bit range cannot stamp a write. */
  predicate ClockInRange(st: State, step: Step) {
    step.Write? ==> MintClock(st, step.storeStamp, step.wall).physical <= PHYSICAL_END
  }

  function Next(c: Config, st: State, ev: Event): State
    requires ClockInRange(st, ev.step)
  {
    match ev.step
    case Pull(peer) => PullStart(c, st, peer)
    case HearDigest(from, d, wall, held) => OnDigest(c, st, from, d, wall, held)
    case ExpirePull => PullExpires(st)
    case DropChannel => LoseChannel(st)
    case HearVectorReq(from, scope) => OnVectorReq(c, st, from, scope, ev.now)
    case HearVector(from, v, wall) => OnVector(c, st, from, v, wall)
    case HearEntryReq(from, keys) => OnEntryReq(c, st, from, keys, ev.now)
    case HearEntry(from, f, wall) => OnEntry(c, st, from, f, wall, ev.now)
    case Transmit => TxNext(c, st).0
    case Write(key, storeStamp, tombstone, payload, wall) =>
      WriteLocal(c, st, key, storeStamp, tombstone, payload, wall, ev.now).0
    case SelectScope(kind, pinned) => ScopeSet(c, st, kind, pinned)
    case Clear(kind, pinned) => Reset(c, st, kind, pinned)
    case Load(e, wellFormed, wall) => LoadRecord(c, st, e, wellFormed, wall)
  }

  /** The steps the firmware takes: writes name an allowlisted section at BASE or this
      node, and only CORE and FULL are ever claimed. */
  predicate Legal(c: Config, st: State, step: Step) {
    && ClockInRange(st, step)
    && (step.Write? ==> Shareable(step.key.section) && Contains(ScopeMake(CoreKind, c.me), step.key))
    && (step.SelectScope? ==> step.kind != BaseKind)
    && (step.Clear? ==> step.kind != BaseKind)
  }

  ghost predicate LegalRun(c: Config, st: State, evs: seq<Event>)
    decreases |evs|, 0
  {
    |evs| == 0 ||
    (LegalRun(c, st, evs[..|evs| - 1])
     && Legal(c, Run(c, st, evs[..|evs| - 1]), evs[|evs| - 1].step))
  }

  ghost function Run(c: Config, st: State, evs: seq<Event>): State
    requires LegalRun(c, st, evs)
    decreases |evs|, 1
  {
    if |evs| == 0 then st else Next(c, Run(c, st, evs[..|evs| - 1]), evs[|evs| - 1])
  }

  // ----- the document matches the claim ---------------------------------------------------

  predicate Storable(c: Config, st: State, e: Entry) {
    Acceptable(e) && Shareable(e.key.section) && Contains(Mine(c, st), e.key)
  }

  /** Sorted, bounded, and holding only what this node claims to track. */
  predicate DocSound(c: Config, st: State) {
    && st.kind != BaseKind && Sorted(st.doc) && |st.doc| <= c.cap
    && forall e :: e in st.doc ==> Storable(c, st, e)
  }

  lemma AcceptKeepsDoc(c: Config, st: State, e: Entry)
    requires DocSound(c, st) && Shareable(e.key.section) && Contains(Mine(c, st), e.key)
    ensures DocSound(c, st.(doc := AcceptTable(st.doc, c.cap, e)))
  {
    var t' := AcceptTable(st.doc, c.cap, e);
    AcceptIsUpdate(st.doc, c.cap, e, e.key);
    forall x | x in t' ensures Storable(c, st, x) {
      FindMember(t', x);
      AcceptIsUpdate(st.doc, c.cap, e, x.key);
    }
  }

  lemma ScopeSetKeepsDoc(c: Config, st: State, kind: ScopeKind, pinned: bool)
    requires DocSound(c, st) && kind != BaseKind
    ensures DocSound(c, ScopeSet(c, st, kind, pinned))
  {
    var s := MyScope(kind, c.me);
    RestrictSorted(st.doc, s);
    SortedKeysAreDistinct(st.doc);
    RestrictIsShorter(st.doc, s);
    forall e | e in Restrict(st.doc, s) ensures Acceptable(e) && Shareable(e.key.section) && Contains(s, e.key) {
      RestrictMember(st.doc, s, e);
      assert Storable(c, st, e);
    }
  }

  lemma WriteKeepsDoc(c: Config, st: State, now: int, step: Step)
    requires DocSound(c, st) && step.Write? && Legal(c, st, step)
    ensures DocSound(c, Next(c, st, Event(now, step)))
  {
    hide Sorted, AcceptTable, Restrict, Acceptable, AcceptVerdict, AfterRequest, MayTake, MintClock;
    var e := MintedEntry(c, st, step.key, step.storeStamp, step.tombstone, step.payload, step.wall);
    var minted := st.(hlc := MintClock(st, step.storeStamp, step.wall));
    if !minted.pinned && minted.kind != CoreKind { ScopeSetKeepsDoc(c, minted, CoreKind, false); }
    var ready := if AcceptVerdict(minted.doc, c.cap, e) == NoSpace then Demote(c, minted) else minted;
    AcceptKeepsDoc(c, ready, e);
  }

  lemma StepKeepsDoc(c: Config, st: State, ev: Event)
    requires DocSound(c, st) && Legal(c, st, ev.step)
    ensures DocSound(c, Next(c, st, ev))
  {
    hide Sorted, AcceptTable, Restrict, Acceptable, DiffRows, Reassemble, CompareDigest, ObserveAt, TxNext, OnEntry,
         AfterRequest, MayTake, WriteLocal;
    match ev.step
    case HearVector(from, v, wall) =>
      if !st.pinned && st.kind != CoreKind {
        var p := DiffRows(st.doc, c.cap, Mine(c, st), wall, Pulling(st.pullKeys, st.hlc, false), v.rows);
        ScopeSetKeepsDoc(c, st.(pullKeys := p.keys, hlc := p.hlc), CoreKind, false);
      }
    case HearEntry(from, f, wall) => EntryKeepsDoc(c, st, from, f, wall, ev.now);
    case Transmit => TransmitKeeps(c, st);
    case Write(_, _, _, _, _) => WriteKeepsDoc(c, st, ev.now, ev.step);
    case SelectScope(kind, pinned) => ScopeSetKeepsDoc(c, st, kind, pinned);
    case Clear(_, _) => EmptySorted();
    case Load(e, _, _) => if Shareable(e.key.section) && Contains(Mine(c, st), e.key) { AcceptKeepsDoc(c, st, e); }
    case _ =>
  }

  lemma EntryKeepsDoc(c: Config, st: State, from: u32, f: Fragment, wall: int, now: int)
    requires DocSound(c, st)
    ensures DocSound(c, OnEntry(c, st, from, f, wall, now))
  {
    hide Sorted, AcceptTable, Acceptable, Reassemble, ObserveAt;
    if Admits(c, st, f.key, f.stamp, wall) {
      var out := Reassemble(st.slot, from, f, now, c.fragTimeout, FRAG_MAX).1;
      if out.Some? { AcceptKeepsDoc(c, st, Entry(f.key, f.stamp, f.tombstone, out.value, f.sig)); }
    }
  }

  lemma EmptySorted()
    ensures Sorted([])
  {
  }

  /** Sending changes only the cursors of what is being sent. */
  lemma TransmitKeeps(c: Config, st: State)
    ensures var st' := TxNext(c, st).0;
            && st'.doc == st.doc && st'.kind == st.kind && st'.pinned == st.pinned && st'.hlc == st.hlc
            && st'.slot == st.slot && st'.serve == st.serve && st'.pushes == st.pushes
            && |st'.push| <= |st.push| && st'.entKeys == st.entKeys
  {
    hide TxEntry, TxVector, TxPush;
    assert TxEntry(st).0 == st.(entDest := TxEntry(st).0.entDest, entNext := TxEntry(st).0.entNext,
                                entOff := TxEntry(st).0.entOff);
  }

  /** The table never leaves the claim, over every run. */
  lemma {:induction false} RunKeepsDoc(c: Config, st: State, evs: seq<Event>)
    requires DocSound(c, st) && LegalRun(c, st, evs)
    ensures DocSound(c, Run(c, st, evs))
    decreases |evs|
  {
    hide DocSound, Next;
    if |evs| > 0 {
      RunKeepsDoc(c, st, evs[..|evs| - 1]);
      StepKeepsDoc(c, Run(c, st, evs[..|evs| - 1]), evs[|evs| - 1]);
    }
  }

  /** So a node never advertises a document it does not hold: over every run its digest,
      taken over what it claims, covers exactly what it holds. */
  lemma DigestCoversTheDocument(crc: Crc, c: Config, kind: ScopeKind, pinned: bool, now: int, evs: seq<Event>)
    requires kind != BaseKind && LegalRun(c, Init(kind, pinned, now), evs)
    ensures var st := Run(c, Init(kind, pinned, now), evs);
            var d := BuildDigest(crc, st.doc, Mine(c, st));
            && d.docHash == HashRows(crc, st.doc) && d.entryCount == |st.doc| && d.maxStamp == MaxStamp(st.doc)
  {
    RunKeepsDoc(c, Init(kind, pinned, now), evs);
    var st := Run(c, Init(kind, pinned, now), evs);
    RestrictIdentity(st.doc, Mine(c, st));
  }

  // ----- a narrowed table always has room ---------------------------------------------------

  /** The keys a CORE claim can ever hold. */
  function CoreKeys(sections: seq<u16>, me: u32): (ks: set<Key>)
    ensures |ks| <= 2 * |sections|
  {
    if |sections| == 0 then {}
    else CoreKeys(sections[1..], me) + {BaseKey(sections[0]), NodeKey(me, sections[0])}
  }

  lemma {:induction false} CoreKeyMember(sections: seq<u16>, me: u32, k: Key)
    requires KeyIsValid(k) && Contains(ScopeMake(CoreKind, me), k) && k.section in sections
    ensures k in CoreKeys(sections, me)
  {
    if k.section != sections[0] { CoreKeyMember(sections[1..], me, k); }
  }

  /** A table within CORE(me) has room for any allowlisted CORE(me) key it lacks. */
  lemma CoreClaimFits(t: seq<Entry>, me: u32, key: Key)
    requires Sorted(t) && KeyIsValid(key) && Shareable(key.section) && Contains(ScopeMake(CoreKind, me), key)
    requires forall e :: e in t ==> Acceptable(e) && Shareable(e.key.section)
                                    && Contains(ScopeMake(CoreKind, me), e.key)
    requires Find(t, key).None?
    ensures |t| < 2 * |SHAREABLE|
  {
    var all := CoreKeys(SHAREABLE, me);
    forall k | k in Keys(t) ensures k in all {
      FindIsKeys(t, k);
      assert Find(t, k).value in t;
      CoreKeyMember(SHAREABLE, me, k);
    }
    CoreKeyMember(SHAREABLE, me, key);
    FindIsKeys(t, key);
    SortedKeysAreDistinct(t);
    SubsetSize(Keys(t) + {key}, all);
  }

  /** A local write to a key this node owns is refused for space exactly when the table is
      full, the key is new, and the claim cannot be narrowed: it is pinned FULL, or the node
      has no id to narrow to. Otherwise it is stored, provided the clock covers what it
      replaces. */
  lemma LocalWriteOutcome(c: Config, st: State, now: int, step: Step)
    requires DocSound(c, st) && step.Write? && Legal(c, st, step)
    requires c.cap >= 2 * |SHAREABLE|
    requires Acceptable(MintedEntry(c, st, step.key, step.storeStamp, step.tombstone, step.payload, step.wall))
    requires Find(st.doc, step.key).Some? ==> Covers(st.hlc, Find(st.doc, step.key).value.stamp)
    ensures var v := WriteLocal(c, st, step.key, step.storeStamp, step.tombstone, step.payload, step.wall, now).1;
            var stuck := |st.doc| >= c.cap && Find(st.doc, step.key).None?
                         && (c.me == 0 || (st.kind == FullKind && st.pinned));
            (v == NoSpace <==> stuck) && (v == Stored <==> !stuck)
  {
    hide Sorted, AcceptTable, Acceptable, PushEnqueue, ObserveAt, LocalAt, Covers;
    var e := MintedEntry(c, st, step.key, step.storeStamp, step.tombstone, step.payload, step.wall);
    var held := Find(st.doc, step.key);
    assert KeyIsValid(step.key) by { AcceptableKey(e); }
    if held.Some? {
      CoverIsStable(st.hlc, held.value.stamp, step.storeStamp, step.wall);
      MintOutranksCovered(ObserveAt(st.hlc, step.storeStamp, step.wall), held.value.stamp, c.me, step.wall);
    } else if |st.doc| >= c.cap && c.me != 0 {
      var core := ScopeMake(CoreKind, c.me);
      if st.kind == CoreKind {
        CoreClaimFits(st.doc, c.me, step.key);
      } else if !st.pinned {
        RestrictFind(st.doc, core, step.key);
        forall x | x in Restrict(st.doc, core)
          ensures Acceptable(x) && Shareable(x.key.section) && Contains(core, x.key)
        {
          RestrictMember(st.doc, core, x);
          assert Storable(c, st, x);
        }
        CoreClaimFits(Restrict(st.doc, core), c.me, step.key);
      }
    } else if |st.doc| >= c.cap && !st.pinned && st.kind != CoreKind {
      assert forall x :: x in st.doc ==> Contains(MyScope(CoreKind, c.me), x.key);
      RestrictIdentity(st.doc, MyScope(CoreKind, c.me));
    }
  }

  lemma AcceptableKey(e: Entry)
    requires Acceptable(e)
    ensures KeyIsValid(e.key)
  {
  }

  // ----- the clock covers the document -----------------------------------------------------

  /** The next stamp this node mints outranks every version it holds. */
  predicate Covered(st: State) {
    forall e :: e in st.doc ==> Covers(st.hlc, e.stamp)
  }

  /** A record is loadable without losing that: within the drift horizon, or already covered. */
  predicate LoadsCovered(st: State, step: Step) {
    step.Load? ==> !Clamped(step.entry.stamp, step.wall) || Covers(st.hlc, step.entry.stamp)
  }

  lemma AcceptKeepsCover(st: State, cap: nat, e: Entry, h: Hlc)
    requires Sorted(st.doc) && Covered(st.(hlc := h)) && Covers(h, e.stamp)
    ensures Covered(st.(doc := AcceptTable(st.doc, cap, e), hlc := h))
  {
    var t' := AcceptTable(st.doc, cap, e);
    AcceptIsUpdate(st.doc, cap, e, e.key);
    forall x | x in t' ensures Covers(h, x.stamp) {
      FindMember(t', x);
      AcceptIsUpdate(st.doc, cap, e, x.key);
    }
  }

  lemma ClockAdvances(st: State, remote: Stamp, wall: int)
    requires Covered(st)
    ensures Covered(st.(hlc := ObserveAt(st.hlc, remote, wall)))
    ensures Covered(st.(hlc := LocalAt(st.hlc, wall)))
  {
    forall e | e in st.doc
      ensures Covers(ObserveAt(st.hlc, remote, wall), e.stamp) && Covers(LocalAt(st.hlc, wall), e.stamp)
    {
      CoverIsStable(st.hlc, e.stamp, remote, wall);
    }
  }

  lemma {:induction false} DiffAdvances(st: State, cap: nat, mine: Scope, wall: int, rows: seq<Row>)
    requires Covered(st)
    ensures Covered(st.(hlc := DiffRows(st.doc, cap, mine, wall, Pulling(st.pullKeys, st.hlc, false), rows).hlc))
    decreases |rows|
  {
    hide ObserveAt, WantRow;
    if |rows| > 0 {
      var init, last := rows[..|rows| - 1], rows[|rows| - 1];
      DiffAdvances(st, cap, mine, wall, init);
      var p := DiffRows(st.doc, cap, mine, wall, Pulling(st.pullKeys, st.hlc, false), init);
      ClockAdvances(st.(hlc := p.hlc), last.stamp, wall);
    }
  }

  lemma NarrowKeepsCover(c: Config, st: State, kind: ScopeKind, pinned: bool)
    requires Covered(st)
    ensures Covered(ScopeSet(c, st, kind, pinned))
  {
    forall e | e in Restrict(st.doc, MyScope(kind, c.me)) ensures Covers(st.hlc, e.stamp) {
      RestrictMember(st.doc, MyScope(kind, c.me), e);
    }
  }

  lemma WriteKeepsCover(c: Config, st: State, now: int, step: Step)
    requires DocSound(c, st) && Covered(st) && step.Write? && Legal(c, st, step)
    ensures Covered(Next(c, st, Event(now, step)))
  {
    hide Sorted, AcceptTable, Restrict, Acceptable, ObserveAt, LocalAt, Covers, AcceptVerdict, AfterRequest, MayTake;
    var e := MintedEntry(c, st, step.key, step.storeStamp, step.tombstone, step.payload, step.wall);
    var h1 := ObserveAt(st.hlc, step.storeStamp, step.wall);
    var minted := st.(hlc := LocalAt(h1, step.wall));
    ClockAdvances(st, step.storeStamp, step.wall);
    ClockAdvances(st.(hlc := h1), step.storeStamp, step.wall);
    assert Covers(minted.hlc, e.stamp) by { MintIsCovered(minted.hlc, e.stamp); }
    NarrowKeepsCover(c, minted, CoreKind, false);
    if !minted.pinned && minted.kind != CoreKind { ScopeSetKeepsDoc(c, minted, CoreKind, false); }
    var ready := if AcceptVerdict(minted.doc, c.cap, e) == NoSpace then Demote(c, minted) else minted;
    AcceptKeepsCover(ready, c.cap, e, minted.hlc);
  }

  lemma MintIsCovered(h: Hlc, s: Stamp)
    requires h.physical == s.physical && h.counter == s.counter
    ensures Covers(h, s)
  {
  }

  lemma StepKeepsCover(c: Config, st: State, ev: Event)
    requires DocSound(c, st) && Covered(st) && Legal(c, st, ev.step) && LoadsCovered(st, ev.step)
    ensures Covered(Next(c, st, ev))
  {
    hide Sorted, AcceptTable, Restrict, Acceptable, DiffRows, Reassemble, ObserveAt, Covers, LocalAt;
    match ev.step
    case HearVector(from, v, wall) =>
      DiffAdvances(st, c.cap, Mine(c, st), wall, v.rows);
      var p := DiffRows(st.doc, c.cap, Mine(c, st), wall, Pulling(st.pullKeys, st.hlc, false), v.rows);
      NarrowKeepsCover(c, st.(pullKeys := p.keys, hlc := p.hlc), CoreKind, false);
    case HearEntry(from, f, wall) =>
      EntryKeepsCover(c, st, from, f, ev.now, wall);
    case Transmit => TransmitKeeps(c, st);
    case Write(_, _, _, _, _) => WriteKeepsCover(c, st, ev.now, ev.step);
    case SelectScope(kind, pinned) => NarrowKeepsCover(c, st, kind, pinned);
    case HearDigest(_, d, wall, _) => ClockAdvances(st, d.maxStamp, wall);
    case Load(e, _, wall) =>
      SeenIsCovered(st, e.stamp, wall);
      AcceptKeepsCover(st, c.cap, e, ObserveAt(st.hlc, e.stamp, wall));
    case _ =>
  }

  lemma EntryKeepsCover(c: Config, st: State, from: u32, f: Fragment, now: int, wall: int)
    requires DocSound(c, st) && Covered(st)
    ensures Covered(OnEntry(c, st, from, f, wall, now))
  {
    hide Sorted, AcceptTable, Restrict, Acceptable, Reassemble, ObserveAt, Covers;
    if Admits(c, st, f.key, f.stamp, wall) {
      var out := Reassemble(st.slot, from, f, now, c.fragTimeout, FRAG_MAX).1;
      if out.Some? {
        SeenIsCovered(st, f.stamp, wall);
        AcceptKeepsCover(st, c.cap, Entry(f.key, f.stamp, f.tombstone, out.value, f.sig),
                         ObserveAt(st.hlc, f.stamp, wall));
      }
    }
  }

  lemma SeenIsCovered(st: State, s: Stamp, wall: int)
    requires Covered(st) && (!Clamped(s, wall) || Covers(st.hlc, s))
    ensures Covered(st.(hlc := ObserveAt(st.hlc, s, wall))) && Covers(ObserveAt(st.hlc, s, wall), s)
  {
    ClockAdvances(st, s, wall);
    ObservePassesRemote(st.hlc, s, wall);
  }

  ghost predicate CoveredRun(c: Config, st: State, evs: seq<Event>)
    requires LegalRun(c, st, evs)
    decreases |evs|
  {
    |evs| == 0 ||
    (CoveredRun(c, st, evs[..|evs| - 1])
     && LoadsCovered(Run(c, st, evs[..|evs| - 1]), evs[|evs| - 1].step))
  }

  /** Over every run whose loaded records are within the drift horizon, the clock outranks
      everything held, so "freshly minted stamps are strictly newer than anything seen". */
  lemma {:induction false} RunKeepsCover(c: Config, st: State, evs: seq<Event>)
    requires DocSound(c, st) && Covered(st) && LegalRun(c, st, evs) && CoveredRun(c, st, evs)
    ensures Covered(Run(c, st, evs))
    decreases |evs|
  {
    hide DocSound, Next, Covered, LoadsCovered;
    if |evs| > 0 {
      RunKeepsCover(c, st, evs[..|evs| - 1]);
      RunKeepsDoc(c, st, evs[..|evs| - 1]);
      StepKeepsCover(c, Run(c, st, evs[..|evs| - 1]), evs[|evs| - 1]);
    }
  }

  /** "A freshly minted stamp is strictly newer than anything seen" fails for a version beyond the
      drift horizon. In any state, rewriting a key that is held is stored exactly when one of three
      clocks outranks the held version: the wall clock, this node's clock bumped twice, or the
      config store's stamp, as far as the drift guard lets it through, bumped twice. */
  lemma RewriteIsStoredExactly(c: Config, st: State, step: Step, held: Entry, now: int)
    requires Sorted(st.doc) && held in st.doc && step.Write? && step.key == held.key && ClockInRange(st, step)
    requires Acceptable(MintedEntry(c, st, step.key, step.storeStamp, step.tombstone, step.payload, step.wall))
    ensures WriteLocal(c, st, step.key, step.storeStamp, step.tombstone, step.payload, step.wall, now).1 == Stored
            <==> || Outranks(Hlc(ClockReading(step.wall), 1), c.me, held.stamp)
                 || Outranks(Twice(st.hlc), c.me, held.stamp)
                 || Outranks(Twice(SeenAs(step.storeStamp, step.wall)), c.me, held.stamp)
  {
    hide Sorted, Acceptable, ObserveAt, LocalAt, Outranks, Newer, PushEnqueue, Demote, AcceptTable;
    FindMember(st.doc, held);
    MintIsTheLatest(st.hlc, step.storeStamp, step.wall, c.me, held.stamp);
    OutranksIsNewer(MintClock(st, step.storeStamp, step.wall), c.me, held.stamp);
  }

  /** So at boot, with one record loaded, rewriting its key is stored exactly when the record was
      not clamped against the clock at load time, or the clock at write time has passed it. */
  lemma LoadedFutureRecordBlocksWrites(c: Config, kind: ScopeKind, pinned: bool, record: Entry,
                                       payload: seq<byte>, loadWall: int, writeWall: int, now: int)
    requires kind != BaseKind && c.cap > 0 && Acceptable(record) && Shareable(record.key.section)
    requires Contains(MyScope(kind, c.me), record.key) && 0 < |payload| <= PAYLOAD_MAX
    requires record.stamp.physical < PHYSICAL_END - 2
    requires loadWall < PHYSICAL_END - 2 && writeWall < PHYSICAL_END - 2
    ensures var st := LoadRecord(c, Init(kind, pinned, now), record, true, loadWall);
            && MintClock(st, UNSET, writeWall).physical <= PHYSICAL_END
            && (WriteLocal(c, st, record.key, UNSET, false, payload, writeWall, now).1 == Stored
                <==> || !Clamped(record.stamp, loadWall)
                     || Newer(Stamp(ClockReading(writeWall), 1, c.me), record.stamp))
  {
    hide ObserveAt, LocalAt, Covers;
    var st := LoadRecord(c, Init(kind, pinned, now), record, true, loadWall);
    assert AcceptTable([], c.cap, record) == [record];
    MintAfterLoad(record.stamp, loadWall, writeWall, c.me);
    assert Find(st.doc, record.key) == Some(record);
  }

  /** What a clock that has seen only one record mints, against that record. */
  lemma MintAfterLoad(s: Stamp, loadWall: int, writeWall: int, node: u32)
    requires s.physical < PHYSICAL_END - 2 && loadWall < PHYSICAL_END - 2 && writeWall < PHYSICAL_END - 2
    ensures var minted := LocalAt(ObserveAt(ObserveAt(Hlc(0, 0), s, loadWall), UNSET, writeWall), writeWall);
            && minted.physical <= PHYSICAL_END && MintedStamp(minted, node) != UNSET
            && (Newer(MintedStamp(minted, node), s)
                <==> !Clamped(s, loadWall) || Newer(Stamp(ClockReading(writeWall), 1, node), s))
  {
    var seen := ObserveAt(Hlc(0, 0), s, loadWall);
    var h := ObserveAt(seen, UNSET, writeWall);
    ObservePassesRemote(Hlc(0, 0), s, loadWall);
    if !Clamped(s, loadWall) {
      CoverIsStable(seen, s, UNSET, writeWall);
      MintOutranksCovered(h, s, node, writeWall);
    }
  }

  /** The document a write finds once it has made room, and what it stores there. */
  function WriteTarget(c: Config, st: State, step: Step): (State, Entry)
    requires step.Write? && ClockInRange(st, step)
  {
    var e := MintedEntry(c, st, step.key, step.storeStamp, step.tombstone, step.payload, step.wall);
    var minted := st.(hlc := MintClock(st, step.storeStamp, step.wall));
    (if AcceptVerdict(minted.doc, c.cap, e) == NoSpace then Demote(c, minted) else minted, e)
  }

  lemma WriteAccepts(c: Config, st: State, now: int, step: Step)
    requires step.Write? && ClockInRange(st, step)
    ensures var (ready, e) := WriteTarget(c, st, step);
            var (st', v) := WriteLocal(c, st, step.key, step.storeStamp, step.tombstone, step.payload, step.wall, now);
            && v == AcceptVerdict(ready.doc, c.cap, e) && st'.doc == AcceptTable(ready.doc, c.cap, e)
            && st'.kind == ready.kind
            && (ready.doc == st.doc || ready.doc == Restrict(st.doc, MyScope(CoreKind, c.me)))
  {
    hide Restrict, AcceptTable, AcceptVerdict, MintClock, MintedEntry, AfterRequest, MayTake, MyScope;
  }

  /** `publish` may name another node without a scope check. Such a write takes the table out of
      its claim exactly when the entry is well formed and new here, and either there is room and
      the claim lacks the key, or narrowing makes the room and CORE lacks the key. */
  predicate LeavesClaim(c: Config, st: State, e: Entry) {
    var core := MyScope(CoreKind, c.me);
    && Acceptable(e) && Find(st.doc, e.key).None?
    && if |st.doc| < c.cap then !Contains(Mine(c, st), e.key)
       else !st.pinned && st.kind != CoreKind && !Contains(core, e.key) && |Restrict(st.doc, core)| < c.cap
  }

  lemma PublishKeepsClaimExactly(c: Config, st: State, now: int, step: Step)
    requires DocSound(c, st) && step.Write? && ClockInRange(st, step) && Shareable(step.key.section)
    ensures var e := MintedEntry(c, st, step.key, step.storeStamp, step.tombstone, step.payload, step.wall);
            var st' := WriteLocal(c, st, step.key, step.storeStamp, step.tombstone, step.payload, step.wall, now).0;
            DocSound(c, st') <==> !LeavesClaim(c, st, e)
  {
    hide Sorted, AcceptTable, Restrict, Acceptable, WriteLocal, MintClock, Contains;
    var core := MyScope(CoreKind, c.me);
    var (ready, e) := WriteTarget(c, st, step);
    WriteAccepts(c, st, now, step);
    StoredInsideClaim(c, st, now, step);
    RestrictFind(st.doc, core, step.key);
    if Find(st.doc, step.key).Some? { assert Storable(c, st, Find(st.doc, step.key).value); }
  }

  /** The same of the claim the write ends under. */
  lemma StoredInsideClaim(c: Config, st: State, now: int, step: Step)
    requires DocSound(c, st) && step.Write? && ClockInRange(st, step) && Shareable(step.key.section)
    ensures var (st', v) := WriteLocal(c, st, step.key, step.storeStamp, step.tombstone, step.payload, step.wall, now);
            DocSound(c, st') <==> (v == Stored ==> Contains(Mine(c, st'), step.key))
  {
    hide Sorted, AcceptTable, Restrict, Acceptable, WriteLocal, MintClock, ScopeSet;
    var (ready, e) := WriteTarget(c, st, step);
    WriteAccepts(c, st, now, step);
    var minted := st.(hlc := MintClock(st, step.storeStamp, step.wall));
    if !minted.pinned && minted.kind != CoreKind { ScopeSetKeepsDoc(c, minted, CoreKind, false); }
    if Contains(Mine(c, ready), e.key) { AcceptKeepsDoc(c, ready, e); }
    AcceptIsUpdate(ready.doc, c.cap, e, e.key);
    RefusedIsUnchanged(ready.doc, c.cap, e);
  }

  /** A stored local write is the newest version of its section here, it outranks the config
      store it was made from, it decides what this node runs, and, narrowing or not, it
      changes nothing else this node runs. */
  lemma LocalWriteTakesEffect(c: Config, st: State, now: int, step: Step, section: u16)
    requires DocSound(c, st) && Covered(st) && step.Write? && Legal(c, st, step) && c.me != 0
    requires WriteLocal(c, st, step.key, step.storeStamp, step.tombstone, step.payload, step.wall, now).1 == Stored
    ensures var t' := WriteLocal(c, st, step.key, step.storeStamp, step.tombstone, step.payload, step.wall, now).0.doc;
            var e := WriteTarget(c, st, step).1;
            var pin, base := Find(st.doc, NodeKey(c.me, section)), Find(st.doc, BaseKey(section));
            if section != step.key.section then
              && Effective(t', c.me, section) == Effective(st.doc, c.me, section)
              && EffectiveVersion(t', c.me, section) == EffectiveVersion(st.doc, c.me, section)
            else
              && EffectiveVersion(t', c.me, section) == Some(e.stamp)
              && (!Clamped(step.storeStamp, step.wall) ==> Newer(e.stamp, step.storeStamp))
              && Effective(t', c.me, section)
                 == if step.tombstone then (if base.Some? && !base.value.tombstone then base else None)
                    else if step.key.layer == LAYER_BASE && pin.Some? && !pin.value.tombstone then pin
                    else Some(e)
  {
    hide Sorted, AcceptTable, Restrict, WriteLocal, MintClock, ScopeSet, Find;
    var (ready, e) := WriteTarget(c, st, step);
    WriteAccepts(c, st, now, step);
    var core := ScopeMake(CoreKind, c.me);
    forall k | k == NodeKey(c.me, section) || k == BaseKey(section)
      ensures Sorted(ready.doc) && Find(ready.doc, k) == Find(st.doc, k)
      ensures Find(AcceptTable(ready.doc, c.cap, e), k) == if k == e.key then Some(e) else Find(st.doc, k)
      ensures Find(st.doc, k).Some? ==> Newer(e.stamp, Find(st.doc, k).value.stamp)
    {
      RestrictFind(st.doc, core, k);
      AcceptIsUpdate(ready.doc, c.cap, e, k);
      if Find(st.doc, k).Some? { MintOutranksHeld(c, st, step, Find(st.doc, k).value); }
    }
    MintOutranksStore(c, st, step);
    assert NodeKey(c.me, section) != BaseKey(section);
    assert step.key == NodeKey(c.me, step.key.section) || step.key == BaseKey(step.key.section);
  }

  lemma MintOutranksHeld(c: Config, st: State, step: Step, held: Entry)
    requires Covered(st) && step.Write? && ClockInRange(st, step) && held in st.doc
    ensures Newer(WriteTarget(c, st, step).1.stamp, held.stamp)
  {
    CoverIsStable(st.hlc, held.stamp, step.storeStamp, step.wall);
    MintOutranksCovered(ObserveAt(st.hlc, step.storeStamp, step.wall), held.stamp, c.me, step.wall);
  }

  lemma MintOutranksStore(c: Config, st: State, step: Step)
    requires step.Write? && ClockInRange(st, step)
    ensures !Clamped(step.storeStamp, step.wall) ==> Newer(WriteTarget(c, st, step).1.stamp, step.storeStamp)
    ensures Newer(WriteTarget(c, st, step).1.stamp, UNSET)
  {
    ObservePassesRemote(st.hlc, step.storeStamp, step.wall);
    var h := ObserveAt(st.hlc, step.storeStamp, step.wall);
    if !Clamped(step.storeStamp, step.wall) { MintOutranksCovered(h, step.storeStamp, c.me, step.wall); }
    MintOutranksCovered(h, UNSET, c.me, step.wall);
  }

  // ----- budgets over a whole run ----------------------------------------------------------

  /** This step queued a change broadcast. */
  predicate QueuesPush(c: Config, st: State, ev: Event)
    requires ClockInRange(st, ev.step)
  {
    ev.step.Write? && |Next(c, st, ev).push| > |st.push|
  }

  /** This step began serving a reply walk: a stamp vector or an entry burst. */
  predicate StartsReply(c: Config, st: State, ev: Event) {
    && ((ev.step.HearVectorReq? && st.vecDest == 0) || (ev.step.HearEntryReq? && st.entDest == 0))
    && MayTake(st.serve, ev.now, c.serveInterval, SERVE_BURST)
  }

  ghost function PushesQueued(c: Config, st: State, evs: seq<Event>): nat
    requires LegalRun(c, st, evs)
    decreases |evs|
  {
    if |evs| == 0 then 0
    else PushesQueued(c, st, evs[..|evs| - 1])
         + if QueuesPush(c, Run(c, st, evs[..|evs| - 1]), evs[|evs| - 1]) then 1 else 0
  }

  ghost function RepliesStarted(c: Config, st: State, evs: seq<Event>): nat
    requires LegalRun(c, st, evs)
    decreases |evs|
  {
    if |evs| == 0 then 0
    else RepliesStarted(c, st, evs[..|evs| - 1])
         + if StartsReply(c, Run(c, st, evs[..|evs| - 1]), evs[|evs| - 1]) then 1 else 0
  }

  /** Time does not run backwards, and every event is at or after `start`. */
  predicate Ordered(evs: seq<Event>, start: int) {
    && (forall i :: 0 <= i < |evs| ==> start <= evs[i].now)
    && forall i, j :: 0 <= i < j < |evs| ==> evs[i].now <= evs[j].now
  }

  /** A step leaves each budget alone, or spends a request against it. */
  lemma StepSpends(c: Config, st: State, ev: Event)
    requires Legal(c, st, ev.step)
    ensures var st' := Next(c, st, ev);
            && ((st'.serve == st.serve && !StartsReply(c, st, ev))
                || (st'.serve == AfterRequest(st.serve, ev.now, c.serveInterval, SERVE_BURST)
                    && StartsReply(c, st, ev) == MayTake(st.serve, ev.now, c.serveInterval, SERVE_BURST)))
            && ((st'.pushes == st.pushes && !QueuesPush(c, st, ev))
                || (st'.pushes == AfterRequest(st.pushes, ev.now, c.pushInterval, PUSH_BURST)
                    && QueuesPush(c, st, ev) == MayTake(st.pushes, ev.now, c.pushInterval, PUSH_BURST)))
  {
    hide Restrict, DiffRows, Reassemble, TxNext, AfterRequest, MayTake, AcceptTable, ObserveAt, WriteLocal;
    match ev.step
    case Transmit => TransmitKeeps(c, st);
    case Write(_, _, _, _, _) => WriteSpends(c, st, ev);
    case _ =>
  }

  lemma EnqueueSpends(c: Config, st: State, key: Key, now: int)
    ensures var st' := PushEnqueue(c, st, key, now);
            && st'.serve == st.serve && |st'.push| >= |st.push|
            && ((st'.pushes == st.pushes && |st'.push| == |st.push|)
                || (st'.pushes == AfterRequest(st.pushes, now, c.pushInterval, PUSH_BURST)
                    && (|st'.push| > |st.push| <==> MayTake(st.pushes, now, c.pushInterval, PUSH_BURST))))
  {
    hide AfterRequest, MayTake;
  }

  lemma DemoteSpends(c: Config, st: State)
    ensures var st' := Demote(c, st); st'.serve == st.serve && st'.pushes == st.pushes && st'.push == st.push
  {
    hide Restrict;
  }

  lemma WriteSpends(c: Config, st: State, ev: Event)
    requires ev.step.Write? && Legal(c, st, ev.step)
    ensures var st' := Next(c, st, ev);
            && st'.serve == st.serve
            && ((st'.pushes == st.pushes && !QueuesPush(c, st, ev))
                || (st'.pushes == AfterRequest(st.pushes, ev.now, c.pushInterval, PUSH_BURST)
                    && QueuesPush(c, st, ev) == MayTake(st.pushes, ev.now, c.pushInterval, PUSH_BURST)))
  {
    hide PushEnqueue, Demote, AcceptTable, AfterRequest, MayTake, AcceptVerdict, MintClock, MintedEntry;
    var (ready, e) := WriteTarget(c, st, ev.step);
    DemoteSpends(c, st.(hlc := MintClock(st, ev.step.storeStamp, ev.step.wall)));
    EnqueueSpends(c, ready.(doc := AcceptTable(ready.doc, c.cap, e)), ev.step.key, ev.now);
  }

  lemma {:induction false} RepliesArePaid(c: Config, kind: ScopeKind, pinned: bool, start: int, evs: seq<Event>)
    returns (intervals: nat)
    requires LegalRun(c, Init(kind, pinned, start), evs) && Ordered(evs, start) && c.serveInterval > 0
    ensures Paid(Run(c, Init(kind, pinned, start), evs).serve, RepliesStarted(c, Init(kind, pinned, start), evs),
                 start, c.serveInterval, SERVE_BURST, intervals)
    ensures intervals == 0 || (|evs| > 0 && start + intervals * c.serveInterval <= evs[|evs| - 1].now)
    decreases |evs|
  {
    hide Next, QueuesPush, StartsReply, AfterRequest, MayTake, MintClock;
    var st0 := Init(kind, pinned, start);
    if |evs| == 0 {
      intervals := 0;
    } else {
      var init, ev := evs[..|evs| - 1], evs[|evs| - 1];
      intervals := RepliesArePaid(c, kind, pinned, start, init);
      var st := Run(c, st0, init);
      assert st.serve.refill <= ev.now;
      StepSpends(c, st, ev);
      var more := RequestIsPaid(st.serve, RepliesStarted(c, st0, init), start,
                                c.serveInterval, SERVE_BURST, intervals, ev.now);
      if Next(c, st, ev).serve != st.serve || StartsReply(c, st, ev) { intervals := more; }
    }
  }

  lemma {:induction false} PushesArePaid(c: Config, kind: ScopeKind, pinned: bool, start: int, evs: seq<Event>)
    returns (intervals: nat)
    requires LegalRun(c, Init(kind, pinned, start), evs) && Ordered(evs, start) && c.pushInterval > 0
    ensures Paid(Run(c, Init(kind, pinned, start), evs).pushes, PushesQueued(c, Init(kind, pinned, start), evs),
                 start, c.pushInterval, PUSH_BURST, intervals)
    ensures intervals == 0 || (|evs| > 0 && start + intervals * c.pushInterval <= evs[|evs| - 1].now)
    decreases |evs|
  {
    hide Next, QueuesPush, StartsReply, AfterRequest, MayTake, MintClock;
    var st0 := Init(kind, pinned, start);
    if |evs| == 0 {
      intervals := 0;
    } else {
      var init, ev := evs[..|evs| - 1], evs[|evs| - 1];
      intervals := PushesArePaid(c, kind, pinned, start, init);
      var st := Run(c, st0, init);
      assert st.pushes.refill <= ev.now;
      StepSpends(c, st, ev);
      var more := RequestIsPaid(st.pushes, PushesQueued(c, st0, init), start,
                                c.pushInterval, PUSH_BURST, intervals, ev.now);
      if Next(c, st, ev).pushes != st.pushes || QueuesPush(c, st, ev) { intervals := more; }
    }
  }

  /** Over every run, whatever is asked of it: at time T after init a node with reply interval I
      has started at most SERVE_BURST + T/I reply walks. */
  lemma RepliesStayInBudget(c: Config, kind: ScopeKind, pinned: bool, start: int, evs: seq<Event>)
    requires LegalRun(c, Init(kind, pinned, start), evs) && Ordered(evs, start) && |evs| > 0
    requires c.serveInterval > 0
    ensures RepliesStarted(c, Init(kind, pinned, start), evs)
            <= SERVE_BURST + (evs[|evs| - 1].now - start) / c.serveInterval
  {
    hide Run, RepliesStarted;
    var intervals := RepliesArePaid(c, kind, pinned, start, evs);
    QuotientIsGreatest(intervals, evs[|evs| - 1].now - start, c.serveInterval);
  }

  /** And with push interval I it has queued at most PUSH_BURST + T/I broadcasts. */
  lemma PushesStayInBudget(c: Config, kind: ScopeKind, pinned: bool, start: int, evs: seq<Event>)
    requires LegalRun(c, Init(kind, pinned, start), evs) && Ordered(evs, start) && |evs| > 0
    requires c.pushInterval > 0
    ensures PushesQueued(c, Init(kind, pinned, start), evs)
            <= PUSH_BURST + (evs[|evs| - 1].now - start) / c.pushInterval
  {
    hide Run, PushesQueued;
    var intervals := PushesArePaid(c, kind, pinned, start, evs);
    QuotientIsGreatest(intervals, evs[|evs| - 1].now - start, c.pushInterval);
  }
}
