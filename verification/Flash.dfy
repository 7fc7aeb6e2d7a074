/** What is in flash over a run: every stored entry is written, every evicted one deleted if the
    delete lands. Deletes may fail, and a reboot still rebuilds the document. */
module Flash {
  import opened Bytes
  import opened Stamps
  import opened Document
  import opened Digest
  import opened Merge
  import Buckets
  import opened Fragments
  import opened Sync
  import opened Protocol
  import opened Invariants
  import opened Persistence
  import Gossip

  type Records = map<string, Record>

  /** What a step writes to flash: the entry it stored. */
  function Persisted(c: Config, st: State, ev: Event): (r: Option<Entry>)
    requires ClockInRange(st, ev.step)
  {
    match ev.step
    case HearEntry(from, f, wall) =>
      var out := Reassemble(st.slot, from, f, ev.now, c.fragTimeout, FRAG_MAX).1;
      if !Admits(c, st, f.key, f.stamp, wall) || out.None? then None
      else
        var e := Entry(f.key, f.stamp, f.tombstone, out.value, f.sig);
        if c.vouch(e) && AcceptVerdict(st.doc, c.cap, e) == Stored then Some(e) else None
    case Write(_, _, _, _, _) =>
      var (ready, e) := WriteTarget(c, st, ev.step);
      if AcceptVerdict(ready.doc, c.cap, e) == Stored then Some(e) else None
    case _ => None
  }

  // ----- the shape of a step -----------------------------------------------------------------------

  /** What a step leaves of the old document. */
  function Survivors(c: Config, st: State, ev: Event): (t: seq<Entry>)
    requires ClockInRange(st, ev.step)
  {
    if ev.step.Clear? then [] else Restrict(st.doc, Mine(c, Next(c, st, ev)))
  }

  function Updated(c: Config, t: seq<Entry>, stored: Option<Entry>): (t': seq<Entry>) {
    if stored.Some? then AcceptTable(t, c.cap, stored.value) else t
  }

  lemma SameClaimKeepsAll(c: Config, st: State)
    requires DocSound(c, st)
    ensures Restrict(st.doc, Mine(c, st)) == st.doc
  {
    RestrictIdentity(st.doc, Mine(c, st));
  }

  lemma WriteShape(c: Config, st: State, ev: Event)
    requires DocSound(c, st) && Legal(c, st, ev.step) && ev.step.Write?
    ensures Next(c, st, ev).doc == Updated(c, Survivors(c, st, ev), Persisted(c, st, ev))
    ensures Persisted(c, st, ev).Some? ==> AcceptVerdict(Survivors(c, st, ev), c.cap, Persisted(c, st, ev).value) == Stored
  {
    hide Restrict, AcceptTable, AcceptVerdict, MintClock, MintedEntry, PushEnqueue, WriteLocal, DocSound;
    var (ready, e) := WriteTarget(c, st, ev.step);
    WriteAccepts(c, st, ev.now, ev.step);
    RefusedIsUnchanged(ready.doc, c.cap, e);
    SameClaimKeepsAll(c, st);
  }

  lemma HeardShape(c: Config, st: State, ev: Event)
    requires DocSound(c, st) && Legal(c, st, ev.step) && ev.step.HearEntry?
    ensures Next(c, st, ev).doc == Updated(c, Survivors(c, st, ev), Persisted(c, st, ev))
    ensures Persisted(c, st, ev).Some? ==> AcceptVerdict(Survivors(c, st, ev), c.cap, Persisted(c, st, ev).value) == Stored
  {
    hide Restrict, AcceptTable, AcceptVerdict, Reassemble, ObserveAt, DocSound;
    SameClaimKeepsAll(c, st);
    var f := ev.step.fragment;
    var out := Reassemble(st.slot, ev.step.from, f, ev.now, c.fragTimeout, FRAG_MAX).1;
    if out.Some? { RefusedIsUnchanged(st.doc, c.cap, Entry(f.key, f.stamp, f.tombstone, out.value, f.sig)); }
  }

  /** Every step but a load is: restrict the document to the claim it ends under, or empty it, and
      then store what it persists. */
  lemma StepShape(c: Config, st: State, ev: Event)
    requires DocSound(c, st) && Legal(c, st, ev.step) && !ev.step.Load?
    ensures Next(c, st, ev).doc == Updated(c, Survivors(c, st, ev), Persisted(c, st, ev))
    ensures Persisted(c, st, ev).Some? ==> AcceptVerdict(Survivors(c, st, ev), c.cap, Persisted(c, st, ev).value) == Stored
  {
    hide Restrict, AcceptTable, AcceptVerdict, Reassemble, ObserveAt, DocSound, DiffRows, TxNext, CompareDigest, OnEntry,
         WriteLocal, Buckets.AfterRequest, Buckets.MayTake;
    SameClaimKeepsAll(c, st);
    match ev.step
    case HearEntry(_, _, _) => HeardShape(c, st, ev);
    case Write(_, _, _, _, _) => WriteShape(c, st, ev);
    case Transmit => TransmitKeeps(c, st);
    case _ =>
  }

  // ----- flash tracks the document -------------------------------------------------------------------

  lemma NamesAreDistinct(a: Key, b: Key)
    requires KeyIsValid(a) && KeyIsValid(b) && RecName(a) == RecName(b)
    ensures a == b
  {
    hide RecName, ParseSpec;
    NameRoundTrip(a);
    NameRoundTrip(b);
  }

  /** A name of a key the member no longer claims. */
  ghost predicate Leftover(c: Config, st: State, name: string) {
    exists k :: KeyIsValid(k) && name == RecName(k) && !Contains(Mine(c, st), k)
  }

  ghost predicate Named(t: seq<Entry>, name: string) { exists e :: e in t && name == RecName(e.key) }

  predicate Keepable(wellFormed: Entry -> bool, e: Entry) { SignatureShaped(e) && wellFormed(e) }

  /** Every entry is in flash under its name, and what else is there is outside the claim. */
  ghost predicate Tracks(c: Config, st: State, wellFormed: Entry -> bool, flash: Records) {
    && (forall e :: e in st.doc ==>
          RecName(e.key) in flash && flash[RecName(e.key)] == Encode(e) && Keepable(wellFormed, e))
    && forall n :: n in flash ==> Named(st.doc, n) || Leftover(c, st, n)
  }

  /** A step and the names whose deletion landed during it. */
  datatype Moment = Moment(event: Event, gone: set<string>)

  function FlashNext(c: Config, st: State, flash: Records, m: Moment): (flash': Records)
    requires ClockInRange(st, m.event.step)
  {
    var e := Persisted(c, st, m.event);
    var kept := flash - m.gone;
    if e.Some? then kept[RecName(e.value.key) := Encode(e.value)] else kept
  }

  /** What a claim loses it may keep in flash; so a claim is widened only over a clean flash, and a
      reset clears all of it. Only evicted names are deleted, and what is stored is well formed. */
  ghost predicate LegalMoment(c: Config, st: State, wellFormed: Entry -> bool, flash: Records, m: Moment) {
    && Legal(c, st, m.event.step) && !m.event.step.Load?
    && (forall e :: e in Next(c, st, m.event).doc ==> RecName(e.key) !in m.gone)
    && (m.event.step.Clear? ==> flash.Keys <= m.gone)
    && (m.event.step.SelectScope? && m.event.step.kind != st.kind && st.kind == CoreKind ==>
          forall n :: n in flash ==> Named(st.doc, n))
    && (Persisted(c, st, m.event).Some? ==> Keepable(wellFormed, Persisted(c, st, m.event).value))
  }

  lemma ClaimShrinks(c: Config, st: State, ev: Event, k: Key)
    requires DocSound(c, st) && Legal(c, st, ev.step) && !ev.step.Clear?
    requires ev.step.SelectScope? ==> ev.step.kind == st.kind || st.kind != CoreKind
    requires Contains(Mine(c, Next(c, st, ev)), k)
    ensures Contains(Mine(c, st), k)
  {
    if ev.step.SelectScope? {
      assert Next(c, st, ev).kind == ev.step.kind;
    } else {
      hide Next;
      Gossip.KindChangesOnlyToCore(c, st, ev);
    }
  }

  /** Where an entry of the new document comes from. */
  lemma NewDocument(c: Config, st: State, ev: Event, e: Entry)
    requires DocSound(c, st) && Legal(c, st, ev.step) && !ev.step.Load?
    ensures e in Next(c, st, ev).doc ==> e in Survivors(c, st, ev) || Persisted(c, st, ev) == Some(e)
    ensures e in Next(c, st, ev).doc && Persisted(c, st, ev).Some? && Persisted(c, st, ev).value.key == e.key ==>
              Persisted(c, st, ev) == Some(e)
    ensures Persisted(c, st, ev) == Some(e) ==> e in Next(c, st, ev).doc
    ensures e in Survivors(c, st, ev) ==> exists x :: x in Next(c, st, ev).doc && x.key == e.key
  {
    hide Next, Persisted, Survivors, AcceptTable, AcceptVerdict, Sorted, Find;
    StepShape(c, st, ev);
    StepKeepsDoc(c, st, ev);
    SurvivorsSorted(c, st, ev);
    var t, p := Survivors(c, st, ev), Persisted(c, st, ev);
    var t' := Next(c, st, ev).doc;
    if p.Some? {
      AcceptIsUpdate(t, c.cap, p.value, e.key);
      AcceptIsUpdate(t, c.cap, p.value, p.value.key);
    }
    if e in t' { FindMember(t', e); }
    if e in t {
      FindMember(t, e);
      assert Find(t', e.key).Some?;
      assert Find(t', e.key).value in t';
    }
  }

  lemma SurvivorsSorted(c: Config, st: State, ev: Event)
    requires DocSound(c, st) && Legal(c, st, ev.step)
    ensures Sorted(Survivors(c, st, ev))
  {
    hide Next, Restrict;
    if ev.step.Clear? { EmptySorted(); } else { RestrictSorted(st.doc, Mine(c, Next(c, st, ev))); }
  }

  lemma SurvivorsAreOld(c: Config, st: State, ev: Event, e: Entry)
    requires DocSound(c, st) && Legal(c, st, ev.step)
    ensures e in Survivors(c, st, ev)
            <==> e in st.doc && !ev.step.Clear? && Contains(Mine(c, Next(c, st, ev)), e.key)
  {
    hide Next;
    RestrictMember(st.doc, Mine(c, Next(c, st, ev)), e);
  }

  lemma StepWritesItsEntries(c: Config, st: State, wellFormed: Entry -> bool, flash: Records, m: Moment, e: Entry)
    requires DocSound(c, st) && Tracks(c, st, wellFormed, flash) && LegalMoment(c, st, wellFormed, flash, m)
    requires e in Next(c, st, m.event).doc
    ensures var flash' := FlashNext(c, st, flash, m);
            RecName(e.key) in flash' && flash'[RecName(e.key)] == Encode(e) && Keepable(wellFormed, e)
  {
    hide Next, Persisted, Survivors, RecName, Encode, Keepable;
    NewDocument(c, st, m.event, e);
    var p := Persisted(c, st, m.event);
    if p != Some(e) {
      SurvivorsAreOld(c, st, m.event, e);
      if p.Some? && RecName(p.value.key) == RecName(e.key) {
        StepKeepsDoc(c, st, m.event);
        NewDocument(c, st, m.event, p.value);
        ValidKey(c, Next(c, st, m.event), e);
        ValidKey(c, Next(c, st, m.event), p.value);
        NamesAreDistinct(p.value.key, e.key);
      }
    }
  }

  lemma ValidKey(c: Config, st: State, e: Entry)
    requires DocSound(c, st) && e in st.doc
    ensures KeyIsValid(e.key)
  {
    assert Storable(c, st, e);
  }

  lemma StepLeavesOnlyLeftovers(c: Config, st: State, wellFormed: Entry -> bool, flash: Records, m: Moment, n: string)
    requires DocSound(c, st) && Tracks(c, st, wellFormed, flash) && LegalMoment(c, st, wellFormed, flash, m)
    requires n in FlashNext(c, st, flash, m)
    ensures Named(Next(c, st, m.event).doc, n) || Leftover(c, Next(c, st, m.event), n)
  {
    hide Next, Persisted, Survivors, RecName, Encode, Keepable, Contains, DocSound;
    var p := Persisted(c, st, m.event);
    if p.Some? && n == RecName(p.value.key) {
      NewDocument(c, st, m.event, p.value);
    } else if Named(st.doc, n) {
      var e :| e in st.doc && n == RecName(e.key);
      ValidKey(c, st, e);
      SurvivorsAreOld(c, st, m.event, e);
      NewDocument(c, st, m.event, e);
    } else {
      var k :| KeyIsValid(k) && n == RecName(k) && !Contains(Mine(c, st), k);
      if Contains(Mine(c, Next(c, st, m.event)), k) { ClaimShrinks(c, st, m.event, k); }
    }
  }

  lemma StepKeepsFlash(c: Config, st: State, wellFormed: Entry -> bool, flash: Records, m: Moment)
    requires DocSound(c, st) && Tracks(c, st, wellFormed, flash) && LegalMoment(c, st, wellFormed, flash, m)
    ensures Tracks(c, Next(c, st, m.event), wellFormed, FlashNext(c, st, flash, m))
  {
    hide Next, FlashNext, RecName, Encode, Keepable, Named, Leftover, DocSound;
    forall e | e in Next(c, st, m.event).doc
      ensures var flash' := FlashNext(c, st, flash, m);
              RecName(e.key) in flash' && flash'[RecName(e.key)] == Encode(e) && Keepable(wellFormed, e)
    {
      StepWritesItsEntries(c, st, wellFormed, flash, m, e);
    }
    forall n | n in FlashNext(c, st, flash, m)
      ensures Named(Next(c, st, m.event).doc, n) || Leftover(c, Next(c, st, m.event), n)
    {
      StepLeavesOnlyLeftovers(c, st, wellFormed, flash, m, n);
    }
  }

  // ----- over a run, and then a boot --------------------------------------------------------------------

  function Events(ms: seq<Moment>): (evs: seq<Event>)
    ensures |evs| == |ms| && forall i :: 0 <= i < |ms| ==> evs[i] == ms[i].event
  {
    seq(|ms|, i requires 0 <= i < |ms| => ms[i].event)
  }

  ghost function FlashAfter(c: Config, st: State, flash: Records, ms: seq<Moment>): (flash': Records)
    requires LegalRun(c, st, Events(ms))
    decreases |ms|
  {
    if |ms| == 0 then flash
    else
      var init := ms[..|ms| - 1];
      assert Events(ms)[..|ms| - 1] == Events(init);
      FlashNext(c, Run(c, st, Events(init)), FlashAfter(c, st, flash, init), ms[|ms| - 1])
  }

  ghost predicate LegalMoments(c: Config, st: State, wellFormed: Entry -> bool, flash: Records, ms: seq<Moment>)
    requires LegalRun(c, st, Events(ms))
    decreases |ms|
  {
    |ms| == 0 ||
    (var init := ms[..|ms| - 1];
     assert Events(ms)[..|ms| - 1] == Events(init);
     LegalMoments(c, st, wellFormed, flash, init)
     && LegalMoment(c, Run(c, st, Events(init)), wellFormed, FlashAfter(c, st, flash, init), ms[|ms| - 1]))
  }

  /** Over every run between two boots, whichever deletes fail, flash tracks the document. */
  lemma {:induction false} RunKeepsFlash(c: Config, st: State, wellFormed: Entry -> bool, flash: Records,
                                         ms: seq<Moment>)
    requires DocSound(c, st) && Tracks(c, st, wellFormed, flash) && LegalRun(c, st, Events(ms))
    requires LegalMoments(c, st, wellFormed, flash, ms)
    ensures Tracks(c, Run(c, st, Events(ms)), wellFormed, FlashAfter(c, st, flash, ms))
    decreases |ms|
  {
    hide Tracks, Next, FlashNext, DocSound, LegalMoment;
    if |ms| > 0 {
      var init := ms[..|ms| - 1];
      assert Events(ms)[..|ms| - 1] == Events(init);
      RunKeepsFlash(c, st, wellFormed, flash, init);
      RunKeepsDoc(c, st, Events(init));
      StepKeepsFlash(c, Run(c, st, Events(init)), wellFormed, FlashAfter(c, st, flash, init), ms[|ms| - 1]);
    } else {
      assert Events(ms) == [];
    }
  }

  /** The records as flash hands them over: each once or more, in any order. */
  ghost predicate Lists(ss: seq<Setting>, flash: Records) {
    forall s :: s in ss <==> s.name in flash && flash[s.name] == s.record
  }

  /** A name of an unclaimed key brings nothing back. */
  lemma LeftoverIsRefused(c: Config, st: State, kind: ScopeKind, wellFormed: Entry -> bool, s: Setting)
    requires Leftover(c, st, s.name)
    requires forall k :: Contains(MyScope(kind, c.me), k) ==> Contains(Mine(c, st), k)
    ensures LoadedEntry(c, kind, wellFormed, s).None?
  {
    hide RecName, ParseSpec, Contains;
    var k :| KeyIsValid(k) && s.name == RecName(k) && !Contains(Mine(c, st), k);
    NameRoundTrip(k);
    assert DenotedKey((LayerChar(k), k.node, k.section)) == k;
  }

  lemma TrackedFlashHolds(c: Config, st: State, kind: ScopeKind, wellFormed: Entry -> bool, flash: Records,
                          ss: seq<Setting>)
    requires Tracks(c, st, wellFormed, flash) && Lists(ss, flash)
    requires forall k :: Contains(MyScope(kind, c.me), k) ==> Contains(Mine(c, st), k)
    ensures FlashHolds(c, st.doc, kind, wellFormed, ss)
  {
    hide RecName, Encode, LoadedEntry, Leftover, Contains, Keepable;
    forall e | e in st.doc ensures Save(e) in ss { assert Save(e).name in flash; }
    forall s | s in ss
      ensures LoadedEntry(c, kind, wellFormed, s).None? || exists e :: e in st.doc && s == Save(e)
    {
      if Leftover(c, st, s.name) {
        LeftoverIsRefused(c, st, kind, wellFormed, s);
      } else {
        var e :| e in st.doc && s.name == RecName(e.key);
        assert s == Save(e);
      }
    }
  }

  /** A run and then a boot under the same or a narrower claim: whatever happened, whichever deletes
      failed and in whatever order the records come, the member has the part of its document that
      claim covers. */
  lemma RunSurvivesReboot(c: Config, st: State, wellFormed: Entry -> bool, flash: Records, ms: seq<Moment>,
                          kind: ScopeKind, pinned: bool, ss: seq<Setting>, wall: int, now: int)
    requires DocSound(c, st) && Tracks(c, st, wellFormed, flash) && LegalRun(c, st, Events(ms))
    requires LegalMoments(c, st, wellFormed, flash, ms) && Lists(ss, FlashAfter(c, st, flash, ms))
    requires kind != BaseKind
    requires forall k :: Contains(MyScope(kind, c.me), k) ==> Contains(Mine(c, Run(c, st, Events(ms))), k)
    ensures LoadAll(c, Init(kind, pinned, now), wellFormed, ss, wall).doc
            == Restrict(Run(c, st, Events(ms)).doc, MyScope(kind, c.me))
  {
    hide DocSound, LoadAll, Run, LegalRun, LegalMoments, FlashAfter, Lists, FlashHolds, Contains, Restrict, RecName, Encode;
    var end := Run(c, st, Events(ms));
    RunKeepsFlash(c, st, wellFormed, flash, ms);
    RunKeepsDoc(c, st, Events(ms));
    TrackedFlashHolds(c, end, kind, wellFormed, FlashAfter(c, st, flash, ms), ss);
    RebootRestoresDocument(c, end, kind, pinned, wellFormed, ss, wall, now);
  }
}
