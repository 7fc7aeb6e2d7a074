/** One member of the cluster: its whole replication state and every handler that
    changes it, as functions from state to state. */
module Protocol {
  import opened Bytes
  import opened Stamps
  import opened Document
  import opened Digest
  import opened Buckets
  import opened Fragments
  import opened Sync

  const FRAG_MAX := 88
  const SERVE_BURST := 3
  const PUSH_BURST := 3
  const PUSH_QUEUE := 4
  const BROADCAST: u32 := 0xFFFF_FFFF

  /** What is fixed for a node. `crc` is the digest's hash; `gate` is authorship and owner-known, judged on key and
      stamp alone; `vouch` is the payload and signature check on a whole entry; `sign`
      signs a version this node mints. */
  datatype Config = Config(me: u32, cap: nat, serveInterval: nat, pushInterval: nat,
                           fragTimeout: nat, gate: (Key, Stamp) -> bool, vouch: Entry -> bool,
                           sign: Entry -> Option<seq<byte>>, crc: Crc)

  datatype PullState = PullIdle | SendVectorReq | AwaitVector | SendEntryReq

  datatype State = State(
    doc: seq<Entry>, kind: ScopeKind, pinned: bool, hlc: Hlc,
    pull: PullState, pullPeer: u32, pullKeys: seq<Key>,
    vecDest: u32, vecOffset: nat, vecEmitted: nat, vecScope: ScopeKind,
    entDest: u32, entKeys: seq<Key>, entNext: nat, entOff: nat,
    push: seq<Key>, pushOff: nat,
    slot: Slot, serve: Bucket, pushes: Bucket)

  datatype Message =
    | VectorReq(scope: WireScope)
    | VectorMsg(vector: Vector)
    | EntryReq(keys: seq<Key>)
    | EntryMsg(fragment: Fragment)

  function Mine(c: Config, st: State): Scope { MyScope(st.kind, c.me) }

  function Init(kind: ScopeKind, pinned: bool, now: int): State {
    State([], kind, pinned, Hlc(0, 0), PullIdle, 0, [], 0, 0, 0, BaseKind, 0, [], 0, 0, [], 0,
          Idle, Bucket(SERVE_BURST, now), Bucket(PUSH_BURST, now))
  }

  function PullReset(st: State): State { st.(pull := PullIdle, pullPeer := 0, pullKeys := []) }
  function FragReset(st: State): State { st.(entOff := 0, pushOff := 0, slot := Idle) }

  // ----- the claim --------------------------------------------------------------

  /** Change the claim and make the table match it in the same breath. */
  function ScopeSet(c: Config, st: State, kind: ScopeKind, pinned: bool): State {
    var claimed := st.(kind := kind, pinned := pinned);
    var kept := claimed.(doc := Restrict(st.doc, Mine(c, claimed)));
    if |kept.doc| == |st.doc| then kept
    else FragReset(PullReset(kept).(vecDest := 0, entDest := 0, entKeys := [], entNext := 0))
  }

  /** Narrow to CORE because the table could not hold something wanted. One way only. */
  function Demote(c: Config, st: State): State {
    if st.pinned || st.kind == CoreKind then st else ScopeSet(c, st, CoreKind, false)
  }

  function Reset(c: Config, st: State, kind: ScopeKind, pinned: bool): State {
    FragReset(PullReset(st).(doc := [], kind := kind, pinned := pinned, vecDest := 0,
                             entDest := 0, entKeys := [], entNext := 0, push := []))
  }

  // ----- the requester ------------------------------------------------------------

  function PullStart(c: Config, st: State, peer: u32): State {
    if st.pull != PullIdle || peer == 0 || peer == c.me then st
    else st.(pull := SendVectorReq, pullPeer := peer, pullKeys := [])
  }

  /** Hearing a peer's digest: the clock sees its newest stamp, and a mismatch opens a walk unless
      one is in flight or the backoff holds it. */
  function OnDigest(c: Config, st: State, from: u32, d: ClusterDigest, wall: int, held: bool): State {
    var seen := st.(hlc := ObserveAt(st.hlc, d.maxStamp, wall));
    if CompareDigest(c.crc, st.doc, Mine(c, st), from, d) == Mismatch && !held then PullStart(c, seen, from) else seen
  }

  /** The peer's vector did not come in time. */
  function PullExpires(st: State): State { if st.pull == AwaitVector then PullReset(st) else st }

  /** The channel is gone: everything pending is dropped. */
  function LoseChannel(st: State): State { FragReset(PullReset(st).(vecDest := 0, entDest := 0)) }

  function OnVector(c: Config, st: State, from: u32, v: Vector, wall: int): State {
    if st.pull != AwaitVector || from != st.pullPeer then st
    else
      var p := DiffRows(st.doc, c.cap, Mine(c, st), wall, Pulling(st.pullKeys, st.hlc, false), v.rows);
      var seen := st.(pullKeys := p.keys, hlc := p.hlc);
      if p.noSpace then PullReset(Demote(c, seen))
      else if |p.keys| >= PULL_KEYS || EndsWalk(v) then
        if |p.keys| > 0 then seen.(pull := SendEntryReq) else PullReset(seen)
      else seen
  }

  // ----- the responder ------------------------------------------------------------

  function OnVectorReq(c: Config, st: State, from: u32, scope: WireScope, now: int): State {
    if st.vecDest != 0 then st
    else
      var paid := st.(serve := AfterRequest(st.serve, now, c.serveInterval, SERVE_BURST));
      if !MayTake(st.serve, now, c.serveInterval, SERVE_BURST) then paid
      else paid.(vecScope := ScopeFromWire(scope, from).kind, vecDest := from, vecOffset := 0, vecEmitted := 0)
  }

  function OnEntryReq(c: Config, st: State, from: u32, keys: seq<Key>, now: int): State {
    if st.entDest != 0 then st
    else
      var paid := st.(serve := AfterRequest(st.serve, now, c.serveInterval, SERVE_BURST));
      if !MayTake(st.serve, now, c.serveInterval, SERVE_BURST) then paid
      else paid.(entDest := if |keys| == 0 then 0 else from, entKeys := Take(keys, PULL_KEYS),
                 entNext := 0, entOff := 0)
  }

  // ----- ingest -------------------------------------------------------------------

  /** Every gate judged on the fragment's own key and stamp, before the slot is touched. */
  predicate Admits(c: Config, st: State, key: Key, stamp: Stamp, wall: int) {
    Shareable(key.section) && Contains(Mine(c, st), key) && c.gate(key, stamp) && WithinHorizon(stamp, wall)
  }

  function Ingest(c: Config, st: State, e: Entry, wall: int): State {
    if !c.vouch(e) then st
    else st.(hlc := ObserveAt(st.hlc, e.stamp, wall), doc := AcceptTable(st.doc, c.cap, e))
  }

  function OnEntry(c: Config, st: State, from: u32, f: Fragment, wall: int, now: int): State {
    if !Admits(c, st, f.key, f.stamp, wall) then st
    else
      var (slot, out) := Reassemble(st.slot, from, f, now, c.fragTimeout, FRAG_MAX);
      if out.None? then st.(slot := slot)
      else Ingest(c, st.(slot := slot), Entry(f.key, f.stamp, f.tombstone, out.value, f.sig), wall)
  }

  // ----- transmitting -------------------------------------------------------------

  function EntAdvance(st: State): State {
    st.(entOff := 0, entNext := st.entNext + 1,
        entDest := if st.entNext + 1 >= |st.entKeys| then 0 else st.entDest)
  }

  /** The next frame of an entry burst; keys that vanished since the request are skipped. */
  function TxEntry(st: State): (r: (State, Option<Fragment>))
    ensures r.0 == st.(entDest := r.0.entDest, entNext := r.0.entNext, entOff := r.0.entOff)
    ensures r.1.None? ==> r.0.entDest == 0
    decreases |st.entKeys| - st.entNext
  {
    if st.entDest == 0 || st.entNext >= |st.entKeys| then (st.(entDest := 0), None)
    else match Find(st.doc, st.entKeys[st.entNext])
      case None => TxEntry(EntAdvance(st))
      case Some(e) =>
        var next := NextCursor(e, st.entOff, FRAG_MAX);
        (if next >= |e.payload| then EntAdvance(st) else st.(entOff := next),
         Some(EntryFragment(e, st.entOff, FRAG_MAX)))
  }

  /** The next chunk of a stamp vector, filtered to what the requester claims. */
  function TxVector(st: State): (r: (State, Vector))
    ensures r.0 == st.(vecDest := r.0.vecDest, vecOffset := r.0.vecOffset, vecEmitted := r.0.vecEmitted)
  {
    var want := ScopeMake(st.vecScope, st.vecDest);
    var from := Min(st.vecOffset, |st.doc|);
    var end := ChunkEnd(st.doc, want, from, VECTOR_ROWS);
    var rows := RowsOf(Restrict(st.doc[from..end], want));
    (st.(vecOffset := Max(st.vecOffset, end), vecEmitted := st.vecEmitted + |rows|,
         vecDest := if end >= |st.doc| then 0 else st.vecDest),
     Vector(rows, st.vecEmitted, |Restrict(st.doc, want)|))
  }

  function PushAdvance(st: State): State
    requires |st.push| > 0
  {
    st.(push := st.push[1..], pushOff := 0)
  }

  /** The next frame of a change broadcast, read from the document at send time. */
  function TxPush(st: State): (r: (State, Option<Fragment>))
    ensures r.0 == st.(push := r.0.push, pushOff := r.0.pushOff)
    ensures |r.0.push| <= |st.push|
    decreases |st.push|
  {
    if |st.push| == 0 then (st, None)
    else match Find(st.doc, st.push[0])
      case None => TxPush(PushAdvance(st))
      case Some(e) =>
        var next := NextCursor(e, st.pushOff, FRAG_MAX);
        (if next >= |e.payload| then PushAdvance(st) else st.(pushOff := next),
         Some(EntryFragment(e, st.pushOff, FRAG_MAX)))
  }

  /** Pick one outbound job: replies outrank our own requests, and a push goes last. */
  function TxNext(c: Config, st: State): (r: (State, Option<(u32, Message)>)) {
    var (served, frame) := TxEntry(st);
    if frame.Some? then
      (served, Some((st.entDest, EntryMsg(frame.value))))
    else if served.vecDest != 0 then
      var (next, v) := TxVector(served);
      (next, Some((served.vecDest, VectorMsg(v))))
    else if served.pull == SendEntryReq then
      (PullReset(served), Some((served.pullPeer, EntryReq(served.pullKeys))))
    else if served.pull == SendVectorReq then
      (served.(pull := AwaitVector), Some((served.pullPeer, VectorReq(ScopeToWire(Mine(c, served))))))
    else
      var (next, push) := TxPush(served);
      (next, if push.Some? then Some((BROADCAST, EntryMsg(push.value))) else None)
  }

  // ----- local writes -------------------------------------------------------------

  function PushEnqueue(c: Config, st: State, key: Key, now: int): State {
    if key in st.push || |st.push| >= PUSH_QUEUE then st
    else
      var paid := st.(pushes := AfterRequest(st.pushes, now, c.pushInterval, PUSH_BURST));
      if !MayTake(st.pushes, now, c.pushInterval, PUSH_BURST) then paid
      else paid.(push := st.push + [key])
  }

  function MintClock(st: State, storeStamp: Stamp, wall: int): Hlc {
    LocalAt(ObserveAt(st.hlc, storeStamp, wall), wall)
  }

  function MintedEntry(c: Config, st: State, key: Key, storeStamp: Stamp, tombstone: bool,
                       payload: seq<byte>, wall: int): Entry
    requires MintClock(st, storeStamp, wall).physical <= PHYSICAL_END
  {
    var e := Entry(key, MintedStamp(MintClock(st, storeStamp, wall), c.me), tombstone, payload, None);
    e.(sig := c.sign(e))
  }

  /** promote, pin, unpin and publish all end here: mint, accept (narrowing once if there
      is no room), queue the push. */
  function WriteLocal(c: Config, st: State, key: Key, storeStamp: Stamp, tombstone: bool,
                      payload: seq<byte>, wall: int, now: int): (r: (State, Verdict))
    requires MintClock(st, storeStamp, wall).physical <= PHYSICAL_END
  {
    var e := MintedEntry(c, st, key, storeStamp, tombstone, payload, wall);
    var minted := st.(hlc := MintClock(st, storeStamp, wall));
    var ready := if AcceptVerdict(minted.doc, c.cap, e) == NoSpace then Demote(c, minted) else minted;
    var v := AcceptVerdict(ready.doc, c.cap, e);
    var stored := ready.(doc := AcceptTable(ready.doc, c.cap, e));
    (if v == Stored then PushEnqueue(c, stored, key, now) else stored, v)
  }

  /** One persisted record handed back at boot. */
  function LoadRecord(c: Config, st: State, e: Entry, wellFormed: bool, wall: int): State {
    if !Shareable(e.key.section) || !wellFormed || !Contains(Mine(c, st), e.key) then st
    else st.(doc := AcceptTable(st.doc, c.cap, e), hlc := ObserveAt(st.hlc, e.stamp, wall))
  }
}
