/** What a member puts on the air for an entry request and for its own changes: every fragment of
    every entry it still holds, in order, and nothing else. */
module Sending {
  import opened Bytes
  import opened Stamps
  import opened Document
  import opened Digest
  import opened Merge
  import opened Buckets
  import opened Fragments
  import opened Sync
  import opened Protocol
  import opened Convergence

  /** The entries held under a list of keys, in its order; keys that vanished are left out. */
  function HeldAmong(t: seq<Entry>, keys: seq<Key>): (es: seq<Entry>) {
    if |keys| == 0 then []
    else match Find(t, keys[0])
      case Some(e) => [e] + HeldAmong(t, keys[1..])
      case None => HeldAmong(t, keys[1..])
  }

  function Addressed(fs: seq<Fragment>, to: u32): (out: seq<(u32, Message)>)
    ensures |out| == |fs| && forall i :: 0 <= i < |fs| ==> out[i] == (to, EntryMsg(fs[i]))
  {
    seq(|fs|, i requires 0 <= i < |fs| => (to, EntryMsg(fs[i])))
  }

  /** How much of an entry a cursor leaves to send; a cursor past the end starts over. */
  function Unsent(t: seq<Entry>, key: Key, off: nat): (n: nat) {
    match Find(t, key)
    case None => 0
    case Some(e) => if off > |e.payload| then |e.payload| + 2 else |e.payload| - off + 1
  }

  lemma CursorMoves(t: seq<Entry>, key: Key, off: nat)
    requires Find(t, key).Some?
    ensures var e := Find(t, key).value;
            NextCursor(e, off, FRAG_MAX) < |e.payload| ==>
              Unsent(t, key, NextCursor(e, off, FRAG_MAX)) < Unsent(t, key, off)
  {
  }

  lemma AddressedJoin(f: Fragment, fs: seq<Fragment>, to: u32)
    ensures Addressed([f] + fs, to) == [(to, EntryMsg(f))] + Addressed(fs, to)
  {
  }

  // ----- change broadcasts -------------------------------------------------------------------------

  /** Nothing outranks the queued changes. */
  predicate OnlyPushes(st: State) {
    st.entDest == 0 && st.vecDest == 0 && st.pull != SendEntryReq && st.pull != SendVectorReq && |st.push| > 0
  }

  lemma PushIsNext(c: Config, st: State)
    requires OnlyPushes(st)
    ensures TxNext(c, st) == (TxPush(st).0, if TxPush(st).1.Some? then Some((BROADCAST, EntryMsg(TxPush(st).1.value))) else None)
  {
    hide TxPush;
    assert TxEntry(st) == (st, None);
  }

  lemma {:induction false} PushShrinks(st: State)
    requires |st.push| > 0 && TxPush(st).1.Some?
    ensures var st' := TxPush(st).0;
            && |st'.push| <= |st.push|
            && (|st'.push| == |st.push| > 0 ==>
                  st'.push == st.push && Unsent(st.doc, st.push[0], st'.pushOff) < Unsent(st.doc, st.push[0], st.pushOff))
    decreases |st.push|
  {
    hide NextCursor, EntryFragment, Unsent;
    match Find(st.doc, st.push[0])
    case None => if |st.push| > 1 { PushShrinks(PushAdvance(st)); }
    case Some(e) => CursorMoves(st.doc, st.push[0], st.pushOff);
  }

  /** Let the transmit handler run while there are only changes to send. */
  function SendPushes(c: Config, st: State): (r: (State, seq<(u32, Message)>))
    decreases |st.push|, if |st.push| > 0 then Unsent(st.doc, st.push[0], st.pushOff) else 0
  {
    if !OnlyPushes(st) then (st, [])
    else
      PushIsNext(c, st);
      var (next, out) := TxNext(c, st);
      if out.None? then (next, [])
      else
        PushShrinks(st);
        var (end, rest) := SendPushes(c, next);
        (end, [out.value] + rest)
  }

  /** What is left of a queue whose first entry is sent up to `off`. */
  function QueueFrames(t: seq<Entry>, keys: seq<Key>, off: nat): (fs: seq<Fragment>)
    requires |keys| > 0 ==> match Find(t, keys[0]) case Some(e) => off <= |e.payload| case None => true
  {
    if |keys| == 0 then []
    else match Find(t, keys[0])
      case None => BurstFrames(HeldAmong(t, keys[1..]))
      case Some(e) => FragmentsFrom(e, off, FRAG_MAX) + BurstFrames(HeldAmong(t, keys[1..]))
  }

  lemma WholeQueue(t: seq<Entry>, keys: seq<Key>)
    ensures QueueFrames(t, keys, 0) == BurstFrames(HeldAmong(t, keys))
  {
    if |keys| > 0 && Find(t, keys[0]).Some? {
      var e := Find(t, keys[0]).value;
      assert HeldAmong(t, keys)[1..] == HeldAmong(t, keys[1..]);
    }
  }

  lemma VanishedIsSkipped(c: Config, st: State)
    requires OnlyPushes(st) && Find(st.doc, st.push[0]).None?
    ensures SendPushes(c, st) == if |st.push| == 1 then (PushAdvance(st), []) else SendPushes(c, PushAdvance(st))
  {
    hide TxNext, NextCursor, EntryFragment, Unsent, Find;
    var st' := PushAdvance(st);
    PushIsNext(c, st);
    assert TxPush(st) == TxPush(st');
    if |st.push| > 1 { PushIsNext(c, st'); }
  }

  lemma HeldIsSent(c: Config, st: State, e: Entry)
    requires OnlyPushes(st) && Find(st.doc, st.push[0]) == Some(e)
    ensures var next := NextCursor(e, st.pushOff, FRAG_MAX);
            var st' := if next >= |e.payload| then PushAdvance(st) else st.(pushOff := next);
            var (end, out) := SendPushes(c, st');
            SendPushes(c, st) == (end, [(BROADCAST, EntryMsg(EntryFragment(e, st.pushOff, FRAG_MAX)))] + out)
  {
    hide TxNext, NextCursor, EntryFragment, Unsent, Find;
    PushIsNext(c, st);
  }

  /** The frames sent are the fragments of the queued entries still held, oldest change first, all
      of them broadcast, and then the queue is empty. */
  lemma {:induction false} QueueIsSent(c: Config, st: State)
    requires OnlyPushes(st)
    requires match Find(st.doc, st.push[0]) case Some(e) => st.pushOff <= |e.payload| case None => true
    ensures var (end, out) := SendPushes(c, st);
            && out == Addressed(QueueFrames(st.doc, st.push, st.pushOff), BROADCAST)
            && end == st.(push := [], pushOff := end.pushOff)
    decreases |st.push|, Unsent(st.doc, st.push[0], st.pushOff)
  {
    hide SendPushes, NextCursor, EntryFragment, Unsent, BurstFrames, HeldAmong, Find;
    var rest, st' := st.push[1..], PushAdvance(st);
    WholeQueue(st.doc, rest);
    if |rest| == 0 {
      NothingToPush(c, st');
      NothingHeld(st.doc);
    }
    match Find(st.doc, st.push[0])
    case None =>
      VanishedIsSkipped(c, st);
      if |rest| > 0 { QueueIsSent(c, st'); }
    case Some(e) =>
      var next := NextCursor(e, st.pushOff, FRAG_MAX);
      var f := EntryFragment(e, st.pushOff, FRAG_MAX);
      HeldIsSent(c, st, e);
      CursorMoves(st.doc, st.push[0], st.pushOff);
      if next < |e.payload| {
        QueueIsSent(c, st.(pushOff := next));
        assert FragmentsFrom(e, st.pushOff, FRAG_MAX) == [f] + FragmentsFrom(e, next, FRAG_MAX);
        AddressedJoin(f, QueueFrames(st.doc, st.push, next), BROADCAST);
        assert QueueFrames(st.doc, st.push, st.pushOff) == [f] + QueueFrames(st.doc, st.push, next);
      } else {
        assert FragmentsFrom(e, st.pushOff, FRAG_MAX) == [f];
        AddressedJoin(f, QueueFrames(st.doc, rest, 0), BROADCAST);
        if |rest| > 0 { QueueIsSent(c, st'); }
      }
  }

  lemma NothingToPush(c: Config, st: State)
    requires st.push == []
    ensures SendPushes(c, st) == (st, [])
  {
  }

  lemma NothingHeld(t: seq<Entry>)
    ensures HeldAmong(t, []) == [] && BurstFrames([]) == []
  {
  }

  /** Whole changes: every fragment of every queued entry still held. */
  lemma PushesAreSent(c: Config, st: State)
    requires OnlyPushes(st) && st.pushOff == 0
    ensures var (end, out) := SendPushes(c, st);
            && out == Addressed(BurstFrames(HeldAmong(st.doc, st.push)), BROADCAST)
            && end == st.(push := [], pushOff := end.pushOff)
  {
    QueueIsSent(c, st);
    WholeQueue(st.doc, st.push);
  }

  lemma StaleCursorIsNone(c: Config, st: State, e: Entry)
    requires OnlyPushes(st) && Find(st.doc, st.push[0]) == Some(e) && st.pushOff > |e.payload|
    ensures SendPushes(c, st) == SendPushes(c, st.(pushOff := 0))
  {
    hide TxNext;
    var anew := st.(pushOff := 0);
    PushIsNext(c, st);
    PushIsNext(c, anew);
    assert TxPush(st) == TxPush(anew);
  }

  /** An entry replaced by a shorter one while it was being sent is sent again from its start. */
  lemma ReplacedEntryStartsOver(c: Config, st: State, e: Entry)
    requires OnlyPushes(st) && Find(st.doc, st.push[0]) == Some(e) && st.pushOff > |e.payload|
    ensures SendPushes(c, st).1 == Addressed(BurstFrames(HeldAmong(st.doc, st.push)), BROADCAST)
    ensures SendPushes(c, st).0 == st.(push := [], pushOff := SendPushes(c, st).0.pushOff)
  {
    hide SendPushes, HeldAmong, BurstFrames;
    StaleCursorIsNone(c, st, e);
    PushesAreSent(c, st.(pushOff := 0));
  }

  // ----- a local write reaches whoever listens -------------------------------------------------------

  /** A write is queued to be broadcast exactly when it was stored, is not queued already, and there
      is room in the queue and a token; it goes to the end of the queue. */
  lemma WriteIsQueuedExactly(c: Config, st: State, key: Key, storeStamp: Stamp, tombstone: bool, payload: seq<byte>,
                             wall: int, now: int)
    requires MintClock(st, storeStamp, wall).physical <= PHYSICAL_END
    ensures var (st', v) := WriteLocal(c, st, key, storeStamp, tombstone, payload, wall, now);
            st'.push == if v == Stored && key !in st.push && |st.push| < PUSH_QUEUE
                           && MayTake(st.pushes, now, c.pushInterval, PUSH_BURST)
                        then st.push + [key] else st.push
  {
    hide AcceptTable, AcceptVerdict, MintClock, MintedEntry, Restrict, MayTake, AfterRequest;
  }

  /** The change broadcast does its work: a member with nothing else to send writes, and every member
      that hears its frames in time and lets the entry in merges exactly that entry. */
  lemma WriteReachesListeners(cb: Config, b: State, key: Key, storeStamp: Stamp, tombstone: bool, payload: seq<byte>,
                              wall: int, now: int, ca: Config, a: State, times: seq<int>, heardAt: int)
    requires MintClock(b, storeStamp, wall).physical <= PHYSICAL_END && Sorted(b.doc)
    requires b.entDest == 0 && b.vecDest == 0 && b.pull == PullIdle && b.push == [] && b.pushOff == 0
    requires MayTake(b.pushes, now, cb.pushInterval, PUSH_BURST)
    requires WriteLocal(cb, b, key, storeStamp, tombstone, payload, wall, now).1 == Stored
    requires var e := MintedEntry(cb, b, key, storeStamp, tombstone, payload, wall);
             && Welcome(ca, Mine(ca, a), heardAt, e)
             && |times| >= |FragmentsFrom(e, 0, FRAG_MAX)| && Timely(times, ca.fragTimeout)
    requires a.slot.Busy? ==> a.slot.from != cb.me
    ensures var e := MintedEntry(cb, b, key, storeStamp, tombstone, payload, wall);
            var b' := WriteLocal(cb, b, key, storeStamp, tombstone, payload, wall, now).0;
            var fs := FragmentsFrom(e, 0, FRAG_MAX);
            && SendPushes(cb, b').1 == Addressed(fs, BROADCAST)
            && Receive(ca, a, cb.me, fs, times, heardAt).doc == AcceptTable(a.doc, ca.cap, e)
  {
    hide AcceptTable, AcceptVerdict, MintClock, MintedEntry, Restrict, MayTake, AfterRequest, Receive, FragmentsFrom,
         Find, SendPushes, Sorted, ScopeSet;
    var e := MintedEntry(cb, b, key, storeStamp, tombstone, payload, wall);
    var b' := WriteLocal(cb, b, key, storeStamp, tombstone, payload, wall, now).0;
    WriteIsQueuedExactly(cb, b, key, storeStamp, tombstone, payload, wall, now);
    StoredIsFound(cb, b, key, storeStamp, tombstone, payload, wall, now);
    WriteKeepsQuiet(cb, b, key, storeStamp, tombstone, payload, wall, now);
    PushesAreSent(cb, b');
    OneHeld(b'.doc, key, e);
    EntryIsMerged(ca, a, cb.me, e, times, heardAt);
  }

  lemma StoredIsFound(c: Config, st: State, key: Key, storeStamp: Stamp, tombstone: bool, payload: seq<byte>,
                      wall: int, now: int)
    requires MintClock(st, storeStamp, wall).physical <= PHYSICAL_END && Sorted(st.doc)
    requires WriteLocal(c, st, key, storeStamp, tombstone, payload, wall, now).1 == Stored
    ensures Find(WriteLocal(c, st, key, storeStamp, tombstone, payload, wall, now).0.doc, key)
            == Some(MintedEntry(c, st, key, storeStamp, tombstone, payload, wall))
  {
    hide AcceptTable, AcceptVerdict, MintClock, Restrict, PushEnqueue, Find, Sorted;
    var e := MintedEntry(c, st, key, storeStamp, tombstone, payload, wall);
    var minted := st.(hlc := MintClock(st, storeStamp, wall));
    RestrictSorted(st.doc, MyScope(CoreKind, c.me));
    AcceptIsUpdate(st.doc, c.cap, e, key);
    AcceptIsUpdate(Demote(c, minted).doc, c.cap, e, key);
    QueueingKeepsDoc(c, minted.(doc := AcceptTable(minted.doc, c.cap, e)), key, now);
    QueueingKeepsDoc(c, Demote(c, minted).(doc := AcceptTable(Demote(c, minted).doc, c.cap, e)), key, now);
  }

  lemma QueueingKeepsDoc(c: Config, st: State, key: Key, now: int)
    ensures PushEnqueue(c, st, key, now).doc == st.doc
  {
  }

  lemma WriteKeepsQuiet(c: Config, st: State, key: Key, storeStamp: Stamp, tombstone: bool, payload: seq<byte>,
                        wall: int, now: int)
    requires MintClock(st, storeStamp, wall).physical <= PHYSICAL_END
    requires st.entDest == 0 && st.vecDest == 0 && st.pull == PullIdle && st.pushOff == 0
    ensures var st' := WriteLocal(c, st, key, storeStamp, tombstone, payload, wall, now).0;
            st'.entDest == 0 && st'.vecDest == 0 && st'.pull == PullIdle && st'.pushOff == 0
  {
    hide AcceptTable, AcceptVerdict, MintClock, MintedEntry, Restrict, MayTake, AfterRequest;
  }

  lemma OneHeld(t: seq<Entry>, key: Key, e: Entry)
    requires Find(t, key) == Some(e)
    ensures BurstFrames(HeldAmong(t, [key])) == FragmentsFrom(e, 0, FRAG_MAX)
  {
    assert [key][1..] == [] && HeldAmong(t, [key]) == [e] && [e][1..] == [];
    NothingHeld(t);
  }

  // ----- the answer to an entry request ---------------------------------------------------------------

  lemma {:induction false} BurstShrinks(st: State)
    requires TxEntry(st).1.Some?
    ensures var st' := TxEntry(st).0;
            && st.entNext < |st.entKeys| && st'.entNext >= st.entNext
            && (st'.entNext == st.entNext ==>
                  Unsent(st.doc, st.entKeys[st.entNext], st'.entOff) < Unsent(st.doc, st.entKeys[st.entNext], st.entOff))
    decreases |st.entKeys| - st.entNext
  {
    hide NextCursor, EntryFragment, Unsent;
    match Find(st.doc, st.entKeys[st.entNext])
    case None => BurstShrinks(EntAdvance(st));
    case Some(e) => CursorMoves(st.doc, st.entKeys[st.entNext], st.entOff);
  }

  /** Let the transmit handler run while there is an entry to answer with. */
  function SendBurst(c: Config, st: State): (r: (State, seq<(u32, Message)>))
    decreases Max(0, |st.entKeys| - st.entNext),
              if st.entNext < |st.entKeys| then Unsent(st.doc, st.entKeys[st.entNext], st.entOff) else 0
  {
    if TxEntry(st).1.None? then (TxEntry(st).0, [])
    else
      BurstShrinks(st);
      var (next, out) := TxNext(c, st);
      var (end, rest) := SendBurst(c, next);
      (end, [out.value] + rest)
  }

  /** Part-way through a burst, the rest is sent: what is left of the current entry and every later
      one still held, to the requester, and then the member is free. */
  lemma {:induction false} RestIsSent(c: Config, st: State)
    requires st.entDest != 0 && st.entNext < |st.entKeys|
    requires match Find(st.doc, st.entKeys[st.entNext]) case Some(e) => st.entOff <= |e.payload| case None => true
    ensures var (end, out) := SendBurst(c, st);
            && out == Addressed(QueueFrames(st.doc, st.entKeys[st.entNext..], st.entOff), st.entDest)
            && end == st.(entDest := 0, entNext := end.entNext, entOff := end.entOff)
    decreases |st.entKeys| - st.entNext, Unsent(st.doc, st.entKeys[st.entNext], st.entOff)
  {
    hide NextCursor, EntryFragment, Unsent, BurstFrames, HeldAmong;
    var keys := st.entKeys[st.entNext..];
    var rest := st.entKeys[st.entNext + 1..];
    assert keys[0] == st.entKeys[st.entNext] && keys[1..] == rest;
    WholeQueue(st.doc, rest);
    var st' := EntAdvance(st);
    match Find(st.doc, keys[0])
    case None =>
      assert TxEntry(st) == TxEntry(st');
      if |rest| == 0 {
        assert TxEntry(st') == (st', None);
        NothingHeld(st.doc);
      } else {
        RestIsSent(c, st');
        SkipIsSame(c, st);
      }
    case Some(e) =>
      var next := NextCursor(e, st.entOff, FRAG_MAX);
      var f := EntryFragment(e, st.entOff, FRAG_MAX);
      CursorMoves(st.doc, keys[0], st.entOff);
      if next < |e.payload| {
        RestIsSent(c, st.(entOff := next));
        AddressedJoin(f, QueueFrames(st.doc, keys, next), st.entDest);
        assert FragmentsFrom(e, st.entOff, FRAG_MAX) == [f] + FragmentsFrom(e, next, FRAG_MAX);
        assert QueueFrames(st.doc, keys, st.entOff) == [f] + QueueFrames(st.doc, keys, next);
      } else {
        assert FragmentsFrom(e, st.entOff, FRAG_MAX) == [f];
        AddressedJoin(f, QueueFrames(st.doc, rest, 0), st.entDest);
        if |rest| > 0 { RestIsSent(c, st'); } else { assert SendBurst(c, st') == (st', []); NothingHeld(st.doc); }
      }
  }

  lemma SkipIsSame(c: Config, st: State)
    requires st.entDest != 0 && st.entNext + 1 < |st.entKeys| && Find(st.doc, st.entKeys[st.entNext]).None?
    ensures SendBurst(c, st) == SendBurst(c, EntAdvance(st))
  {
    hide NextCursor, EntryFragment, Find, TxVector, TxPush;
    assert TxEntry(st) == TxEntry(EntAdvance(st));
    if TxEntry(st).1.Some? { assert TxNext(c, st) == TxNext(c, EntAdvance(st)); }
  }

  /** One accepted entry request is answered in full: every fragment of every entry still held under
      the first batch of requested keys, in the order asked, to the requester, whatever else there is
      to send; keys that vanished are skipped, and then the responder is free again. */
  lemma EntryReplyIsComplete(c: Config, st: State, from: u32, keys: seq<Key>, now: int)
    requires from != 0 && st.entDest == 0 && MayTake(st.serve, now, c.serveInterval, SERVE_BURST)
    ensures var (end, out) := SendBurst(c, OnEntryReq(c, st, from, keys, now));
            && out == Addressed(BurstFrames(HeldAmong(st.doc, Take(keys, PULL_KEYS))), from)
            && end.entDest == 0 && end.doc == st.doc
  {
    hide SendBurst, BurstFrames, HeldAmong, AfterRequest, MayTake, TxEntry;
    var serving := OnEntryReq(c, st, from, keys, now);
    if |keys| == 0 {
      NothingToServe(c, serving);
      NothingHeld(st.doc);
    } else {
      RestIsSent(c, serving);
      assert serving.entKeys[0..] == serving.entKeys;
      WholeQueue(st.doc, serving.entKeys);
    }
  }

  lemma NothingToServe(c: Config, st: State)
    requires st.entDest == 0
    ensures SendBurst(c, st) == (st, [])
  {
  }

  // ----- what a request or a loss does to jobs ------------------------------------------------------------

  /** A request that comes while the same kind of reply is being served changes nothing. */
  lemma RepliesAreNotDisturbed(c: Config, st: State, from: u32, scope: WireScope, keys: seq<Key>, now: int)
    ensures st.vecDest != 0 ==> OnVectorReq(c, st, from, scope, now) == st
    ensures st.entDest != 0 ==> OnEntryReq(c, st, from, keys, now) == st
    ensures st.entDest != 0 ==> SendBurst(c, OnEntryReq(c, st, from, keys, now)) == SendBurst(c, st)
  {
  }

  /** Evicting anything ends every job that described the old document; evicting nothing ends none. */
  lemma EvictionEndsJobs(c: Config, st: State, kind: ScopeKind, pinned: bool)
    ensures var st' := ScopeSet(c, st, kind, pinned);
            if |st'.doc| == |st.doc| then st' == st.(doc := st'.doc, kind := kind, pinned := pinned)
            else && st'.pull == PullIdle && st'.vecDest == 0 && st'.entDest == 0 && st'.slot == Idle
                 && st'.push == st.push && st'.pushOff == 0
  {
    hide Restrict;
  }

  /** Without its channel a member sends nothing but its queued changes, from their start. */
  lemma LostChannelIsQuiet(c: Config, st: State)
    ensures var st' := LoseChannel(st);
            && st'.doc == st.doc && st'.kind == st.kind && st'.push == st.push && st'.hlc == st.hlc
            && (st.push != [] ==> OnlyPushes(st') && st'.pushOff == 0)
            && (st.push == [] ==> TxNext(c, st') == (st', None))
            && st'.slot == Idle
  {
  }

  /** A cleared member holds nothing, sends nothing, and does not forget the time. */
  lemma ClearedIsSilent(c: Config, st: State, kind: ScopeKind, pinned: bool)
    ensures var st' := Reset(c, st, kind, pinned);
            && st'.doc == [] && TxNext(c, st') == (st', None) && st'.slot == Idle
            && st'.hlc == st.hlc && st'.kind == kind && st'.pinned == pinned && st'.pull == PullIdle
  {
  }

  /** Giving up on a vector frees the member for another walk; nothing else is given up. */
  lemma ExpiryFreesTheMember(c: Config, st: State, peer: u32)
    requires peer != 0 && peer != c.me
    ensures st.pull == AwaitVector ==> PullStart(c, PullExpires(st), peer).pull == SendVectorReq
    ensures st.pull != AwaitVector ==> PullExpires(st) == st
  {
  }
}
