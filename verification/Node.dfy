/** A cluster member as it is built: one mutable record over a fixed array of entries and a fixed
    reassembly buffer, which every handler updates in place. */
module Node {
  import opened Bytes
  import opened Stamps
  import opened Document
  import opened Digest
  import opened Buckets
  import opened Fragments
  import opened Sync
  import opened Protocol
  import opened Table

  lemma {:induction false} DiffAppend(t: seq<Entry>, cap: nat, mine: Scope, wall: int, p: Pulling,
                                      rows: seq<Row>, more: seq<Row>)
    ensures DiffRows(t, cap, mine, wall, p, rows + more)
            == DiffRows(t, cap, mine, wall, DiffRows(t, cap, mine, wall, p, rows), more)
  {
    hide DiffRow;
    if |more| == 0 {
      assert rows + more == rows;
    } else {
      DiffAppend(t, cap, mine, wall, p, rows, more[..|more| - 1]);
      assert (rows + more)[..|rows + more| - 1] == rows + more[..|more| - 1];
    }
  }

  /** A full batch takes no notice of further rows. */
  lemma {:induction false} DiffFull(t: seq<Entry>, cap: nat, mine: Scope, wall: int, p: Pulling, rows: seq<Row>)
    requires |p.keys| >= PULL_KEYS
    ensures DiffRows(t, cap, mine, wall, p, rows) == p
  {
    if |rows| > 0 { DiffFull(t, cap, mine, wall, p, rows[..|rows| - 1]); }
  }

  /** The queued broadcasts of a ring, oldest first. */
  function QueueOf(ring: seq<Key>, head: nat, count: nat): (q: seq<Key>)
    requires |ring| == PUSH_QUEUE
    ensures |q| == count
  {
    seq(count, i requires 0 <= i < count => ring[(head + i) % PUSH_QUEUE])
  }

  lemma QueuePops(ring: seq<Key>, head: nat, count: nat)
    requires |ring| == PUSH_QUEUE && 0 < count && head < PUSH_QUEUE
    ensures QueueOf(ring, head, count)[0] == ring[head]
    ensures QueueOf(ring, (head + 1) % PUSH_QUEUE, count - 1) == QueueOf(ring, head, count)[1..]
  {
  }

  lemma QueueGrows(ring: seq<Key>, head: nat, count: nat, key: Key)
    requires |ring| == PUSH_QUEUE && count < PUSH_QUEUE && head < PUSH_QUEUE
    ensures QueueOf(ring[(head + count) % PUSH_QUEUE := key], head, count + 1) == QueueOf(ring, head, count) + [key]
  {
  }

  /** The requester half, the two responder halves and the broadcast ring. */
  datatype PullJob = PullJob(phase: PullState, peer: u32, keys: seq<Key>)
  datatype VectorJob = VectorJob(dest: u32, offset: nat, emitted: nat, scope: ScopeKind)
  datatype BurstJob = BurstJob(dest: u32, keys: seq<Key>, next: nat, off: nat)
  datatype PushRing = PushRing(slots: seq<Key>, head: nat, count: nat, off: nat)

  const NO_PULL := PullJob(PullIdle, 0, [])

  class Member {
    const c: Config
    const table: Store
    const frag: Reassembler
    var kind: ScopeKind
    var pinned: bool
    var hlc: Hlc
    var pull: PullJob
    var vec: VectorJob
    var ent: BurstJob
    var ring: PushRing
    var serve: Bucket
    var pushes: Bucket

    constructor (c: Config, kind: ScopeKind, pinned: bool, now: int)
      ensures Valid() && this.c == c && Abs() == Init(kind, pinned, now)
      ensures fresh(table) && fresh(table.entries) && fresh(frag) && fresh(frag.buf)
    {
      this.c, this.kind, this.pinned, hlc := c, kind, pinned, Hlc(0, 0);
      table := new Store(c.cap);
      frag := new Reassembler();
      pull, vec, ent := NO_PULL, VectorJob(0, 0, 0, BaseKind), BurstJob(0, [], 0, 0);
      ring := PushRing(seq(PUSH_QUEUE, _ => NO_ENTRY.key), 0, 0, 0);
      serve, pushes := Bucket(SERVE_BURST, now), Bucket(PUSH_BURST, now);
    }

    ghost predicate Valid()
      reads this, table, table.entries, frag
    {
      && |ring.slots| == PUSH_QUEUE && ring.head < PUSH_QUEUE && ring.count <= PUSH_QUEUE
      && table.Valid() && frag.Valid() && table.entries.Length == c.cap
      && table.entries as object != frag.buf as object
    }

    ghost function Abs(): State
      requires Valid()
      reads this, table, table.entries, frag, frag.buf
    {
      State(table.Rows(), kind, pinned, hlc, pull.phase, pull.peer, pull.keys,
            vec.dest, vec.offset, vec.emitted, vec.scope, ent.dest, ent.keys, ent.next, ent.off,
            QueueOf(ring.slots, ring.head, ring.count), ring.off, frag.Abs(), serve, pushes)
    }

    function Claim(): (s: Scope)
      reads this
    {
      MyScope(kind, c.me)
    }

    // ----- the claim ------------------------------------------------------------------

    /** Claim a scope, compact the array to it, and drop what described a document that is gone. */
    method ScopeSetLocked(newKind: ScopeKind, newPinned: bool) returns (evicted: seq<Key>)
      requires Valid()
      modifies this, table, table.entries, frag
      ensures Valid() && Abs() == ScopeSet(c, old(Abs()), newKind, newPinned)
      ensures evicted == KeysOutside(old(table.Rows()), MyScope(newKind, c.me))
    {
      hide Restrict, QueueOf, KeysOutside, Sorted;
      kind, pinned := newKind, newPinned;
      EvictedKeys(table.Rows(), Claim(), NO_ENTRY.key);
      evicted := table.Retain(Claim());
      if |evicted| > 0 { ForgetJobs(); }
    }

    method ForgetJobs()
      requires Valid()
      modifies `pull, `vec, `ent, `ring, frag
      ensures Valid()
      ensures Abs() == FragReset(PullReset(old(Abs())).(vecDest := 0, entDest := 0, entKeys := [], entNext := 0))
    {
      hide QueueOf, Sorted;
      pull, vec, ent := NO_PULL, vec.(dest := 0), BurstJob(0, [], 0, 0);
      ring := ring.(off := 0);
      frag.Release();
    }

    /** Forget the whole document and go back to the compiled claim. */
    method Clear(newKind: ScopeKind, newPinned: bool) returns (evicted: seq<Key>)
      requires Valid()
      modifies this, table, table.entries, frag
      ensures Valid() && Abs() == Reset(c, old(Abs()), newKind, newPinned)
      ensures |evicted| == |old(table.Rows())|
    {
      hide QueueOf, Sorted;
      evicted := table.Clear();
      kind, pinned := newKind, newPinned;
      ring := ring.(head := 0, count := 0);
      EmptyQueue(ring.slots, 0);
      ForgetJobs();
    }

    method DemoteLocked()
      requires Valid()
      modifies this, table, table.entries, frag
      ensures Valid() && Abs() == Demote(c, old(Abs()))
    {
      if pinned || kind == CoreKind { return; }
      var _ := ScopeSetLocked(CoreKind, false);
    }

    // ----- the requester --------------------------------------------------------------

    method StartPull(peer: u32)
      requires Valid()
      modifies `pull
      ensures Valid() && Abs() == PullStart(c, old(Abs()), peer)
    {
      if pull.phase != PullIdle || peer == 0 || peer == c.me { return; }
      pull := PullJob(SendVectorReq, peer, []);
    }

    /** The digest this member broadcasts, computed over the array. */
    method MakeDigest() returns (d: ClusterDigest)
      requires Valid()
      ensures d == BuildDigest(c.crc, table.Rows(), Claim())
    {
      var hash := table.HashScoped(c.crc, Claim());
      var count := table.CountScoped(Claim());
      var max := table.MaxStampScoped(Claim());
      var baseHash := table.HashScoped(c.crc, BASE_ONLY);
      var baseCount := table.CountScoped(BASE_ONLY);
      d := ClusterDigest(hash, count, max, ScopeToWire(Claim()), baseHash, baseCount);
    }

    /** The peer's triple over its whole claim if we claim all of that, else the base leg. */
    method Compare(from: u32, d: ClusterDigest) returns (cmp: Comparison)
      requires Valid()
      ensures cmp == CompareDigest(c.crc, table.Rows(), Claim(), from, d)
    {
      hide HashRows, MaxStamp, Restrict;
      var peer := ScopeFromWire(d.scope, from);
      if Intersect(Claim(), peer) == peer {
        var hash := table.HashScoped(c.crc, peer);
        var max := table.MaxStampScoped(peer);
        var count := table.CountScoped(peer);
        cmp := if hash == d.docHash && count == d.entryCount && max == d.maxStamp then Match else Mismatch;
      } else if d.scope == Unspecified {
        cmp := Incomparable;
      } else {
        var hash := table.HashScoped(c.crc, BASE_ONLY);
        var count := table.CountScoped(BASE_ONLY);
        cmp := if hash == d.baseHash && count == d.baseCount then Match else Mismatch;
      }
    }

    method HandleDigest(from: u32, d: ClusterDigest, wall: int, held: bool)
      requires Valid()
      modifies `pull, `hlc
      ensures Valid() && Abs() == OnDigest(c, old(Abs()), from, d, wall, held)
    {
      hide CompareDigest, ObserveAt, QueueOf, Sorted;
      hlc := ObserveAt(hlc, d.maxStamp, wall);
      var cmp := Compare(from, d);
      if cmp == Mismatch && !held { StartPull(from); }
    }

    method ExpirePull()
      requires Valid()
      modifies `pull
      ensures Valid() && Abs() == PullExpires(old(Abs()))
    {
      if pull.phase == AwaitVector { pull := NO_PULL; }
    }

    method DropChannel()
      requires Valid()
      modifies `pull, `vec, `ent, `ring, frag
      ensures Valid() && Abs() == LoseChannel(old(Abs()))
    {
      hide QueueOf, Sorted;
      pull, vec, ent := NO_PULL, vec.(dest := 0), ent.(dest := 0, off := 0);
      ring := ring.(off := 0);
      frag.Release();
    }

    method HandleVector(from: u32, v: Vector, wall: int)
      requires Valid()
      modifies this, table, table.entries, frag
      ensures Valid() && Abs() == OnVector(c, old(Abs()), from, v, wall)
    {
      hide DiffRows, ScopeSet, QueueOf, MyScope, EndsWalk, Sorted;
      if pull.phase == AwaitVector && from == pull.peer {
        var noSpace := DiffChunk(v.rows, wall);
        if noSpace {
          DemoteLocked();
          pull := NO_PULL;
        } else if |pull.keys| >= PULL_KEYS || EndsWalk(v) {
          pull := if |pull.keys| > 0 then pull.(phase := SendEntryReq) else NO_PULL;
        }
      }
    }

    method DiffChunk(rows: seq<Row>, wall: int) returns (noSpace: bool)
      requires Valid()
      modifies `pull, `hlc
      ensures Valid()
      ensures Pulling(pull.keys, hlc, noSpace)
              == DiffRows(table.Rows(), c.cap, Claim(), wall, Pulling(old(pull.keys), old(hlc), false), rows)
      ensures pull == old(pull).(keys := pull.keys)
    {
      hide DiffRow, ObserveAt, WantRow, Sorted;
      var mine := Claim();
      ghost var doc, start := table.Rows(), Pulling(pull.keys, hlc, false);
      noSpace := false;
      var i := 0;
      assert rows[..0] == [];
      while i < |rows| && |pull.keys| < PULL_KEYS
        invariant i <= |rows| && pull == old(pull).(keys := pull.keys)
        invariant Pulling(pull.keys, hlc, noSpace) == DiffRows(doc, c.cap, mine, wall, start, rows[..i])
      {
        var row := rows[i];
        assert rows[..i + 1][..i] == rows[..i];
        ghost var before := Pulling(pull.keys, hlc, noSpace);
        if Shareable(row.key.section) && WithinHorizon(row.stamp, wall) {
          hlc := ObserveAt(hlc, row.stamp, wall);
          var w := table.WantOf(mine, row.key, row.stamp);
          if w == WantYes { pull := pull.(keys := pull.keys + [row.key]); }
          if w == WantNoSpace { noSpace := true; }
        }
        RowIsDiffed(doc, c.cap, mine, wall, before, row);
        i := i + 1;
      }
      DiffAppend(doc, c.cap, mine, wall, start, rows[..i], rows[i..]);
      assert rows == rows[..i] + rows[i..];
      if i < |rows| { DiffFull(doc, c.cap, mine, wall, Pulling(pull.keys, hlc, noSpace), rows[i..]); }
    }

    // ----- the responder --------------------------------------------------------------

    method MayServe(now: int) returns (ok: bool)
      modifies `serve
      ensures ok == MayTake(old(serve), now, c.serveInterval, SERVE_BURST)
      ensures serve == Credit(old(serve), now, c.serveInterval, SERVE_BURST)
    {
      if c.serveInterval == 0 { return true; }
      var elapsed := now - serve.refill;
      if elapsed >= c.serveInterval {
        var gained := (elapsed / c.serveInterval) % WORD;
        serve := Bucket(Min((serve.tokens + gained) % WORD, SERVE_BURST),
                        serve.refill + gained * c.serveInterval);
      }
      ok := serve.tokens > 0;
    }

    method ServeStarted()
      modifies `serve
      ensures serve == old(serve).(tokens := Max(old(serve).tokens - 1, 0))
    {
      if serve.tokens > 0 { serve := serve.(tokens := serve.tokens - 1); }
    }

    method HandleVectorReq(from: u32, scope: WireScope, now: int)
      requires Valid()
      modifies `vec, `serve
      ensures Valid() && Abs() == OnVectorReq(c, old(Abs()), from, scope, now)
    {
      hide Credit, MayTake, AfterRequest, QueueOf, Sorted;
      RequestSpends(serve, now, c.serveInterval, SERVE_BURST);
      if vec.dest == 0 {
        var ok := MayServe(now);
        if ok {
          vec := VectorJob(from, 0, 0, ScopeFromWire(scope, from).kind);
          ServeStarted();
        }
      }
    }

    method HandleEntryReq(from: u32, keys: seq<Key>, now: int)
      requires Valid()
      modifies `ent, `serve
      ensures Valid() && Abs() == OnEntryReq(c, old(Abs()), from, keys, now)
    {
      hide Credit, MayTake, AfterRequest, QueueOf, Sorted;
      RequestSpends(serve, now, c.serveInterval, SERVE_BURST);
      if ent.dest == 0 {
        var ok := MayServe(now);
        if ok {
          ServeStarted();
          var taken: seq<Key>, i := [], 0;
          while i < |keys| && |taken| < PULL_KEYS
            invariant i == |taken| <= |keys| && i <= PULL_KEYS && taken == keys[..i]
          {
            taken := taken + [keys[i]];
            i := i + 1;
          }
          ent := BurstJob(if |taken| == 0 then 0 else from, taken, 0, 0);
        }
      }
    }

    // ----- ingest ---------------------------------------------------------------------

    /** Gates on key and stamp, reassembly in the buffer, the whole-entry gate, clock and merge. */
    method HandleEntry(from: u32, f: Fragment, wall: int, now: int)
      requires Valid()
      modifies `hlc, table, table.entries, frag, frag.buf
      ensures Valid() && Abs() == OnEntry(c, old(Abs()), from, f, wall, now)
    {
      hide Reassemble, AcceptTable, ObserveAt, AcceptVerdict, QueueOf, Sorted, Contains;
      if !Shareable(f.key.section) || !Contains(Claim(), f.key) { return; }
      if !c.gate(f.key, f.stamp) || !WithinHorizon(f.stamp, wall) { return; }
      var out := frag.Ingest(from, f, now, c.fragTimeout, FRAG_MAX);
      if out.None? { return; }
      var e := Entry(f.key, f.stamp, f.tombstone, out.value, f.sig);
      if !c.vouch(e) { return; }
      hlc := ObserveAt(hlc, e.stamp, wall);
      var _ := table.Accept(e);
    }

    /** One persisted record handed back at boot. */
    method Load(e: Entry, wellFormed: bool, wall: int)
      requires Valid()
      modifies `hlc, table, table.entries
      ensures Valid() && Abs() == LoadRecord(c, old(Abs()), e, wellFormed, wall)
    {
      hide AcceptTable, ObserveAt, AcceptVerdict, QueueOf, Sorted, Contains;
      if !Shareable(e.key.section) || !wellFormed || !Contains(Claim(), e.key) { return; }
      var _ := table.Accept(e);
      hlc := ObserveAt(hlc, e.stamp, wall);
    }

    // ----- transmitting ---------------------------------------------------------------

    method AdvanceEntry()
      modifies `ent
      ensures ent == old(ent).(off := 0, next := old(ent).next + 1,
                               dest := if old(ent).next + 1 >= |old(ent).keys| then 0 else old(ent).dest)
    {
      ent := ent.(off := 0, next := ent.next + 1);
      if ent.next >= |ent.keys| { ent := ent.(dest := 0); }
    }

    method AdvancePush()
      requires Valid() && ring.count > 0
      modifies `ring
      ensures Valid() && ring.count == old(ring).count - 1 && ring.off == 0
      ensures QueueOf(ring.slots, ring.head, ring.count)
              == QueueOf(old(ring).slots, old(ring).head, old(ring).count)[1..]
    {
      QueuePops(ring.slots, ring.head, ring.count);
      ring := PushRing(ring.slots, (ring.head + 1) % PUSH_QUEUE, ring.count - 1, 0);
    }

    /** Keys that vanished since the request are skipped. */
    method SkipVanished() returns (e: Option<Entry>)
      requires Valid()
      modifies `ent
      ensures Valid() && TxEntry(Abs()) == TxEntry(old(Abs()))
      ensures e.None? ==> ent.dest == 0 || ent.next >= |ent.keys|
      ensures e.Some? ==> ent.dest != 0 && ent.next < |ent.keys| && e == Find(table.Rows(), ent.keys[ent.next])
    {
      hide Find, EntryFragment, NextCursor, QueueOf, Sorted;
      e := None;
      while ent.dest != 0 && ent.next < |ent.keys|
        invariant Valid() && TxEntry(Abs()) == TxEntry(old(Abs())) && e.None?
        decreases |ent.keys| - ent.next
      {
        e := table.Lookup(ent.keys[ent.next]);
        if e.Some? { return; }
        AdvanceEntry();
      }
    }

    method TakeEntry() returns (frame: Option<Fragment>)
      requires Valid()
      modifies `ent
      ensures Valid() && (Abs(), frame) == TxEntry(old(Abs()))
    {
      hide Find, EntryFragment, NextCursor, QueueOf, Sorted;
      var e := SkipVanished();
      if e.None? {
        ent := ent.(dest := 0);
        return None;
      }
      frame := Some(EntryFragment(e.value, ent.off, FRAG_MAX));
      var next := NextCursor(e.value, ent.off, FRAG_MAX);
      if next >= |e.value.payload| { AdvanceEntry(); } else { ent := ent.(off := next); }
    }

    method TakeVector() returns (v: Vector)
      requires Valid()
      modifies `vec
      ensures Valid() && (Abs(), v) == TxVector(old(Abs()))
    {
      hide Restrict, ChunkEnd, QueueOf, ScopeMake, Sorted;
      var want, offset := ScopeMake(vec.scope, vec.dest), vec.emitted;
      var total := table.CountScoped(want);
      var rows := FillChunk(want);
      v := Vector(rows, offset, total);
      if vec.offset >= table.count { vec := vec.(dest := 0); }
    }

    method FillChunk(want: Scope) returns (rows: seq<Row>)
      requires Valid()
      modifies `vec
      ensures Valid()
      ensures var doc := table.Rows();
              var from := Min(old(vec).offset, |doc|);
              var end := ChunkEnd(doc, want, from, VECTOR_ROWS);
              && rows == RowsOf(Restrict(doc[from..end], want))
              && vec == old(vec).(offset := Max(old(vec).offset, end), emitted := old(vec).emitted + |rows|)
    {
      hide Restrict, ChunkEnd, Contains, Sorted;
      rows := [];
      ghost var doc := table.Rows();
      ghost var from := Min(vec.offset, |doc|);
      ghost var es: seq<Entry> := [];
      assert doc[from..from] == [];
      EmptyRestrict(want);
      while |rows| < VECTOR_ROWS && vec.offset < table.count
        invariant |rows| <= VECTOR_ROWS
        invariant vec == old(vec).(offset := vec.offset, emitted := old(vec).emitted + |rows|)
        invariant vec.offset == old(vec).offset || old(vec).offset <= vec.offset <= |doc|
        invariant es == Restrict(doc[from..Min(vec.offset, |doc|)], want) && rows == RowsOf(es)
        invariant ChunkEnd(doc, want, from, VECTOR_ROWS)
               == ChunkEnd(doc, want, Min(vec.offset, |doc|), VECTOR_ROWS - |rows|)
      {
        var e := table.entries[vec.offset];
        ChunkStep(doc, want, from, vec.offset, VECTOR_ROWS - |rows|);
        vec := vec.(offset := vec.offset + 1);
        if Contains(want, e.key) {
          rows := rows + [Row(e.key, e.stamp)];
          vec := vec.(emitted := vec.emitted + 1);
          es := es + [e];
        }
      }
      ChunkStops(doc, want, Min(vec.offset, |doc|), VECTOR_ROWS - |rows|);
    }

    method TakePush() returns (frame: Option<Fragment>)
      requires Valid()
      modifies `ring
      ensures Valid() && (Abs(), frame) == TxPush(old(Abs()))
    {
      hide Find, EntryFragment, NextCursor, QueueOf, Sorted;
      while ring.count > 0
        invariant Valid() && TxPush(Abs()) == TxPush(old(Abs()))
        decreases ring.count
      {
        QueuePops(ring.slots, ring.head, ring.count);
        var e := table.Lookup(ring.slots[ring.head]);
        if e.None? {
          AdvancePush();
          continue;
        }
        frame := Some(EntryFragment(e.value, ring.off, FRAG_MAX));
        var next := NextCursor(e.value, ring.off, FRAG_MAX);
        if next >= |e.value.payload| { AdvancePush(); } else { ring := ring.(off := next); }
        return;
      }
      frame := None;
    }

    method SendNext() returns (out: Option<(u32, Message)>)
      requires Valid()
      modifies `pull, `vec, `ent, `ring
      ensures Valid() && (Abs(), out) == TxNext(c, old(Abs()))
    {
      hide TxEntry, TxVector, TxPush, QueueOf, Sorted;
      var burst := ent.dest;
      var frame := TakeEntry();
      if frame.Some? { return Some((burst, EntryMsg(frame.value))); }
      if vec.dest != 0 {
        var to := vec.dest;
        var v := TakeVector();
        return Some((to, VectorMsg(v)));
      }
      if pull.phase == SendEntryReq {
        out := Some((pull.peer, EntryReq(pull.keys)));
        pull := NO_PULL;
        return;
      }
      if pull.phase == SendVectorReq {
        pull := pull.(phase := AwaitVector);
        return Some((pull.peer, VectorReq(ScopeToWire(Claim()))));
      }
      frame := TakePush();
      out := if frame.Some? then Some((BROADCAST, EntryMsg(frame.value))) else None;
    }

    // ----- local writes ---------------------------------------------------------------

    method MayPush(now: int) returns (ok: bool)
      modifies `pushes
      ensures ok == MayTake(old(pushes), now, c.pushInterval, PUSH_BURST)
      ensures pushes == Credit(old(pushes), now, c.pushInterval, PUSH_BURST)
    {
      if c.pushInterval == 0 { return true; }
      var elapsed := now - pushes.refill;
      if elapsed >= c.pushInterval {
        var gained := (elapsed / c.pushInterval) % WORD;
        pushes := Bucket(Min((pushes.tokens + gained) % WORD, PUSH_BURST),
                         pushes.refill + gained * c.pushInterval);
      }
      ok := pushes.tokens > 0;
    }

    method Enqueue(key: Key, now: int)
      requires Valid()
      modifies `ring, `pushes
      ensures Valid() && Abs() == PushEnqueue(c, old(Abs()), key, now)
    {
      hide Credit, MayTake, AfterRequest, QueueOf, Sorted;
      RequestSpends(pushes, now, c.pushInterval, PUSH_BURST);
      var queued := IsQueued(key);
      if !queued && ring.count < PUSH_QUEUE {
        var ok := MayPush(now);
        if ok {
          pushes := pushes.(tokens := if pushes.tokens > 0 then pushes.tokens - 1 else 0);
          QueueGrows(ring.slots, ring.head, ring.count, key);
          ring := ring.(slots := ring.slots[(ring.head + ring.count) % PUSH_QUEUE := key], count := ring.count + 1);
        }
      }
    }

    method IsQueued(key: Key) returns (queued: bool)
      requires Valid()
      ensures queued <==> key in QueueOf(ring.slots, ring.head, ring.count)
    {
      ghost var q := QueueOf(ring.slots, ring.head, ring.count);
      for i := 0 to ring.count
        invariant key !in q[..i]
      {
        assert q[i] == ring.slots[(ring.head + i) % PUSH_QUEUE];
        if ring.slots[(ring.head + i) % PUSH_QUEUE] == key { return true; }
      }
      assert q[..ring.count] == q;
      queued := false;
    }

    /** Mint, accept, narrow and retry once if there is no room, queue the push. */
    method Write(key: Key, storeStamp: Stamp, tombstone: bool, payload: seq<byte>, wall: int, now: int)
      returns (v: Verdict)
      requires Valid() && MintClock(Abs(), storeStamp, wall).physical <= PHYSICAL_END
      modifies this, table, table.entries, frag
      ensures Valid() && (Abs(), v) == WriteLocal(c, old(Abs()), key, storeStamp, tombstone, payload, wall, now)
    {
      hide ObserveAt, LocalAt, AcceptTable, AcceptVerdict, ScopeSet, PushEnqueue, QueueOf, Sorted;
      hlc := LocalAt(ObserveAt(hlc, storeStamp, wall), wall);
      var e := Entry(key, MintedStamp(hlc, c.me), tombstone, payload, None);
      e := e.(sig := c.sign(e));
      RefusedIsUnchanged(table.Rows(), c.cap, e);
      v := table.Accept(e);
      if v == NoSpace {
        DemoteLocked();
        v := table.Accept(e);
      }
      if v == Stored { Enqueue(key, now); }
    }
  }

  lemma EmptyQueue(ring: seq<Key>, head: nat)
    requires |ring| == PUSH_QUEUE
    ensures QueueOf(ring, head, 0) == []
  {
  }

  lemma EmptyRestrict(s: Scope)
    ensures Restrict([], s) == []
  {
  }

  lemma RowIsDiffed(t: seq<Entry>, cap: nat, mine: Scope, wall: int, p: Pulling, row: Row)
    requires |p.keys| < PULL_KEYS
    ensures DiffRow(t, cap, mine, wall, p, row)
            == if !Shareable(row.key.section) || !WithinHorizon(row.stamp, wall) then p
               else var w := WantRow(t, cap, mine, row.key, row.stamp);
                    Pulling(p.keys + (if w == WantYes then [row.key] else []),
                            ObserveAt(p.hlc, row.stamp, wall), p.noSpace || w == WantNoSpace)
  {
  }

  lemma ChunkStep(t: seq<Entry>, s: Scope, from: nat, at: nat, room: nat)
    requires from <= at < |t| && room > 0
    ensures ChunkEnd(t, s, at, room)
            == ChunkEnd(t, s, at + 1, if Contains(s, t[at].key) then room - 1 else room)
    ensures Restrict(t[from..at + 1], s)
            == Restrict(t[from..at], s) + if Contains(s, t[at].key) then [t[at]] else []
  {
    assert t[from..at + 1][..at - from] == t[from..at];
  }

  lemma ChunkStops(t: seq<Entry>, s: Scope, at: nat, room: nat)
    requires at <= |t| && (at == |t| || room == 0)
    ensures ChunkEnd(t, s, at, room) == at
  {
  }
}
