/** The anti-entropy walk as values: paging a stamp vector, diffing it, and what one
    walk and then many walks do to a document. */
module Sync {
  import opened Bytes
  import opened Stamps
  import opened Document
  import opened Digest
  import opened Merge

  const VECTOR_ROWS := 4
  const PULL_KEYS := 6

  /** device, position, power, display, lora, bluetooth, and firmware intent. */
  const SHAREABLE: seq<u16> := [1, 2, 3, 5, 6, 7, 0x100]

  predicate Shareable(section: u16) { section in SHAREABLE }

  /** A node whose wall clock is unseeded (`wall` <= 0) cannot judge, and accepts. */
  predicate WithinHorizon(stamp: Stamp, wall: int) {
    wall <= 0 || stamp.physical <= wall + MAX_DRIFT_MS
  }

  datatype Row = Row(key: Key, stamp: Stamp)
  datatype Vector = Vector(rows: seq<Row>, offset: nat, total: nat)

  function RowsOf(es: seq<Entry>): (rs: seq<Row>)
    ensures |rs| == |es| && forall i :: 0 <= i < |es| ==> rs[i] == Row(es[i].key, es[i].stamp)
  {
    seq(|es|, i requires 0 <= i < |es| => Row(es[i].key, es[i].stamp))
  }

  // ----- paging -----------------------------------------------------------------

  lemma {:induction false} RestrictAppend(a: seq<Entry>, b: seq<Entry>, s: Scope)
    ensures Restrict(a + b, s) == Restrict(a, s) + Restrict(b, s)
  {
    if |b| == 0 {
      assert a + b == a;
    } else {
      var init := b[..|b| - 1];
      RestrictAppend(a, init, s);
      assert (a + b)[..|a + b| - 1] == a + init;
    }
  }

  /** Where a chunk with room for `room` rows stops scanning. */
  function ChunkEnd(t: seq<Entry>, s: Scope, off: nat, room: nat): (end: nat)
    requires off <= |t|
    ensures off <= end <= |t|
    ensures off < |t| && room > 0 ==> off < end
    decreases |t| - off
  {
    if off == |t| || room == 0 then off
    else ChunkEnd(t, s, off + 1, if Contains(s, t[off].key) then room - 1 else room)
  }

  /** A chunk is full, or it reaches the end of the table. */
  lemma {:induction false} ChunkFills(t: seq<Entry>, s: Scope, off: nat, room: nat)
    requires off <= |t|
    ensures var n := |Restrict(t[off..ChunkEnd(t, s, off, room)], s)|;
            n <= room && (n == room || ChunkEnd(t, s, off, room) == |t|)
    decreases |t| - off
  {
    if off < |t| && room > 0 {
      var left := if Contains(s, t[off].key) then room - 1 else room;
      ChunkFills(t, s, off + 1, left);
      var end := ChunkEnd(t, s, off + 1, left);
      assert t[off..end] == [t[off]] + t[off + 1..end];
      RestrictAppend([t[off]], t[off + 1..end], s);
      assert [t[off]][..0] == [];
    }
  }

  /** The chunk a responder sends from table index `off`, in the requester's coordinates. */
  function VectorAt(t: seq<Entry>, s: Scope, off: nat): Vector
    requires off <= |t|
  {
    Vector(RowsOf(Restrict(t[off..ChunkEnd(t, s, off, VECTOR_ROWS)], s)),
           |Restrict(t[..off], s)|, |Restrict(t, s)|)
  }

  function Pages(t: seq<Entry>, s: Scope, off: nat): (ps: seq<Vector>)
    requires off <= |t|
    ensures |ps| > 0
    decreases |t| - off
  {
    var end := ChunkEnd(t, s, off, VECTOR_ROWS);
    [VectorAt(t, s, off)] + if end >= |t| then [] else Pages(t, s, end)
  }

  function AllRows(ps: seq<Vector>): seq<Row> {
    if |ps| == 0 then [] else AllRows(ps[..|ps| - 1]) + ps[|ps| - 1].rows
  }

  /** The receiver's end-of-walk test. */
  predicate EndsWalk(v: Vector) {
    v.total == 0 || v.offset + |v.rows| >= v.total
  }

  lemma {:induction false} AllRowsPrepend(p: Vector, ps: seq<Vector>)
    ensures AllRows([p] + ps) == p.rows + AllRows(ps)
  {
    if |ps| == 0 {
      assert [p] + ps == [p];
      assert [p][..0] == [];
    } else {
      AllRowsPrepend(p, ps[..|ps| - 1]);
      assert ([p] + ps)[..|ps|] == [p] + ps[..|ps| - 1];
    }
  }

  lemma ChunkSplits(t: seq<Entry>, s: Scope, off: nat, end: nat)
    requires off <= end <= |t|
    ensures Restrict(t[off..], s) == Restrict(t[off..end], s) + Restrict(t[end..], s)
    ensures Restrict(t[..end], s) == Restrict(t[..off], s) + Restrict(t[off..end], s)
  {
    assert t[off..] == t[off..end] + t[end..];
    RestrictAppend(t[off..end], t[end..], s);
    assert t[..end] == t[..off] + t[off..end];
    RestrictAppend(t[..off], t[off..end], s);
  }

  lemma {:induction false} PagesConcatenate(t: seq<Entry>, s: Scope, off: nat)
    requires off <= |t|
    ensures AllRows(Pages(t, s, off)) == RowsOf(Restrict(t[off..], s))
    decreases |t| - off
  {
    var end := ChunkEnd(t, s, off, VECTOR_ROWS);
    var p := VectorAt(t, s, off);
    ChunkSplits(t, s, off, end);
    RowsAppend(Restrict(t[off..end], s), Restrict(t[end..], s));
    if end < |t| {
      PagesConcatenate(t, s, end);
      AllRowsPrepend(p, Pages(t, s, end));
    } else {
      AllRowsPrepend(p, []);
      assert [p] + [] == [p];
      assert RowsOf(Restrict(t[end..], s)) == [];
    }
  }

  lemma RowsAppend(a: seq<Entry>, b: seq<Entry>)
    ensures RowsOf(a + b) == RowsOf(a) + RowsOf(b)
  {
  }

  lemma {:induction false} PagesNumber(t: seq<Entry>, s: Scope, off: nat, i: nat)
    requires off <= |t| && i < |Pages(t, s, off)|
    ensures Pages(t, s, off)[i].total == |Restrict(t, s)|
    ensures Pages(t, s, off)[i].offset == |Restrict(t[..off], s)| + |AllRows(Pages(t, s, off)[..i])|
    decreases |t| - off
  {
    if i > 0 {
      var end := ChunkEnd(t, s, off, VECTOR_ROWS);
      var p, rest := VectorAt(t, s, off), Pages(t, s, end);
      ChunkSplits(t, s, off, end);
      PagesNumber(t, s, end, i - 1);
      assert Pages(t, s, off)[..i] == [p] + rest[..i - 1];
      AllRowsPrepend(p, rest[..i - 1]);
    }
  }

  /** Paging is complete: the chunks concatenate to the in-scope rows, in order and each
      once, and the end test holds exactly from the chunk that completes them. */
  lemma PagingIsComplete(t: seq<Entry>, s: Scope, i: nat)
    requires i < |Pages(t, s, 0)|
    ensures AllRows(Pages(t, s, 0)) == RowsOf(Restrict(t, s))
    ensures EndsWalk(Pages(t, s, 0)[i])
            <==> AllRows(Pages(t, s, 0)[..i + 1]) == RowsOf(Restrict(t, s))
  {
    var ps := Pages(t, s, 0);
    PagesConcatenate(t, s, 0);
    PagesNumber(t, s, 0, i);
    assert t[0..] == t && t[..0] == [];
    assert Restrict(t[..0], s) == [];
    EndTestIsExact(ps, i, RowsOf(Restrict(t, s)));
  }

  lemma EndTestIsExact(ps: seq<Vector>, i: nat, all: seq<Row>)
    requires i < |ps| && AllRows(ps) == all
    requires ps[i].total == |all| && ps[i].offset == |AllRows(ps[..i])|
    ensures EndsWalk(ps[i]) <==> AllRows(ps[..i + 1]) == all
  {
    assert ps[..i + 1][..i] == ps[..i];
    PagesPrefix(ps, i + 1);
  }

  lemma {:induction false} PagesPrefix(ps: seq<Vector>, n: nat)
    requires n <= |ps|
    ensures |AllRows(ps[..n])| <= |AllRows(ps)|
    ensures AllRows(ps[..n]) == AllRows(ps)[..|AllRows(ps[..n])|]
  {
    if n == |ps| {
      assert ps[..n] == ps;
    } else {
      var init := ps[..|ps| - 1];
      PagesPrefix(init, n);
      assert init[..n] == ps[..n];
    }
  }

  // ----- diffing a vector ---------------------------------------------------------

  /** The requester's progress through a vector. */
  datatype Pulling = Pulling(keys: seq<Key>, hlc: Hlc, noSpace: bool)

  function DiffRow(t: seq<Entry>, cap: nat, mine: Scope, wall: int, p: Pulling, row: Row): Pulling {
    if |p.keys| >= PULL_KEYS || !Shareable(row.key.section) || !WithinHorizon(row.stamp, wall) then p
    else
      var seen := p.(hlc := ObserveAt(p.hlc, row.stamp, wall));
      match WantRow(t, cap, mine, row.key, row.stamp)
      case WantYes => seen.(keys := p.keys + [row.key])
      case WantNoSpace => seen.(noSpace := true)
      case WantNo => seen
  }

  function DiffRows(t: seq<Entry>, cap: nat, mine: Scope, wall: int, p: Pulling, rows: seq<Row>): Pulling {
    if |rows| == 0 then p
    else DiffRow(t, cap, mine, wall, DiffRows(t, cap, mine, wall, p, rows[..|rows| - 1]), rows[|rows| - 1])
  }

  /** The peer holds a version of `e.key` that this document lacks. */
  predicate Behind(t: seq<Entry>, e: Entry) {
    match Find(t, e.key)
    case None => true
    case Some(mine) => Newer(e.stamp, mine.stamp)
  }

  function BehindOf(t: seq<Entry>, es: seq<Entry>): seq<Entry> {
    if |es| == 0 then []
    else BehindOf(t, es[..|es| - 1]) + if Behind(t, es[|es| - 1]) then [es[|es| - 1]] else []
  }

  function Take<T>(s: seq<T>, n: nat): seq<T> { s[..Min(|s|, n)] }
  function Drop<T>(s: seq<T>, n: nat): seq<T> { s[Min(|s|, n)..] }

  function KeysOf(es: seq<Entry>): (ks: seq<Key>)
    ensures |ks| == |es| && forall i :: 0 <= i < |es| ==> ks[i] == es[i].key
  {
    seq(|es|, i requires 0 <= i < |es| => es[i].key)
  }

  /** A row every gate on the way to the document lets through. */
  predicate Admissible(mine: Scope, wall: int, e: Entry) {
    Acceptable(e) && Contains(mine, e.key) && Shareable(e.key.section) && WithinHorizon(e.stamp, wall)
  }

  /** Every row the peer is ahead on would be admitted; what it is not ahead on is never asked for. */
  predicate AllAdmissible(t: seq<Entry>, mine: Scope, wall: int, es: seq<Entry>) {
    forall e :: e in es && Behind(t, e) ==> Admissible(mine, wall, e)
  }

  /** The document has somewhere to put every key it might be offered. */
  predicate HasRoom(t: seq<Entry>, cap: nat, es: seq<Entry>) {
    |Keys(t) + Keys(es)| <= cap
  }

  /** Diffing a chunk of the peer's rows after `before` collects exactly the first batch of
      keys the peer is ahead on so far, and never reports overflow while there is room. */
  lemma {:induction false} DiffCollectsBehind(t: seq<Entry>, cap: nat, mine: Scope, wall: int, h: Hlc,
                                              before: seq<Entry>, es: seq<Entry>, all: seq<Entry>)
    requires Sorted(t) && AllAdmissible(t, mine, wall, es) && HasRoom(t, cap, all)
    requires forall e :: e in es ==> e in all
    ensures var start := Pulling(KeysOf(Take(BehindOf(t, before), PULL_KEYS)), h, false);
            var p := DiffRows(t, cap, mine, wall, start, RowsOf(es));
            p.keys == KeysOf(Take(BehindOf(t, before + es), PULL_KEYS)) && !p.noSpace
  {
    hide DiffRow, Behind, HasRoom, BehindOf;
    if |es| == 0 {
      assert before + es == before;
    } else {
      var init, last := es[..|es| - 1], es[|es| - 1];
      DiffCollectsBehind(t, cap, mine, wall, h, before, init, all);
      assert RowsOf(es)[..|es| - 1] == RowsOf(init);
      assert (before + es)[..|before + es| - 1] == before + init;
      assert last in es && last in all;
      var start := Pulling(KeysOf(Take(BehindOf(t, before), PULL_KEYS)), h, false);
      DiffStep(t, cap, mine, wall, DiffRows(t, cap, mine, wall, start, RowsOf(init)), before + init, last, all);
      assert before + es == before + init + [last];
    }
  }

  lemma DiffStep(t: seq<Entry>, cap: nat, mine: Scope, wall: int, p: Pulling, seen: seq<Entry>, e: Entry,
                 all: seq<Entry>)
    requires Sorted(t) && HasRoom(t, cap, all) && e in all && (Behind(t, e) ==> Admissible(mine, wall, e))
    requires p.keys == KeysOf(Take(BehindOf(t, seen), PULL_KEYS)) && !p.noSpace
    ensures var q := DiffRow(t, cap, mine, wall, p, Row(e.key, e.stamp));
            q.keys == KeysOf(Take(BehindOf(t, seen + [e]), PULL_KEYS)) && !q.noSpace
  {
    hide Behind, BehindOf, Take, KeysOf, WantRow, ObserveAt, Acceptable, HasRoom, Sorted;
    BehindAppend(t, seen, e);
    TakeGrows(BehindOf(t, seen), e);
    if Behind(t, e) { WantIsBehind(t, cap, mine, e, all); } else { HeldIsNotWanted(t, cap, mine, e); }
  }

  lemma BehindAppend(t: seq<Entry>, seen: seq<Entry>, e: Entry)
    ensures BehindOf(t, seen + [e]) == if Behind(t, e) then BehindOf(t, seen) + [e] else BehindOf(t, seen)
  {
    assert (seen + [e])[..|seen|] == seen;
  }

  lemma TakeGrows(x: seq<Entry>, e: Entry)
    ensures |KeysOf(Take(x, PULL_KEYS))| == Min(|x|, PULL_KEYS)
    ensures KeysOf(Take(x + [e], PULL_KEYS))
            == if |x| < PULL_KEYS then KeysOf(Take(x, PULL_KEYS)) + [e.key] else KeysOf(Take(x, PULL_KEYS))
  {
  }

  lemma HeldIsNotWanted(t: seq<Entry>, cap: nat, mine: Scope, e: Entry)
    requires !Behind(t, e)
    ensures WantRow(t, cap, mine, e.key, e.stamp) == WantNo
  {
  }

  lemma WantIsBehind(t: seq<Entry>, cap: nat, mine: Scope, e: Entry, all: seq<Entry>)
    requires Sorted(t) && Acceptable(e) && Contains(mine, e.key) && e in all && HasRoom(t, cap, all)
    ensures WantRow(t, cap, mine, e.key, e.stamp) == if Behind(t, e) then WantYes else WantNo
  {
    KeysMember(all, e.key);
    RoomMeansNoRefusal(t, cap, e, Keys(t) + Keys(all));
    WantMatchesAccept(t, cap, mine, e);
  }

  // ----- what one walk does -------------------------------------------------------

  function WalkBatch(t: seq<Entry>, es: seq<Entry>): seq<Entry> { Take(BehindOf(t, es), PULL_KEYS) }

  function WalkTable(t: seq<Entry>, cap: nat, es: seq<Entry>): seq<Entry> {
    AcceptAll(t, cap, WalkBatch(t, es))
  }

  lemma {:induction false} BehindMember(t: seq<Entry>, es: seq<Entry>, e: Entry)
    ensures e in BehindOf(t, es) <==> e in es && Behind(t, e)
  {
    if |es| > 0 {
      BehindMember(t, es[..|es| - 1], e);
      assert es == es[..|es| - 1] + [es[|es| - 1]];
    }
  }

  lemma {:induction false} BehindSorted(t: seq<Entry>, es: seq<Entry>)
    requires Sorted(es)
    ensures Sorted(BehindOf(t, es))
  {
    if |es| > 0 {
      var init, last := es[..|es| - 1], es[|es| - 1];
      BehindSorted(t, init);
      forall e | e in BehindOf(t, init) ensures KeyCmp(e.key, last.key) < 0 {
        BehindMember(t, init, e);
        var i :| 0 <= i < |init| && init[i] == e;
        assert es[i] == e;
      }
    }
  }

  /** A batch of distinct keys the document is behind on is stored whole, and nothing
      else changes. */
  lemma BatchIsStored(t: seq<Entry>, cap: nat, batch: seq<Entry>, k: Key)
    requires Sorted(t) && Sorted(batch) && HasRoom(t, cap, batch)
    requires forall e :: e in batch ==> Acceptable(e) && Behind(t, e)
    ensures Find(AcceptAll(t, cap, batch), k)
            == if Find(batch, k).Some? then Find(batch, k) else Find(t, k)
  {
    assert OfferedKeys(batch) == Keys(batch) by { AllOffered(batch); }
    NewestVersionWins(t, cap, batch, k);
    var r := Find(AcceptAll(t, cap, batch), k);
    forall e | e in batch && e.key == k ensures Find(batch, k) == Some(e) { FindMember(batch, e); }
    if Find(batch, k).Some? {
      var e := Find(batch, k).value;
      assert Candidate(Find(t, k), batch, k, e);
      assert Behind(t, e);
    } else {
      assert forall e :: Candidate(Find(t, k), batch, k, e) ==> Find(t, k) == Some(e);
      if Find(t, k).Some? { assert Candidate(Find(t, k), batch, k, Find(t, k).value); }
    }
  }

  lemma {:induction false} AllOffered(es: seq<Entry>)
    requires forall e :: e in es ==> Acceptable(e)
    ensures OfferedKeys(es) == Keys(es)
  {
    if |es| > 0 {
      assert es[|es| - 1] in es;
      AllOffered(es[..|es| - 1]);
    }
  }

  lemma KeysMonotone(a: seq<Entry>, b: seq<Entry>)
    requires forall e :: e in a ==> e in b
    ensures Keys(a) <= Keys(b)
  {
    forall k | k in Keys(a) ensures k in Keys(b) {
      KeysMember(a, k);
      KeysMember(b, k);
      var i :| 0 <= i < |a| && a[i].key == k;
      assert a[i] in b;
      var j :| 0 <= j < |b| && b[j] == a[i];
    }
  }

  lemma BatchFacts(t: seq<Entry>, cap: nat, es: seq<Entry>)
    requires Walkable(t, cap, es)
    ensures Sorted(WalkBatch(t, es)) && HasRoom(t, cap, WalkBatch(t, es))
    ensures forall e :: e in WalkBatch(t, es) ==> e in es && Acceptable(e) && Behind(t, e)
  {
    BehindSorted(t, es);
    forall e | e in WalkBatch(t, es) ensures e in es && Behind(t, e) { BehindMember(t, es, e); }
    KeysMonotone(WalkBatch(t, es), es);
    SubsetSize(Keys(t) + Keys(WalkBatch(t, es)), Keys(t) + Keys(es));
  }

  /** After a walk a row is still outstanding exactly when it was and was not in the batch. */
  lemma StillBehind(t: seq<Entry>, cap: nat, es: seq<Entry>, e: Entry)
    requires Walkable(t, cap, es) && e in es
    ensures Behind(WalkTable(t, cap, es), e) <==> Behind(t, e) && e !in WalkBatch(t, es)
  {
    var batch := WalkBatch(t, es);
    BatchFacts(t, cap, es);
    BatchIsStored(t, cap, batch, e.key);
    if e in batch { FindMember(batch, e); }
    else if Find(batch, e.key).Some? {
      FindMember(es, Find(batch, e.key).value);
      FindMember(es, e);
    }
  }

  lemma {:induction false} BehindPrefix(t: seq<Entry>, es: seq<Entry>, n: nat)
    requires n <= |es|
    ensures BehindOf(t, es[..n]) <= BehindOf(t, es)
  {
    if n == |es| {
      assert es[..n] == es;
    } else {
      BehindPrefix(t, es[..|es| - 1], n);
      assert es[..|es| - 1][..n] == es[..n];
    }
  }

  /** One completed walk clears exactly the first batch of what was outstanding: the count
      of keys the peer is ahead on drops by min(batch size, remaining). */
  lemma WalkMakesProgress(t: seq<Entry>, cap: nat, es: seq<Entry>)
    requires Walkable(t, cap, es)
    ensures BehindOf(WalkTable(t, cap, es), es) == Drop(BehindOf(t, es), PULL_KEYS)
  {
    ProgressOn(t, cap, es, |es|);
    assert es[..|es|] == es;
  }

  lemma {:induction false} ProgressOn(t: seq<Entry>, cap: nat, es: seq<Entry>, n: nat)
    requires Walkable(t, cap, es) && n <= |es|
    ensures BehindOf(WalkTable(t, cap, es), es[..n]) == Drop(BehindOf(t, es[..n]), PULL_KEYS)
  {
    hide WalkTable;
    hide Behind;
    if n > 0 {
      ProgressOn(t, cap, es, n - 1);
      BehindStep(t, es, n - 1);
      BehindStep(WalkTable(t, cap, es), es, n - 1);
      DropStep(BehindOf(t, es[..n - 1]), es[n - 1], PULL_KEYS);
      LeftOver(t, cap, es, n - 1);
    }
  }

  /** Row `i` stays outstanding exactly when a full batch precedes it. */
  lemma LeftOver(t: seq<Entry>, cap: nat, es: seq<Entry>, i: nat)
    requires Walkable(t, cap, es) && i < |es|
    ensures Behind(WalkTable(t, cap, es), es[i])
            <==> Behind(t, es[i]) && |BehindOf(t, es[..i])| >= PULL_KEYS
  {
    StillBehind(t, cap, es, es[i]);
    if Behind(t, es[i]) {
      var at := |BehindOf(t, es[..i])|;
      BehindStep(t, es, i);
      BehindPrefix(t, es, i + 1);
      assert BehindOf(t, es)[at] == es[i];
      BatchIndex(t, es, at);
    }
  }

  lemma BehindStep(t: seq<Entry>, es: seq<Entry>, i: nat)
    requires i < |es|
    ensures BehindOf(t, es[..i + 1]) == BehindOf(t, es[..i]) + if Behind(t, es[i]) then [es[i]] else []
  {
    assert es[..i + 1][..i] == es[..i];
  }

  lemma DropStep<T>(x: seq<T>, e: T, n: nat)
    ensures Drop(x + [e], n) == if |x| < n then [] else Drop(x, n) + [e]
    ensures |x| <= n ==> Drop(x, n) == []
  {
  }

  lemma DropDrop<T>(x: seq<T>, m: nat, n: nat)
    ensures Drop(Drop(x, m), n) == Drop(x, m + n)
  {
  }

  lemma BatchIndex(t: seq<Entry>, es: seq<Entry>, i: nat)
    requires Sorted(es) && i < |BehindOf(t, es)|
    ensures BehindOf(t, es)[i] in WalkBatch(t, es) <==> i < PULL_KEYS
  {
    BehindSorted(t, es);
    var bs := BehindOf(t, es);
    if i >= PULL_KEYS {
      forall j | 0 <= j < PULL_KEYS ensures bs[j] != bs[i] { assert KeyCmp(bs[j].key, bs[i].key) < 0; }
    } else {
      assert WalkBatch(t, es)[i] == bs[i];
    }
  }

  // ----- repeated walks converge --------------------------------------------------

  function Walks(t: seq<Entry>, cap: nat, es: seq<Entry>, n: nat): seq<Entry> {
    if n == 0 then t else WalkTable(Walks(t, cap, es, n - 1), cap, es)
  }

  /** What every step of the convergence argument carries along. */
  predicate Walkable(t: seq<Entry>, cap: nat, es: seq<Entry>) {
    Sorted(t) && Sorted(es) && HasRoom(t, cap, es) && forall e :: e in es ==> Acceptable(e)
  }

  lemma WalkKeeps(t: seq<Entry>, cap: nat, es: seq<Entry>)
    requires Walkable(t, cap, es)
    ensures Walkable(WalkTable(t, cap, es), cap, es)
  {
    var batch := WalkBatch(t, es);
    BatchFacts(t, cap, es);
    AcceptAllStaysSorted(t, cap, batch);
    AllOffered(batch);
    KeysMonotone(batch, es);
    SubsetSize(Keys(WalkTable(t, cap, es)) + Keys(es), Keys(t) + Keys(es));
  }

  /** `r` is what was held before, or one of the peer's rows. */
  predicate Origin(r: Option<Entry>, held: Option<Entry>, es: seq<Entry>) {
    r == held || (r.Some? && r.value in es)
  }

  lemma WalkOrigin(t: seq<Entry>, cap: nat, es: seq<Entry>, k: Key)
    requires Walkable(t, cap, es)
    ensures Origin(Find(WalkTable(t, cap, es), k), Find(t, k), es)
  {
    BatchFacts(t, cap, es);
    BatchIsStored(t, cap, WalkBatch(t, es), k);
  }

  lemma {:induction false} WalksKeep(t: seq<Entry>, cap: nat, es: seq<Entry>, n: nat)
    requires Walkable(t, cap, es)
    ensures Walkable(Walks(t, cap, es, n), cap, es)
  {
    hide WalkTable;
    if n > 0 {
      WalksKeep(t, cap, es, n - 1);
      WalkKeeps(Walks(t, cap, es, n - 1), cap, es);
    }
  }

  lemma {:induction false} WalksOrigin(t: seq<Entry>, cap: nat, es: seq<Entry>, n: nat, k: Key)
    requires Walkable(t, cap, es)
    ensures Origin(Find(Walks(t, cap, es, n), k), Find(t, k), es)
  {
    hide WalkTable;
    if n > 0 {
      WalksOrigin(t, cap, es, n - 1, k);
      WalksKeep(t, cap, es, n - 1);
      WalkOrigin(Walks(t, cap, es, n - 1), cap, es, k);
    }
  }

  /** `n` walks clear the first `n` batches of what was outstanding. */
  lemma {:induction false} WalksDrain(t: seq<Entry>, cap: nat, es: seq<Entry>, n: nat)
    requires Walkable(t, cap, es)
    ensures BehindOf(Walks(t, cap, es, n), es) == Drop(BehindOf(t, es), n * PULL_KEYS)
  {
    hide WalkTable, Walkable, BehindOf;
    if n > 0 {
      WalksDrain(t, cap, es, n - 1);
      WalksKeep(t, cap, es, n - 1);
      WalkMakesProgress(Walks(t, cap, es, n - 1), cap, es);
      DropDrop(BehindOf(t, es), (n - 1) * PULL_KEYS, PULL_KEYS);
    }
  }

  /** One stamp names one version across two documents. */
  predicate OneVersion(a: seq<Entry>, b: seq<Entry>) {
    forall e, f :: e in a + b && f in a + b && e.key == f.key && e.stamp == f.stamp ==> Bare(e) == Bare(f)
  }

  predicate Drained(t: seq<Entry>, es: seq<Entry>) {
    forall e :: e in es ==> !Behind(t, e)
  }

  /** Held after the walks means held before, or fetched from the peer's rows. */
  ghost predicate CameFrom(after: seq<Entry>, before: seq<Entry>, es: seq<Entry>) {
    forall k :: Origin(Find(after, k), Find(before, k), es)
  }

  /** Both sides drained, in either order of pulling, agree on everything both claim. */
  lemma DrainedSidesAgree(a: seq<Entry>, b: seq<Entry>, a': seq<Entry>, b': seq<Entry>, sa: Scope, sb: Scope)
    requires Sorted(a) && Sorted(b) && Sorted(a') && Sorted(b') && OneVersion(a, b)
    requires CameFrom(a', a, Restrict(b, sa)) && Drained(a', Restrict(b, sa))
    requires CameFrom(b', b, Restrict(a', sb)) && Drained(b', Restrict(a', sb))
    ensures AgreeOn(a', b', Intersect(sa, sb))
  {
    forall k | Contains(Intersect(sa, sb), k)
      ensures MapOption(Find(a', k), Bare) == MapOption(Find(b', k), Bare)
    {
      KeyAgrees(a, b, a', b', sa, sb, k);
    }
  }

  lemma KeyAgrees(a: seq<Entry>, b: seq<Entry>, a': seq<Entry>, b': seq<Entry>, sa: Scope, sb: Scope, k: Key)
    requires Sorted(a) && Sorted(b) && Sorted(a') && Sorted(b') && OneVersion(a, b)
    requires CameFrom(a', a, Restrict(b, sa)) && Drained(a', Restrict(b, sa))
    requires CameFrom(b', b, Restrict(a', sb)) && Drained(b', Restrict(a', sb))
    requires Contains(sa, k) && Contains(sb, k)
    ensures MapOption(Find(a', k), Bare) == MapOption(Find(b', k), Bare)
  {
    RestrictFind(b, sa, k);
    RestrictFind(a', sb, k);
    var x, y := Find(a', k), Find(b', k);
    if Find(b', k) == Find(b, k) {
      if y.Some? { assert y.value in Restrict(b, sa); }
      if x.Some? { assert x.value in Restrict(a', sb); }
      if x.Some? && y.Some? {
        NewerIsTotal(x.value.stamp, y.value.stamp);
        if x != Find(a, k) { RestrictMember(b, sa, x.value); }
        assert x.value in a + b && y.value in a + b;
      }
    } else {
      FindMember(Restrict(a', sb), y.value);
    }
  }

  /** Repeated walks terminate and converge: with room and admissible rows, enough walks in
      each direction bring two documents to agreement on the intersection of their claims,
      and then neither digest comparison reports a mismatch. */
  lemma RepeatedWalksConverge(crc: Crc, a: seq<Entry>, b: seq<Entry>, capA: nat, capB: nat,
                              kindA: ScopeKind, kindB: ScopeKind, idA: u32, idB: u32, n: nat, m: nat)
    requires kindA != BaseKind && kindB != BaseKind
    requires Sorted(a) && Sorted(b) && OneVersion(a, b)
    requires forall e :: e in a + b ==> Acceptable(e)
    requires HasRoom(a, capA, Restrict(b, MyScope(kindA, idA)))
    requires var a' := Walks(a, capA, Restrict(b, MyScope(kindA, idA)), n);
             HasRoom(b, capB, Restrict(a', MyScope(kindB, idB)))
             && m * PULL_KEYS >= |BehindOf(b, Restrict(a', MyScope(kindB, idB)))|
    requires n * PULL_KEYS >= |BehindOf(a, Restrict(b, MyScope(kindA, idA)))|
    ensures var sa, sb := MyScope(kindA, idA), MyScope(kindB, idB);
            var a' := Walks(a, capA, Restrict(b, sa), n);
            var b' := Walks(b, capB, Restrict(a', sb), m);
            && AgreeOn(a', b', Intersect(sa, sb))
            && CompareDigest(crc, a', sa, idB, BuildDigest(crc, b', sb)) == Match
            && CompareDigest(crc, b', sb, idA, BuildDigest(crc, a', sa)) == Match
  {
    var sa, sb := MyScope(kindA, idA), MyScope(kindB, idB);
    var fromB := Restrict(b, sa);
    var a' := Walks(a, capA, fromB, n);
    OfferIsAcceptable(b, a, sa);
    DrainFully(a, capA, fromB, n);
    OriginsAcceptable(a', a, b, sa);
    var fromA := Restrict(a', sb);
    var b' := Walks(b, capB, fromA, m);
    OfferIsAcceptable(a', a', sb);
    DrainFully(b, capB, fromA, m);
    DrainedSidesAgree(a, b, a', b', sa, sb);
    BuiltDigestDescribes(crc, b', kindB, idB);
    AgreementNeverMismatches(crc, a', b', sa, idB, BuildDigest(crc, b', sb));
    BuiltDigestDescribes(crc, a', kindA, idA);
    AgreeSymmetric(a', b', sa, sb);
    AgreementNeverMismatches(crc, b', a', sb, idA, BuildDigest(crc, a', sa));
  }

  lemma AgreeSymmetric(a: seq<Entry>, b: seq<Entry>, sa: Scope, sb: Scope)
    requires AgreeOn(a, b, Intersect(sa, sb))
    ensures AgreeOn(b, a, Intersect(sb, sa))
  {
  }

  lemma OfferIsAcceptable(b: seq<Entry>, a: seq<Entry>, s: Scope)
    requires Sorted(b) && forall e :: e in a + b ==> Acceptable(e)
    ensures Sorted(Restrict(b, s)) && forall e :: e in Restrict(b, s) ==> Acceptable(e)
  {
    RestrictSorted(b, s);
    forall e | e in Restrict(b, s) ensures Acceptable(e) {
      RestrictMember(b, s, e);
      assert e in a + b;
    }
  }

  lemma OriginsAcceptable(a': seq<Entry>, a: seq<Entry>, b: seq<Entry>, s: Scope)
    requires Sorted(a') && Sorted(a) && CameFrom(a', a, Restrict(b, s))
    requires forall e :: e in a + b ==> Acceptable(e)
    ensures forall e :: e in a' + a' ==> Acceptable(e)
  {
    forall e | e in a' ensures Acceptable(e) {
      FindMember(a', e);
      if Find(a, e.key) != Some(e) { RestrictMember(b, s, e); }
      assert e in a + b;
    }
  }

  /** Enough walks leave nothing outstanding, and invent nothing. */
  lemma DrainFully(t: seq<Entry>, cap: nat, es: seq<Entry>, n: nat)
    requires Walkable(t, cap, es) && n * PULL_KEYS >= |BehindOf(t, es)|
    ensures var t' := Walks(t, cap, es, n); Sorted(t') && Drained(t', es) && CameFrom(t', t, es)
  {
    var t' := Walks(t, cap, es, n);
    WalksKeep(t, cap, es, n);
    WalksDrain(t, cap, es, n);
    NothingOutstanding(t', es);
    forall k ensures Origin(Find(t', k), Find(t, k), es) { WalksOrigin(t, cap, es, n, k); }
  }

  lemma NothingOutstanding(t: seq<Entry>, es: seq<Entry>)
    requires BehindOf(t, es) == []
    ensures Drained(t, es)
  {
    forall e | e in es ensures !Behind(t, e) { BehindMember(t, es, e); }
  }
}
