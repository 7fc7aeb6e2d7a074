/** What a peer's rows do to a member, row by row: which are asked for, which the clock sees, and
    exactly when they make it narrow its claim. */
module Overflow {
  import opened Bytes
  import opened Stamps
  import opened Document
  import opened Digest
  import opened Fragments
  import opened Sync
  import opened Protocol

  /** A row the member may act on: a valid key of a shared section inside its claim, with a stamp
      that is set and not too far ahead. */
  predicate Relevant(mine: Scope, wall: int, row: Row) {
    && row.key.section in SHAREABLE && (wall <= 0 || row.stamp.physical <= wall + MAX_DRIFT_MS)
    && (if row.key.layer == LAYER_BASE then row.key.node == 0 else row.key.layer == LAYER_NODE && row.key.node != 0)
    && row.stamp != UNSET && Contains(mine, row.key)
  }

  /** Newer than what is held, or new and there is room. */
  predicate Wanted(t: seq<Entry>, cap: nat, mine: Scope, wall: int, row: Row) {
    Relevant(mine, wall, row)
    && match Find(t, row.key)
       case Some(e) => Newer(row.stamp, e.stamp)
       case None => |t| < cap
  }

  /** New, and there is no room. */
  predicate Overflows(t: seq<Entry>, cap: nat, mine: Scope, wall: int, row: Row) {
    Relevant(mine, wall, row) && Find(t, row.key).None? && |t| >= cap
  }

  function WantedAmong(t: seq<Entry>, cap: nat, mine: Scope, wall: int, rows: seq<Row>): (ks: seq<Key>) {
    if |rows| == 0 then []
    else
      var row := rows[|rows| - 1];
      WantedAmong(t, cap, mine, wall, rows[..|rows| - 1]) + if Wanted(t, cap, mine, wall, row) then [row.key] else []
  }

  /** The batch was not yet full when row `i` came up. */
  predicate Reached(t: seq<Entry>, cap: nat, mine: Scope, wall: int, taken: nat, rows: seq<Row>, i: nat)
    requires i <= |rows|
  {
    taken + |WantedAmong(t, cap, mine, wall, rows[..i])| < PULL_KEYS
  }

  lemma RowStep(t: seq<Entry>, cap: nat, mine: Scope, wall: int, p: Pulling, row: Row)
    ensures var q := DiffRow(t, cap, mine, wall, p, row);
            if |p.keys| >= PULL_KEYS then q == p
            else && q.keys == p.keys + (if Wanted(t, cap, mine, wall, row) then [row.key] else [])
                 && (q.noSpace <==> p.noSpace || Overflows(t, cap, mine, wall, row))
                 && q.hlc == if row.key.section in SHAREABLE && (wall <= 0 || row.stamp.physical <= wall + MAX_DRIFT_MS)
                             then ObserveAt(p.hlc, row.stamp, wall) else p.hlc
  {
    hide ObserveAt, Find, Contains, Newer;
  }

  /** The batch is the wanted keys in order, cut off when it is full. */
  lemma {:induction false} DiffTakes(t: seq<Entry>, cap: nat, mine: Scope, wall: int, p: Pulling, rows: seq<Row>)
    requires |p.keys| <= PULL_KEYS
    ensures DiffRows(t, cap, mine, wall, p, rows).keys
            == Take(p.keys + WantedAmong(t, cap, mine, wall, rows), PULL_KEYS)
  {
    hide DiffRow, Wanted, Overflows;
    if |rows| > 0 {
      var init := rows[..|rows| - 1];
      DiffTakes(t, cap, mine, wall, p, init);
      RowStep(t, cap, mine, wall, DiffRows(t, cap, mine, wall, p, init), rows[|rows| - 1]);
    } else {
      assert p.keys + [] == p.keys;
    }
  }

  lemma LastReached(t: seq<Entry>, cap: nat, mine: Scope, wall: int, p: Pulling, rows: seq<Row>)
    requires |p.keys| <= PULL_KEYS && |rows| > 0
    ensures |DiffRows(t, cap, mine, wall, p, rows[..|rows| - 1]).keys| < PULL_KEYS
            <==> Reached(t, cap, mine, wall, |p.keys|, rows, |rows| - 1)
  {
    hide DiffRows, WantedAmong;
    DiffTakes(t, cap, mine, wall, p, rows[..|rows| - 1]);
  }

  /** Some row that is reached is new while the table is full. */
  ghost predicate AnyOverflow(t: seq<Entry>, cap: nat, mine: Scope, wall: int, taken: nat, rows: seq<Row>) {
    exists i :: 0 <= i < |rows| && Reached(t, cap, mine, wall, taken, rows, i) && Overflows(t, cap, mine, wall, rows[i])
  }

  lemma AnyOverflowStep(t: seq<Entry>, cap: nat, mine: Scope, wall: int, taken: nat, rows: seq<Row>)
    requires |rows| > 0
    ensures AnyOverflow(t, cap, mine, wall, taken, rows)
            <==> || AnyOverflow(t, cap, mine, wall, taken, rows[..|rows| - 1])
                 || (Reached(t, cap, mine, wall, taken, rows, |rows| - 1) && Overflows(t, cap, mine, wall, rows[|rows| - 1]))
  {
    hide Overflows, WantedAmong;
    var init := rows[..|rows| - 1];
    assert forall i :: 0 <= i < |init| ==> init[i] == rows[i] && init[..i] == rows[..i];
    if AnyOverflow(t, cap, mine, wall, taken, init) {
      var i :| 0 <= i < |init| && Reached(t, cap, mine, wall, taken, init, i) && Overflows(t, cap, mine, wall, init[i]);
      assert Reached(t, cap, mine, wall, taken, rows, i);
    }
    if AnyOverflow(t, cap, mine, wall, taken, rows) {
      var i :| 0 <= i < |rows| && Reached(t, cap, mine, wall, taken, rows, i) && Overflows(t, cap, mine, wall, rows[i]);
      if i < |init| { assert Reached(t, cap, mine, wall, taken, init, i); }
    }
  }

  lemma {:induction false} DiffOverflows(t: seq<Entry>, cap: nat, mine: Scope, wall: int, p: Pulling, rows: seq<Row>)
    requires |p.keys| <= PULL_KEYS && !p.noSpace
    ensures DiffRows(t, cap, mine, wall, p, rows).noSpace <==> AnyOverflow(t, cap, mine, wall, |p.keys|, rows)
  {
    hide DiffRow, Overflows, Wanted, AnyOverflow, Reached;
    if |rows| > 0 {
      var init := rows[..|rows| - 1];
      DiffOverflows(t, cap, mine, wall, p, init);
      RowStep(t, cap, mine, wall, DiffRows(t, cap, mine, wall, p, init), rows[|rows| - 1]);
      LastReached(t, cap, mine, wall, p, rows);
      AnyOverflowStep(t, cap, mine, wall, |p.keys|, rows);
    } else {
      NoOverflow(t, cap, mine, wall, |p.keys|);
    }
  }

  lemma NoOverflow(t: seq<Entry>, cap: nat, mine: Scope, wall: int, taken: nat)
    ensures !AnyOverflow(t, cap, mine, wall, taken, [])
  {
  }

  /** Hearing a chunk narrows the claim exactly when a row that is reached is relevant and new while
      the table is full, and the claim is neither pinned nor CORE already. Then the table is
      compacted to CORE. With or without narrowing, such a row ends the walk; without one, neither
      the claim nor the document changes. */
  lemma NarrowsExactly(c: Config, st: State, from: u32, v: Vector, wall: int)
    requires st.pull == AwaitVector && from == st.pullPeer && |st.pullKeys| <= PULL_KEYS
    ensures var over := AnyOverflow(st.doc, c.cap, Mine(c, st), wall, |st.pullKeys|, v.rows);
            var st' := OnVector(c, st, from, v, wall);
            && (if over && !st.pinned && st.kind != CoreKind
                then st'.kind == CoreKind && st'.doc == Restrict(st.doc, MyScope(CoreKind, c.me))
                else st'.kind == st.kind && st'.doc == st.doc)
            && (over ==> st'.pull == PullIdle && st'.pullPeer == 0 && st'.pullKeys == [])
  {
    hide DiffRows, Restrict, AnyOverflow;
    DiffOverflows(st.doc, c.cap, Mine(c, st), wall, Pulling(st.pullKeys, st.hlc, false), v.rows);
  }

  /** A vector from anyone but the peer being walked, or after the batch was complete, changes
      nothing at all. */
  lemma UnsolicitedIsIgnored(c: Config, st: State, from: u32, v: Vector, wall: int)
    requires st.pull != AwaitVector || from != st.pullPeer
    ensures OnVector(c, st, from, v, wall) == st
  {
  }

  /** A batch is asked for as soon as it is full or the last chunk is in, from the same peer and with
      the wanted keys in the order they came; with none wanted the walk is over. Until then the
      member waits on. */
  lemma AsksExactly(c: Config, st: State, from: u32, v: Vector, wall: int)
    requires st.pull == AwaitVector && from == st.pullPeer && |st.pullKeys| <= PULL_KEYS
    requires !AnyOverflow(st.doc, c.cap, Mine(c, st), wall, |st.pullKeys|, v.rows)
    ensures var wanted := st.pullKeys + WantedAmong(st.doc, c.cap, Mine(c, st), wall, v.rows);
            var last := v.total == 0 || v.offset + |v.rows| >= v.total;
            var st' := OnVector(c, st, from, v, wall);
            && (st'.pull == SendEntryReq <==> wanted != [] && (last || |wanted| >= PULL_KEYS))
            && (st'.pull == AwaitVector <==> !last && |wanted| < PULL_KEYS)
            && (st'.pull == PullIdle <==> last && wanted == [])
            && (st'.pull != PullIdle ==> st'.pullPeer == from && st'.pullKeys == Take(wanted, PULL_KEYS))
  {
    hide DiffRows, WantedAmong, AnyOverflow;
    DiffOverflows(st.doc, c.cap, Mine(c, st), wall, Pulling(st.pullKeys, st.hlc, false), v.rows);
    DiffTakes(st.doc, c.cap, Mine(c, st), wall, Pulling(st.pullKeys, st.hlc, false), v.rows);
  }

  // ----- the clock sees the rows -----------------------------------------------------------------

  /** Every row that is reached and passes the first gates is behind the clock from then on. */
  lemma {:induction false} DiffSees(t: seq<Entry>, cap: nat, mine: Scope, wall: int, p: Pulling, rows: seq<Row>, i: nat)
    requires |p.keys| <= PULL_KEYS && i < |rows| && Reached(t, cap, mine, wall, |p.keys|, rows, i)
    requires rows[i].key.section in SHAREABLE && (wall <= 0 || rows[i].stamp.physical <= wall + MAX_DRIFT_MS)
    ensures Covers(DiffRows(t, cap, mine, wall, p, rows).hlc, rows[i].stamp)
  {
    hide DiffRow, Wanted, Overflows, ObserveAt, Covers, Reached;
    var init, last := rows[..|rows| - 1], rows[|rows| - 1];
    var q := DiffRows(t, cap, mine, wall, p, init);
    RowStep(t, cap, mine, wall, q, last);
    if i == |rows| - 1 {
      LastReached(t, cap, mine, wall, p, rows);
      ObservePassesRemote(q.hlc, last.stamp, wall);
      AfterCovers(ObserveAt(q.hlc, last.stamp, wall), last.stamp);
    } else {
      ReachedEarlier(t, cap, mine, wall, |p.keys|, rows, i);
      DiffSees(t, cap, mine, wall, p, init, i);
      CoverIsStable(q.hlc, rows[i].stamp, last.stamp, wall);
    }
  }

  lemma ReachedEarlier(t: seq<Entry>, cap: nat, mine: Scope, wall: int, taken: nat, rows: seq<Row>, i: nat)
    requires i < |rows| - 1 && Reached(t, cap, mine, wall, taken, rows, i)
    ensures Reached(t, cap, mine, wall, taken, rows[..|rows| - 1], i)
  {
    assert rows[..|rows| - 1][..i] == rows[..i];
  }

  lemma AfterCovers(h: Hlc, s: Stamp)
    requires After(h, s.physical, s.counter)
    ensures Covers(h, s)
  {
  }

  /** Diffing never takes the clock back. */
  lemma {:induction false} DiffKeepsClock(t: seq<Entry>, cap: nat, mine: Scope, wall: int, p: Pulling, rows: seq<Row>,
                                          s: Stamp)
    requires Covers(p.hlc, s)
    ensures Covers(DiffRows(t, cap, mine, wall, p, rows).hlc, s)
  {
    hide DiffRow, Wanted, Overflows, ObserveAt, Covers;
    if |rows| > 0 {
      var init, last := rows[..|rows| - 1], rows[|rows| - 1];
      DiffKeepsClock(t, cap, mine, wall, p, init, s);
      var q := DiffRows(t, cap, mine, wall, p, init);
      RowStep(t, cap, mine, wall, q, last);
      CoverIsStable(q.hlc, s, last.stamp, wall);
    }
  }
}
