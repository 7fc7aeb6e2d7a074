/** Entry fragmentation: the sender's cursor arithmetic and the receiver's single
    reassembly slot. */
module Fragments {
  import opened Bytes
  import opened Stamps
  import opened Document

  /** One ClusterEntry frame: a slice of an entry's payload, self-identifying. */
  datatype Fragment = Fragment(key: Key, stamp: Stamp, tombstone: bool, total: nat, offset: nat,
                               bytes: seq<byte>, sig: Option<seq<byte>>)

  /** What identifies a version on the wire. */
  datatype Version = Version(key: Key, stamp: Stamp, tombstone: bool)

  function VersionOf(f: Fragment): Version { Version(f.key, f.stamp, f.tombstone) }
  function EntryVersion(e: Entry): Version { Version(e.key, e.stamp, e.tombstone) }

  // ----- sending --------------------------------------------------------------

  /** The cursor to send from, and how much: a cursor past the end of a payload that
      shrank under it restarts at zero instead of underflowing. */
  function FragTake(len: nat, off: nat, cap: nat): (r: (nat, nat))
    ensures r.0 + r.1 <= len && r.1 <= cap
    ensures r.0 == off || (off > len && r.0 == 0)
    ensures cap > 0 && r.0 < len ==> r.1 > 0
  {
    var from := if off > len then 0 else off;
    (from, Min(len - from, cap))
  }

  function EntryFragment(e: Entry, off: nat, cap: nat): (f: Fragment) {
    var (from, take) := FragTake(|e.payload|, off, cap);
    Fragment(e.key, e.stamp, e.tombstone, |e.payload|, from, e.payload[from..from + take],
             if from + take >= |e.payload| then e.sig else None)
  }

  /** Where the cursor stands after `EntryFragment`. */
  function NextCursor(e: Entry, off: nat, cap: nat): nat {
    var (from, take) := FragTake(|e.payload|, off, cap);
    from + take
  }

  /** Everything the sender emits for one entry from cursor `off`. */
  function FragmentsFrom(e: Entry, off: nat, cap: nat): (fs: seq<Fragment>)
    requires cap > 0 && off <= |e.payload|
    ensures |fs| > 0
    decreases |e.payload| - off
  {
    var next := NextCursor(e, off, cap);
    [EntryFragment(e, off, cap)]
    + if next >= |e.payload| then [] else FragmentsFrom(e, next, cap)
  }

  /** A fragment that is what it says: a slice of the one payload its version names. */
  predicate Honest(payloadOf: Version -> seq<byte>, f: Fragment) {
    var p := payloadOf(VersionOf(f));
    f.total == |p| && f.offset + |f.bytes| <= |p| && f.bytes == p[f.offset..f.offset + |f.bytes|]
  }

  /** Whatever the cursor says, including one left over from another version of the key,
      the sender emits an honest fragment of the version it reads now. */
  lemma SenderIsHonest(payloadOf: Version -> seq<byte>, e: Entry, off: nat, cap: nat)
    requires payloadOf(EntryVersion(e)) == e.payload
    ensures Honest(payloadOf, EntryFragment(e, off, cap))
  {
  }

  // ----- receiving ------------------------------------------------------------

  datatype Slot =
    | Idle
    | Busy(from: u32, version: Version, total: nat, held: seq<byte>, deadline: int)

  predicate Fits(f: Fragment, fragMax: nat) {
    var total := if f.total == 0 then |f.bytes| else f.total;
    total <= PAYLOAD_MAX && |f.bytes| <= fragMax && f.offset + |f.bytes| <= total
  }

  function TotalOf(f: Fragment): nat { if f.total == 0 then |f.bytes| else f.total }

  predicate Matches(slot: Slot, from: u32, f: Fragment) {
    slot.Busy? && slot.from == from && slot.version == VersionOf(f) && slot.total == TotalOf(f)
  }

  function Expire(slot: Slot, now: int): Slot {
    if slot.Busy? && now > slot.deadline then Idle else slot
  }

  /** One received fragment: the new slot, and a payload when it completes one. */
  function Reassemble(slot: Slot, from: u32, f: Fragment, now: int, timeout: nat, fragMax: nat)
    : (r: (Slot, Option<seq<byte>>))
  {
    if !Fits(f, fragMax) then (slot, None)
    else if f.offset == 0 && |f.bytes| == TotalOf(f) then (slot, Some(f.bytes))
    else
      var live := Expire(slot, now);
      if !Matches(live, from, f) && f.offset != 0 then (live, None)
      else
        var held := if Matches(live, from, f) then live.held else [];
        if f.offset != |held| then (live, None)
        else if |held + f.bytes| < TotalOf(f) then
          (Busy(from, VersionOf(f), TotalOf(f), held + f.bytes, now + timeout), None)
        else (Idle, Some(held + f.bytes))
  }

  class Reassembler {
    const buf: array<byte>
    var active: bool
    var from: u32
    var version: Version
    var total: nat
    var have: nat
    var deadline: int

    constructor ()
      ensures Valid() && fresh(buf) && Abs() == Idle
    {
      buf := new byte[PAYLOAD_MAX];
      active, from, version, total, have, deadline :=
        false, 0, Version(NO_ENTRY.key, UNSET, false), 0, 0, 0;
    }

    ghost predicate Valid() reads this {
      buf.Length == PAYLOAD_MAX && (active ==> have <= total <= PAYLOAD_MAX)
    }

    ghost function Abs(): Slot
      requires Valid()
      reads this, buf
    {
      if active then Busy(from, version, total, buf[..have], deadline) else Idle
    }

    method Release()
      requires Valid()
      modifies this
      ensures Valid() && Abs() == Idle
    {
      active := false;
    }

    method CopyIn(off: nat, bytes: seq<byte>)
      requires off + |bytes| <= buf.Length
      modifies buf
      ensures buf[..off + |bytes|] == old(buf[..off]) + bytes
    {
      for i := 0 to |bytes|
        invariant buf[..off + i] == old(buf[..off]) + bytes[..i]
      {
        buf[off + i] := bytes[i];
      }
    }

    method Ingest(sender: u32, f: Fragment, now: int, timeout: nat, fragMax: nat)
      returns (out: Option<seq<byte>>)
      requires Valid()
      modifies this, buf
      ensures Valid()
      ensures (Abs(), out) == Reassemble(old(Abs()), sender, f, now, timeout, fragMax)
    {
      if !Fits(f, fragMax) { return None; }
      var all := TotalOf(f);
      if f.offset == 0 && |f.bytes| == all { return Some(f.bytes); }

      if active && now > deadline { active := false; }
      if !(active && from == sender && version == VersionOf(f) && total == all) {
        if f.offset != 0 { return None; }
        active, from, version, total, have := true, sender, VersionOf(f), all, 0;
      }
      if f.offset != have { return None; }

      CopyIn(f.offset, f.bytes);
      have := f.offset + |f.bytes|;
      deadline := now + timeout;
      if have < all { return None; }
      active := false;
      out := Some(buf[..all]);
    }
  }

  // ----- a run of the slot ------------------------------------------------------

  datatype Arrival = Arrival(from: u32, fragment: Fragment, now: int)

  function RunSlot(slot: Slot, arrivals: seq<Arrival>, timeout: nat, fragMax: nat): Slot {
    if |arrivals| == 0 then slot
    else
      var a := arrivals[|arrivals| - 1];
      Reassemble(RunSlot(slot, arrivals[..|arrivals| - 1], timeout, fragMax), a.from, a.fragment, a.now, timeout, fragMax).0
  }

  /** What the last of `arrivals` completes, if anything. */
  function LastOutput(slot: Slot, arrivals: seq<Arrival>, timeout: nat, fragMax: nat)
    : Option<seq<byte>>
    requires |arrivals| > 0
  {
    var a := arrivals[|arrivals| - 1];
    Reassemble(RunSlot(slot, arrivals[..|arrivals| - 1], timeout, fragMax), a.from, a.fragment, a.now, timeout, fragMax).1
  }

  /** The slot holds a prefix of the one payload its version names. */
  predicate SlotHonest(payloadOf: Version -> seq<byte>, slot: Slot) {
    slot.Busy? ==>
      && slot.total == |payloadOf(slot.version)|
      && |slot.held| <= slot.total
      && slot.held == payloadOf(slot.version)[..|slot.held|]
  }

  lemma StepNeverSplices(payloadOf: Version -> seq<byte>, slot: Slot, a: Arrival,
                         timeout: nat, fragMax: nat)
    requires SlotHonest(payloadOf, slot) && Honest(payloadOf, a.fragment)
    ensures var (slot', out) := Reassemble(slot, a.from, a.fragment, a.now, timeout, fragMax);
            && SlotHonest(payloadOf, slot')
            && (out.Some? ==> out.value == payloadOf(VersionOf(a.fragment)))
  {
    var f := a.fragment;
    var p := payloadOf(VersionOf(f));
    var live := Expire(slot, a.now);
    var held := if Matches(live, a.from, f) then live.held else [];
    if f.offset == |held| {
      assert held + f.bytes == p[..|held| + |f.bytes|];
    }
  }

  /** Over every interleaving of senders with loss, duplication, reordering, displacement
      and timeout, and with entries replaced mid-send, a completed payload is exactly the
      payload of the one version its fragments named. */
  lemma {:induction false} ReassemblyNeverSplices(payloadOf: Version -> seq<byte>,
                                                  arrivals: seq<Arrival>,
                                                  timeout: nat, fragMax: nat)
    requires forall i :: 0 <= i < |arrivals| ==> Honest(payloadOf, arrivals[i].fragment)
    ensures SlotHonest(payloadOf, RunSlot(Idle, arrivals, timeout, fragMax))
    ensures |arrivals| > 0 && LastOutput(Idle, arrivals, timeout, fragMax).Some? ==>
              LastOutput(Idle, arrivals, timeout, fragMax).value
              == payloadOf(VersionOf(arrivals[|arrivals| - 1].fragment))
  {
    if |arrivals| > 0 {
      var init, last := arrivals[..|arrivals| - 1], arrivals[|arrivals| - 1];
      ReassemblyNeverSplices(payloadOf, init, timeout, fragMax);
      StepNeverSplices(payloadOf, RunSlot(Idle, init, timeout, fragMax), last, timeout, fragMax);
    }
  }

  // ----- in-order delivery completes --------------------------------------------

  /** Deliver a sequence of fragments from one sender, one instant each. */
  function Deliver(slot: Slot, from: u32, fs: seq<Fragment>, times: seq<int>, timeout: nat, fragMax: nat)
    : (r: (Slot, seq<Option<seq<byte>>>))
    requires |times| == |fs|
    ensures |r.1| == |fs|
    decreases |fs|
  {
    if |fs| == 0 then (slot, [])
    else
      var (next, out) := Reassemble(slot, from, fs[0], times[0], timeout, fragMax);
      var (end, outs) := Deliver(next, from, fs[1..], times[1..], timeout, fragMax);
      (end, [out] + outs)
  }

  /** Consecutive frames arrive in order and within the slot's timeout. */
  predicate Timely(times: seq<int>, timeout: nat) {
    forall i :: 0 < i < |times| ==> times[i - 1] <= times[i] <= times[i - 1] + timeout
  }

  /** Nothing but the last fragment completes, and it completes the whole payload. */
  predicate CompletesLast(outs: seq<Option<seq<byte>>>, payload: seq<byte>) {
    && |outs| > 0
    && outs[|outs| - 1] == Some(payload)
    && forall i :: 0 <= i < |outs| - 1 ==> outs[i] == None
  }

  /** The slot is where in-order delivery of `e` has left it after `off` bytes. */
  predicate Midway(slot: Slot, from: u32, e: Entry, off: nat, now: int) {
    && 0 < off < |e.payload|
    && slot.Busy? && slot.from == from && slot.version == EntryVersion(e)
    && slot.total == |e.payload| && slot.held == e.payload[..off] && now <= slot.deadline
  }

  /** The next in-order fragment extends the held prefix, or completes the payload. */
  lemma NextFragment(slot: Slot, from: u32, e: Entry, off: nat, cap: nat, now: int, timeout: nat, fragMax: nat)
    requires |e.payload| <= PAYLOAD_MAX && 0 < cap <= fragMax
    requires if off == 0 then !Matches(Expire(slot, now), from, EntryFragment(e, 0, cap))
             else Midway(slot, from, e, off, now)
    ensures var next := NextCursor(e, off, cap);
            Reassemble(slot, from, EntryFragment(e, off, cap), now, timeout, fragMax)
            == if next < |e.payload|
               then (Busy(from, EntryVersion(e), |e.payload|, e.payload[..next], now + timeout), None)
               else (if off == 0 then slot else Idle, Some(e.payload))
  {
    var next := NextCursor(e, off, cap);
    assert e.payload[..off] + e.payload[off..next] == e.payload[..next];
    assert next == |e.payload| ==> e.payload[..next] == e.payload;
  }

  lemma {:induction false} RestCompletes(slot: Slot, from: u32, e: Entry, off: nat, cap: nat,
                                         times: seq<int>, timeout: nat, fragMax: nat)
    requires |e.payload| <= PAYLOAD_MAX && 0 < cap <= fragMax && off <= |e.payload|
    requires |times| == |FragmentsFrom(e, off, cap)| && Timely(times, timeout)
    requires if off == 0 then !Matches(Expire(slot, times[0]), from, EntryFragment(e, 0, cap))
             else Midway(slot, from, e, off, times[0])
    ensures var (end, outs) := Deliver(slot, from, FragmentsFrom(e, off, cap), times, timeout, fragMax);
            CompletesLast(outs, e.payload) && (end == Idle || (off == 0 && end == slot))
    decreases |e.payload| - off
  {
    hide Reassemble, EntryFragment;
    var fs, next := FragmentsFrom(e, off, cap), NextCursor(e, off, cap);
    NextFragment(slot, from, e, off, cap, times[0], timeout, fragMax);
    if next < |e.payload| {
      assert fs[1..] == FragmentsFrom(e, next, cap);
      TimelyTail(times, timeout);
      var slot' := Reassemble(slot, from, fs[0], times[0], timeout, fragMax).0;
      RestCompletes(slot', from, e, next, cap, times[1..], timeout, fragMax);
      DeliverStep(slot, from, fs, times, timeout, fragMax, e.payload);
    } else {
      assert fs[1..] == [];
    }
  }

  lemma TimelyTail(times: seq<int>, timeout: nat)
    requires Timely(times, timeout) && |times| > 0
    ensures Timely(times[1..], timeout)
    ensures forall i :: 0 <= i < |times| - 1 ==> times[1..][i] == times[i + 1]
  {
  }

  lemma DeliverStep(slot: Slot, from: u32, fs: seq<Fragment>, times: seq<int>,
                    timeout: nat, fragMax: nat, payload: seq<byte>)
    requires |times| == |fs| > 0
    requires Reassemble(slot, from, fs[0], times[0], timeout, fragMax).1 == None
    requires var next := Reassemble(slot, from, fs[0], times[0], timeout, fragMax).0;
             CompletesLast(Deliver(next, from, fs[1..], times[1..], timeout, fragMax).1, payload)
    ensures CompletesLast(Deliver(slot, from, fs, times, timeout, fragMax).1, payload)
  {
  }

  /** Delivery back to back completes for every payload length and fragment cap, from any slot not
      already part-way through this version. */
  lemma BackToBackCompletes(slot: Slot, from: u32, e: Entry, cap: nat,
                            times: seq<int>, timeout: nat, fragMax: nat)
    requires |e.payload| <= PAYLOAD_MAX && 0 < cap <= fragMax
    requires |times| == |FragmentsFrom(e, 0, cap)| && Timely(times, timeout)
    requires !Matches(Expire(slot, times[0]), from, EntryFragment(e, 0, cap))
    ensures var (end, outs) := Deliver(slot, from, FragmentsFrom(e, 0, cap), times, timeout, fragMax);
            CompletesLast(outs, e.payload) && (end == slot || end == Idle)
  {
    RestCompletes(slot, from, e, 0, cap, times, timeout, fragMax);
  }

  /** An arrival that cannot disturb a slot part-way through `e` from `from`: it does not fit, or is
      whole in one frame, or is the middle of something else. */
  predicate Bystander(from: u32, e: Entry, a: Arrival, fragMax: nat) {
    var f := a.fragment;
    || !Fits(f, fragMax)
    || (f.offset == 0 && |f.bytes| == TotalOf(f))
    || (f.offset != 0 && !(a.from == from && VersionOf(f) == EntryVersion(e) && TotalOf(f) == |e.payload|))
  }

  /** A fragment that claims too long a payload, carries more bytes than a frame holds or reaches past
      its own payload is ignored, and nothing longer than a payload may be is ever completed. */
  lemma MisfitIsIgnored(slot: Slot, from: u32, f: Fragment, now: int, timeout: nat, fragMax: nat)
    ensures f.total > 0 && (f.total > PAYLOAD_MAX || |f.bytes| > fragMax || f.offset + |f.bytes| > f.total) ==>
              Reassemble(slot, from, f, now, timeout, fragMax) == (slot, None)
    ensures f.total == 0 && (|f.bytes| > PAYLOAD_MAX || |f.bytes| > fragMax || f.offset > 0) ==>
              Reassemble(slot, from, f, now, timeout, fragMax) == (slot, None)
    ensures var out := Reassemble(slot, from, f, now, timeout, fragMax).1;
            out.Some? && (slot.Busy? ==> |slot.held| < slot.total) ==> |out.value| <= PAYLOAD_MAX && |f.bytes| <= fragMax
  {
  }

  lemma BystanderIsHarmless(slot: Slot, from: u32, e: Entry, off: nat, a: Arrival, timeout: nat, fragMax: nat)
    requires Midway(slot, from, e, off, a.now) && Bystander(from, e, a, fragMax)
    ensures Reassemble(slot, a.from, a.fragment, a.now, timeout, fragMax).0 == slot
  {
  }

  /** The cursor before fragment `i` of a send from `off`. */
  function Cursor(e: Entry, off: nat, cap: nat, i: nat): (at: nat)
    decreases i
  {
    if i == 0 then off else Cursor(e, NextCursor(e, off, cap), cap, i - 1)
  }

  lemma {:induction false} FragmentAt(e: Entry, off: nat, cap: nat, i: nat)
    requires cap > 0 && off <= |e.payload| && i < |FragmentsFrom(e, off, cap)|
    ensures var fs, at := FragmentsFrom(e, off, cap), Cursor(e, off, cap, i);
            && at <= |e.payload| && fs[i] == EntryFragment(e, at, cap)
            && Cursor(e, off, cap, i + 1) == NextCursor(e, at, cap)
            && (i + 1 < |fs| <==> NextCursor(e, at, cap) < |e.payload|)
            && (i > 0 ==> 0 < at < |e.payload|)
    decreases i
  {
    var next := NextCursor(e, off, cap);
    if i > 0 {
      FragmentAt(e, next, cap, i - 1);
      assert FragmentsFrom(e, off, cap)[1..] == FragmentsFrom(e, next, cap);
    }
  }

  /** The fragments of `e` stand at the positions `at` of the arrivals, in order and each within the
      timeout of the one before; the first and the last arrival are among them, and every other
      arrival is a bystander. */
  ghost predicate InOrderAmong(arrivals: seq<Arrival>, at: seq<nat>, from: u32, e: Entry, cap: nat,
                               timeout: nat, fragMax: nat)
    requires cap > 0
  {
    var fs := FragmentsFrom(e, 0, cap);
    && |at| == |fs| && at[0] == 0 && at[|at| - 1] + 1 == |arrivals|
    && (forall i :: 0 <= i < |at| ==> at[i] < |arrivals|
                                      && arrivals[at[i]].from == from && arrivals[at[i]].fragment == fs[i])
    && (forall i :: 0 < i < |at| ==> at[i - 1] < at[i]
                                     && arrivals[at[i]].now <= arrivals[at[i - 1]].now + timeout)
    && (forall k, m :: 0 <= k < m < |arrivals| ==> arrivals[k].now <= arrivals[m].now)
    && (forall k :: 0 <= k < |arrivals| && k !in at ==> Bystander(from, e, arrivals[k], fragMax))
  }

  /** Where the slot stands after fragment `i` and until the next one. */
  function MidSlot(from: u32, e: Entry, cap: nat, i: nat, sent: int, timeout: nat): (slot: Slot)
    requires Cursor(e, 0, cap, i + 1) <= |e.payload|
  {
    Busy(from, EntryVersion(e), |e.payload|, e.payload[..Cursor(e, 0, cap, i + 1)], sent + timeout)
  }

  /** Fragment `i` finds the slot where fragment `i - 1` left it, and extends or completes it. */
  lemma {:induction false} FragmentLands(slot: Slot, arrivals: seq<Arrival>, at: seq<nat>, from: u32, e: Entry,
                                         cap: nat, timeout: nat, fragMax: nat, i: nat)
    requires |e.payload| <= PAYLOAD_MAX && 0 < cap <= fragMax
    requires InOrderAmong(arrivals, at, from, e, cap, timeout, fragMax)
    requires !Matches(Expire(slot, arrivals[0].now), from, EntryFragment(e, 0, cap))
    requires i < |at|
    ensures i + 1 < |at| ==> Cursor(e, 0, cap, i + 1) <= |e.payload|
    ensures var a := arrivals[at[i]];
            var (next, out) := Reassemble(RunSlot(slot, arrivals[..at[i]], timeout, fragMax), from, a.fragment, a.now,
                                          timeout, fragMax);
            if i + 1 < |at| then next == MidSlot(from, e, cap, i, a.now, timeout) && out == None
            else out == Some(e.payload)
    decreases at[i] + 1, 0
  {
    hide Reassemble, EntryFragment, FragmentsFrom, NextCursor, Matches;
    FragmentAt(e, 0, cap, i);
    var before, a := RunSlot(slot, arrivals[..at[i]], timeout, fragMax), arrivals[at[i]];
    if i == 0 {
      assert arrivals[..0] == [];
    } else {
      FragmentAt(e, 0, cap, i - 1);
      SlotBetween(slot, arrivals, at, from, e, cap, timeout, fragMax, i - 1, at[i]);
      assert arrivals[at[i]].now <= arrivals[at[i - 1]].now + timeout;
    }
    NextFragment(before, from, e, Cursor(e, 0, cap, i), cap, a.now, timeout, fragMax);
  }

  /** Between two of its fragments the slot stays as the first of them left it. */
  lemma {:induction false} SlotBetween(slot: Slot, arrivals: seq<Arrival>, at: seq<nat>, from: u32, e: Entry, cap: nat,
                                       timeout: nat, fragMax: nat, i: nat, k: nat)
    requires |e.payload| <= PAYLOAD_MAX && 0 < cap <= fragMax
    requires InOrderAmong(arrivals, at, from, e, cap, timeout, fragMax)
    requires !Matches(Expire(slot, arrivals[0].now), from, EntryFragment(e, 0, cap))
    requires i + 1 < |at| && at[i] < k <= at[i + 1]
    ensures Cursor(e, 0, cap, i + 1) <= |e.payload|
    ensures RunSlot(slot, arrivals[..k], timeout, fragMax) == MidSlot(from, e, cap, i, arrivals[at[i]].now, timeout)
    decreases k, 1
  {
    hide Reassemble, EntryFragment, FragmentsFrom, NextCursor, Matches;
    FragmentAt(e, 0, cap, i);
    FragmentAt(e, 0, cap, i + 1);
    var a := arrivals[k - 1];
    assert arrivals[..k][..k - 1] == arrivals[..k - 1];
    if k == at[i] + 1 {
      FragmentLands(slot, arrivals, at, from, e, cap, timeout, fragMax, i);
    } else {
      SlotBetween(slot, arrivals, at, from, e, cap, timeout, fragMax, i, k - 1);
      NotOwn(at, i, k - 1);
      assert a.now <= arrivals[at[i + 1]].now <= arrivals[at[i]].now + timeout;
      BystanderIsHarmless(MidSlot(from, e, cap, i, arrivals[at[i]].now, timeout), from, e, Cursor(e, 0, cap, i + 1), a,
                          timeout, fragMax);
    }
  }

  /** A place between two neighbouring positions is none of them. */
  lemma NotOwn(at: seq<nat>, i: nat, k: nat)
    requires i + 1 < |at| && at[i] < k < at[i + 1]
    requires forall j :: 0 < j < |at| ==> at[j - 1] < at[j]
    ensures k !in at
  {
    if k in at {
      var j :| 0 <= j < |at| && at[j] == k;
      if j <= i { Increasing(at, j, i); } else { Increasing(at, i + 1, j); }
    }
  }

  lemma {:induction false} Increasing(at: seq<nat>, i: nat, j: nat)
    requires i <= j < |at| && forall k :: 0 < k < |at| ==> at[k - 1] < at[k]
    ensures at[i] <= at[j]
    decreases j
  {
    if i < j { Increasing(at, i, j - 1); }
  }

  lemma NotAlreadyHeld(slot: Slot, now: int, from: u32, e: Entry, cap: nat)
    requires slot.Idle? || now > slot.deadline || slot.from != from || slot.version != EntryVersion(e)
    ensures !Matches(Expire(slot, now), from, EntryFragment(e, 0, cap))
  {
  }

  /** In-order, timely delivery completes whatever harmless frames come in between: every fragment
      but the last completes nothing, and the last completes the payload, for every payload length
      and fragment cap. The slot may be idle, past its deadline, or busy with something else. */
  lemma InOrderDeliveryCompletes(slot: Slot, arrivals: seq<Arrival>, at: seq<nat>, from: u32, e: Entry, cap: nat,
                                 timeout: nat, fragMax: nat)
    requires |e.payload| <= PAYLOAD_MAX && 0 < cap <= fragMax
    requires InOrderAmong(arrivals, at, from, e, cap, timeout, fragMax)
    requires slot.Idle? || arrivals[0].now > slot.deadline || slot.from != from || slot.version != EntryVersion(e)
    ensures LastOutput(slot, arrivals, timeout, fragMax) == Some(e.payload)
    ensures forall i :: 0 <= i < |at| - 1 ==> LastOutput(slot, arrivals[..at[i] + 1], timeout, fragMax) == None
  {
    NotAlreadyHeld(slot, arrivals[0].now, from, e, cap);
    hide Reassemble, EntryFragment, FragmentsFrom, Matches, RunSlot;
    forall i | 0 <= i < |at|
      ensures LastOutput(slot, arrivals[..at[i] + 1], timeout, fragMax)
              == if i + 1 < |at| then None else Some(e.payload)
    {
      FragmentLands(slot, arrivals, at, from, e, cap, timeout, fragMax, i);
      assert arrivals[..at[i] + 1][..at[i]] == arrivals[..at[i]];
    }
    assert arrivals[..at[|at| - 1] + 1] == arrivals;
  }

  /** `ahead` fragments of `cap` bytes lead from `cursor` to `off`. */
  predicate Reaches(cursor: nat, ahead: nat, cap: nat, off: nat)
    decreases ahead
  {
    if ahead == 0 then cursor == off else Reaches(cursor + cap, ahead - 1, cap, off)
  }

  lemma ReachesForward(cursor: nat, ahead: nat, cap: nat, off: nat)
    requires Reaches(cursor, ahead, cap, off)
    ensures cursor <= off
    decreases ahead
  {
    if ahead > 0 { ReachesForward(cursor + cap, ahead - 1, cap, off); }
  }

  /** A resend after a loss resumes where the slot stands: fragments it already has are
      ignored and the rest complete, so a retry never has to wait out the timeout. */
  lemma {:induction false} ResendCompletes(slot: Slot, from: u32, e: Entry, cursor: nat, off: nat,
                                           ahead: nat, cap: nat, times: seq<int>,
                                           timeout: nat, fragMax: nat)
    requires |e.payload| <= PAYLOAD_MAX && 0 < cap <= fragMax
    requires Reaches(cursor, ahead, cap, off) && off <= |e.payload| && cursor <= off
    requires |times| == |FragmentsFrom(e, cursor, cap)| && Timely(times, timeout)
    requires Midway(slot, from, e, off, times[0])
    requires forall i :: 0 <= i <= ahead && i < |times| ==> times[i] <= slot.deadline
    ensures CompletesLast(Deliver(slot, from, FragmentsFrom(e, cursor, cap), times, timeout, fragMax).1,
                          e.payload)
    decreases ahead
  {
    if ahead == 0 {
      RestCompletes(slot, from, e, off, cap, times, timeout, fragMax);
    } else {
      ReachesForward(cursor + cap, ahead - 1, cap, off);
      AlreadyHeldIsIgnored(slot, from, e, cursor, off, cap, times[0], timeout, fragMax);
      var fs := FragmentsFrom(e, cursor, cap);
      TimelyTail(times, timeout);
      ResendCompletes(slot, from, e, cursor + cap, off, ahead - 1, cap, times[1..], timeout, fragMax);
      DeliverStep(slot, from, fs, times, timeout, fragMax, e.payload);
    }
  }

  lemma AlreadyHeldIsIgnored(slot: Slot, from: u32, e: Entry, cursor: nat, off: nat, cap: nat,
                             now: int, timeout: nat, fragMax: nat)
    requires |e.payload| <= PAYLOAD_MAX && 0 < cap <= fragMax && cursor + cap <= off
    requires Midway(slot, from, e, off, now)
    ensures Reassemble(slot, from, EntryFragment(e, cursor, cap), now, timeout, fragMax) == (slot, None)
    ensures var fs := FragmentsFrom(e, cursor, cap);
            fs[0] == EntryFragment(e, cursor, cap) && fs[1..] == FragmentsFrom(e, cursor + cap, cap)
  {
    assert NextCursor(e, cursor, cap) == cursor + cap;
  }

  /** Every fragment names the entry's version, and the last one carries its signature. */
  lemma {:induction false} LastCarriesSignature(e: Entry, off: nat, cap: nat)
    requires cap > 0 && off <= |e.payload|
    ensures var fs := FragmentsFrom(e, off, cap);
            && fs[|fs| - 1].sig == e.sig
            && (forall i :: 0 <= i < |fs| ==> VersionOf(fs[i]) == EntryVersion(e))
            && forall i :: 0 <= i < |fs| - 1 ==> fs[i].sig == None
    decreases |e.payload| - off
  {
    var next := NextCursor(e, off, cap);
    if next < |e.payload| { LastCarriesSignature(e, next, cap); }
  }
}
