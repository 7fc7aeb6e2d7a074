/** The radio head's heard-history ring: sixteen slots standing in for the log of every frame
    the radio has heard. */
module HeardRing {
  import opened Bytes

  const SIZE := 16
  const HALF := 0x8000_0000
  const HDR_LEN := 16

  datatype Frame = Frame(src: u32, id: u32)

  /** One reception, with its true time in milliseconds of uptime. */
  datatype Reception = Reception(frame: Frame, snr: int, at: nat)

  datatype Heard = Heard(frame: Frame, firstMs: u32, lastMs: u32, snr: int, count: byte)
  datatype Ring = Ring(slots: seq<Heard>, next: nat)

  const EMPTY := Heard(Frame(0, 0), 0, 0, 0, 0)

  // ----- the ring ----------------------------------------------------------------------------------

  predicate Matches(h: Heard, f: Frame) { h.count != 0 && h.frame == f }

  predicate Shaped(ring: Ring) { |ring.slots| == SIZE && ring.next < SIZE }

  /** The first slot from i on that holds the frame; SIZE if none does. */
  function Slot(slots: seq<Heard>, f: Frame, i: nat): (k: nat)
    requires i <= |slots|
    ensures i <= k <= |slots|
    ensures k < |slots| ==> Matches(slots[k], f)
    ensures forall j :: i <= j < k ==> !Matches(slots[j], f)
    decreases |slots| - i
  {
    if i == |slots| || Matches(slots[i], f) then i else Slot(slots, f, i + 1)
  }

  function Note(ring: Ring, r: Reception): (after: Ring)
    requires Shaped(ring)
    ensures Shaped(after)
  {
    var k := Slot(ring.slots, r.frame, 0);
    if k < SIZE then
      var h := ring.slots[k];
      ring.(slots := ring.slots[k := h.(lastMs := r.at % WORD, count := Min(255, h.count + 1))])
    else
      Ring(ring.slots[ring.next := Heard(r.frame, r.at % WORD, r.at % WORD, r.snr, 1)], (ring.next + 1) % SIZE)
  }

  /** The signed 32-bit difference is positive. */
  predicate After(a: u32, b: u32) { 0 < (a - b) % WORD < HALF }

  ghost predicate Again(ring: Ring, f: Frame, since: u32) {
    exists i :: 0 <= i < |ring.slots| && ring.slots[i].count > 1 && ring.slots[i].frame == f
                && After(ring.slots[i].lastMs, since)
  }

  // ----- the log ------------------------------------------------------------------------------------

  /** The ring after a whole log of receptions. */
  function Run(log: seq<Reception>): (ring: Ring)
    ensures Shaped(ring)
  {
    if |log| == 0 then Ring(seq(SIZE, i => EMPTY), 0) else Note(Run(log[..|log| - 1]), log[|log| - 1])
  }

  /** The frames taken up as new, in order: those not among the last sixteen taken up. */
  function Taken(log: seq<Reception>): (fs: seq<Frame>)
    ensures |fs| <= |log|
  {
    if |log| == 0 then [] else
      var fs, f := Taken(log[..|log| - 1]), log[|log| - 1].frame;
      if f in Recent(fs) then fs else fs + [f]
  }

  function Recent(fs: seq<Frame>): (last: seq<Frame>)
    ensures |last| == Min(|fs|, SIZE)
  {
    fs[Max(0, |fs| - SIZE)..]
  }

  /** How often a frame was heard since it was last taken up. */
  function Copies(log: seq<Reception>, f: Frame): (n: nat) {
    if |log| == 0 then 0 else
      var before := log[..|log| - 1];
      if log[|log| - 1].frame != f then Copies(before, f)
      else if f in Recent(Taken(before)) then Copies(before, f) + 1
      else 1
  }

  /** When a frame was last heard. */
  function LastAt(log: seq<Reception>, f: Frame): (at: nat) {
    if |log| == 0 then 0
    else if log[|log| - 1].frame == f then log[|log| - 1].at
    else LastAt(log[..|log| - 1], f)
  }

  /** The reception that last took a frame up. */
  function FirstOf(log: seq<Reception>, f: Frame): (r: Reception) {
    if |log| == 0 then Reception(f, 0, 0) else
      var before, r := log[..|log| - 1], log[|log| - 1];
      if r.frame == f && f !in Recent(Taken(before)) then r else FirstOf(before, f)
  }

  // ----- the ring reflects the log --------------------------------------------------------------------

  /** Position p among the frames taken up lives in slot p mod 16, with the count of its
      copies, the time of the last and the time and signal of the first. */
  ghost predicate Holds(ring: Ring, log: seq<Reception>, p: nat)
    requires Shaped(ring)
  {
    var fs := Taken(log);
    p < |fs| && var h := ring.slots[p % SIZE];
    h.frame == fs[p] && h.lastMs == LastAt(log, fs[p]) % WORD && h.count == Min(255, Copies(log, fs[p]))
    && h.firstMs == FirstOf(log, fs[p]).at % WORD && h.snr == FirstOf(log, fs[p]).snr && Copies(log, fs[p]) >= 1
  }

  ghost predicate Reflects(ring: Ring, log: seq<Reception>) {
    var n := |Taken(log)|;
    && Shaped(ring)
    && ring.next == n % SIZE
    && (forall p: nat :: n - SIZE <= p < n ==> Holds(ring, log, p))
    && (forall i :: n <= i < SIZE ==> ring.slots[i].count == 0)
    && Distinct(Taken(log))
  }

  /** No frame occurs twice among the last sixteen taken up. */
  ghost predicate Distinct(fs: seq<Frame>) {
    forall p, q :: |fs| - SIZE <= p < q < |fs| && 0 <= p ==> fs[p] != fs[q]
  }

  lemma RecentAt(fs: seq<Frame>, f: Frame)
    ensures f in Recent(fs) <==> exists p: nat :: |fs| - SIZE <= p < |fs| && fs[p] == f
  {
    var lo := Max(0, |fs| - SIZE);
    if f in Recent(fs) {
      var i :| 0 <= i < |Recent(fs)| && Recent(fs)[i] == f;
      assert fs[lo + i] == f;
    }
    if p: nat :| |fs| - SIZE <= p < |fs| && fs[p] == f {
      assert Recent(fs)[p - lo] == f;
    }
  }

  /** The search finds a frame exactly when it is among the last sixteen, and in its slot. */
  lemma SlotFinds(ring: Ring, log: seq<Reception>, f: Frame)
    requires Reflects(ring, log)
    ensures Slot(ring.slots, f, 0) < SIZE <==> f in Recent(Taken(log))
    ensures forall p: nat :: |Taken(log)| - SIZE <= p < |Taken(log)| && Taken(log)[p] == f
              ==> Slot(ring.slots, f, 0) == p % SIZE
  {
    hide Copies, LastAt, FirstOf, Taken, Recent;
    var fs, k := Taken(log), Slot(ring.slots, f, 0);
    RecentAt(fs, f);
    if k < SIZE {
      var p := PositionOf(|fs|, k);
      assert Holds(ring, log, p);
    }
    forall p: nat | |fs| - SIZE <= p < |fs| && fs[p] == f ensures k == p % SIZE {
      assert Holds(ring, log, p);
    }
  }

  /** The one position among the last sixteen that lives in an occupied slot. */
  function PositionOf(n: nat, k: nat): (p: nat)
    requires k < SIZE && k < n
    ensures n - SIZE <= p < n && p % SIZE == k
  {
    if k < n % SIZE then n - n % SIZE + k else n - n % SIZE + k - SIZE
  }

  lemma NoteKnown(ring: Ring, log: seq<Reception>, r: Reception)
    requires Reflects(ring, log) && r.frame in Recent(Taken(log))
    ensures Reflects(Note(ring, r), log + [r])
  {
    hide Recent;
    var log', fs, k := log + [r], Taken(log), Slot(ring.slots, r.frame, 0);
    assert log'[..|log|] == log;
    SlotFinds(ring, log, r.frame);
    forall p: nat | |fs| - SIZE <= p < |fs| ensures Holds(Note(ring, r), log', p) {
      assert Holds(ring, log, p);
      if fs[p] != r.frame { assert p % SIZE != k; }
    }
  }

  lemma NoteNew(ring: Ring, log: seq<Reception>, r: Reception)
    requires Reflects(ring, log) && r.frame !in Recent(Taken(log))
    ensures Reflects(Note(ring, r), log + [r])
  {
    hide Recent, Copies, LastAt, FirstOf, Holds, Slot, Distinct, Taken;
    var log', fs := log + [r], Taken(log);
    NewIsTaken(log, r);
    SlotFinds(ring, log, r.frame);
    NewIsDistinct(fs, r.frame);
    forall p: nat | |fs| + 1 - SIZE <= p < |fs| + 1 ensures Holds(Note(ring, r), log', p) {
      if p < |fs| { NewDisplacesNoOther(ring, log, r, p); } else { NewIsHeld(ring, log, r); }
    }
  }

  lemma NewIsTaken(log: seq<Reception>, r: Reception)
    requires r.frame !in Recent(Taken(log))
    ensures Taken(log + [r]) == Taken(log) + [r.frame]
  {
    assert (log + [r])[..|log|] == log;
  }

  lemma NewIsDistinct(fs: seq<Frame>, f: Frame)
    requires Distinct(fs) && f !in Recent(fs)
    ensures Distinct(fs + [f])
  {
    RecentAt(fs, f);
  }

  lemma NewDisplacesNoOther(ring: Ring, log: seq<Reception>, r: Reception, p: nat)
    requires Reflects(ring, log) && r.frame !in Recent(Taken(log))
    requires |Taken(log)| - SIZE < p < |Taken(log)|
    ensures Holds(Note(ring, r), log + [r], p)
  {
    hide Recent, Taken, Copies, LastAt, FirstOf, Slot, Distinct;
    NewIsTaken(log, r);
    SlotFinds(ring, log, r.frame);
    RecentAt(Taken(log), r.frame);
    assert Holds(ring, log, p);
    OthersAreUntouched(log, r, Taken(log)[p]);
  }

  lemma OthersAreUntouched(log: seq<Reception>, r: Reception, f: Frame)
    requires f != r.frame
    ensures Copies(log + [r], f) == Copies(log, f) && LastAt(log + [r], f) == LastAt(log, f)
    ensures FirstOf(log + [r], f) == FirstOf(log, f)
  {
    assert (log + [r])[..|log|] == log;
  }

  lemma NewIsHeld(ring: Ring, log: seq<Reception>, r: Reception)
    requires Reflects(ring, log) && r.frame !in Recent(Taken(log))
    ensures Holds(Note(ring, r), log + [r], |Taken(log)|)
  {
    hide Recent;
    assert (log + [r])[..|log|] == log;
    SlotFinds(ring, log, r.frame);
  }

  lemma {:induction false} RingReflectsLog(log: seq<Reception>)
    ensures Reflects(Run(log), log)
  {
    hide Note, Reflects;
    if |log| == 0 {
      NothingHeard();
    } else {
      var before, r := log[..|log| - 1], log[|log| - 1];
      RingReflectsLog(before);
      assert before + [r] == log;
      if r.frame in Recent(Taken(before)) { NoteKnown(Run(before), before, r); } else { NoteNew(Run(before), before, r); }
    }
  }

  lemma NothingHeard()
    ensures Reflects(Run([]), [])
  {
  }

  /** Over every log, no two occupied slots are for the same frame. */
  lemma EntriesAreUnique(log: seq<Reception>, i: nat, k: nat)
    requires i < k < SIZE && Run(log).slots[i].count != 0 && Run(log).slots[k].count != 0
    ensures Run(log).slots[i].frame != Run(log).slots[k].frame
  {
    hide Run, Copies, LastAt, FirstOf, Taken;
    RingReflectsLog(log);
    var n := |Taken(log)|;
    assert Holds(Run(log), log, PositionOf(n, i));
    assert Holds(Run(log), log, PositionOf(n, k));
  }

  // ----- the answer is the log's answer ---------------------------------------------------------------

  ghost predicate InOrder(log: seq<Reception>) { forall i, k :: 0 <= i < k < |log| ==> log[i].at <= log[k].at }

  /** What the head wants to know: the log holds a copy later than the given one. */
  ghost predicate LaterCopy(log: seq<Reception>, f: Frame, at: nat) {
    exists i :: 0 <= i < |log| && log[i].frame == f && log[i].at > at
  }

  /** The ring's answer, from the log: the frame is still held, was heard twice since it was
      taken up, and the last time is after the given one. */
  lemma AgainFromLog(log: seq<Reception>, f: Frame, since: u32)
    ensures Again(Run(log), f, since)
            <==> f in Recent(Taken(log)) && Copies(log, f) > 1 && After(LastAt(log, f) % WORD, since)
  {
    hide Run, Copies, LastAt, FirstOf, Taken, Recent, After;
    var fs, ring := Taken(log), Run(log);
    RingReflectsLog(log);
    RecentAt(fs, f);
    SlotFinds(ring, log, f);
    if p: nat :| |fs| - SIZE <= p < |fs| && fs[p] == f {
      assert Holds(ring, log, p);
      assert forall i | 0 <= i < SIZE && Matches(ring.slots[i], f) :: i == p % SIZE by {
        forall i | 0 <= i < SIZE && Matches(ring.slots[i], f) ensures i == p % SIZE {
          assert Holds(ring, log, PositionOf(|fs|, i));
        }
      }
    }
  }

  lemma {:induction false} LastIsLatest(log: seq<Reception>, f: Frame, at: nat)
    requires InOrder(log)
    ensures LaterCopy(log, f, at) <==> LastAt(log, f) > at && exists i :: 0 <= i < |log| && log[i].frame == f
  {
    if |log| > 0 {
      var before, r := log[..|log| - 1], log[|log| - 1];
      LastIsLatest(before, f, at);
      assert forall i :: 0 <= i < |before| ==> before[i] == log[i];
      if r.frame == f {
        assert log[|log| - 1].frame == f;
      } else {
        assert LaterCopy(log, f, at) <==> LaterCopy(before, f, at);
      }
    }
  }

  lemma {:induction false} LastIsBetween(log: seq<Reception>, f: Frame, j: nat)
    requires InOrder(log) && j < |log| && log[j].frame == f
    ensures log[j].at <= LastAt(log, f) <= log[|log| - 1].at
  {
    if log[|log| - 1].frame != f { LastIsBetween(log[..|log| - 1], f, j); }
  }

  /** Reception j took the frame up as new. */
  ghost predicate TakesUp(log: seq<Reception>, f: Frame, j: nat)
    requires j < |log|
  {
    log[j].frame == f && f !in Recent(Taken(log[..j]))
  }

  lemma {:induction false} TakenGrows(log: seq<Reception>, j: nat)
    requires j <= |log|
    ensures Taken(log[..j]) <= Taken(log)
  {
    if j < |log| {
      var before := log[..|log| - 1];
      assert before[..j] == log[..j];
      TakenGrows(before, j);
    } else {
      assert log[..j] == log;
    }
  }

  /** While at most fifteen other frames have been taken up since, a frame is held and its
      count is over one exactly when it was heard again. */
  lemma {:induction false} HeldSince(log: seq<Reception>, f: Frame, j: nat)
    requires j < |log| && TakesUp(log, f, j)
    requires |Taken(log)| <= |Taken(log[..j])| + SIZE
    ensures f in Recent(Taken(log))
    ensures Copies(log, f) >= 1
    ensures Copies(log, f) > 1 <==> exists i :: j < i < |log| && log[i].frame == f
  {
    hide Recent, Taken, Copies;
    var before, r, a := log[..|log| - 1], log[|log| - 1], |Taken(log[..j])|;
    CopiesStep(log, f);
    if j < |log| - 1 {
      assert before[..j] == log[..j];
      TakenGrows(log, |log| - 1);
      HeldSince(before, f, j);
      assert forall i :: 0 <= i < |before| ==> before[i] == log[i];
      if r.frame == f { assert log[|log| - 1].frame == f; }
    }
    HoldsPosition(log, f, j);
    RecentAt(Taken(log), f);
    assert Taken(log)[a] == f;
  }

  lemma CopiesStep(log: seq<Reception>, f: Frame)
    requires |log| > 0
    ensures var before := log[..|log| - 1];
            Copies(log, f) == if log[|log| - 1].frame != f then Copies(before, f)
                              else if f in Recent(Taken(before)) then Copies(before, f) + 1 else 1
  {
  }

  lemma HoldsPosition(log: seq<Reception>, f: Frame, j: nat)
    requires j < |log| && TakesUp(log, f, j)
    ensures |Taken(log[..j])| < |Taken(log)| && Taken(log)[|Taken(log[..j])|] == f
  {
    assert log[..j + 1][..j] == log[..j];
    TakenGrows(log, j + 1);
  }

  /** A frame not taken up again after j stands at no later position. */
  lemma {:induction false} NotRetaken(log: seq<Reception>, f: Frame, j: nat, p: nat)
    requires j < |log| && TakesUp(log, f, j)
    requires forall i :: j < i < |log| ==> !TakesUp(log, f, i)
    requires |Taken(log[..j])| < p < |Taken(log)|
    ensures Taken(log)[p] != f
  {
    hide Recent;
    var before := log[..|log| - 1];
    if j < |log| - 1 {
      assert before[..j] == log[..j];
      forall i | j < i < |before| ensures !TakesUp(before, f, i) { assert before[..i] == log[..i] && !TakesUp(log, f, i); }
      assert !TakesUp(log, f, |log| - 1);
      if p < |Taken(before)| { NotRetaken(before, f, j, p); }
    }
  }

  /** A gap that a signed 32-bit difference takes for a positive one. */
  predicate SeenAsLater(gap: int) { 0 < gap % WORD < HALF }

  lemma AfterIsGap(a: nat, b: nat)
    requires b <= a
    ensures After(a % WORD, b % WORD) <==> SeenAsLater(a - b)
  {
  }

  /** The exact law: asked about a copy heard since the frame was last taken up, the ring says
      "again" exactly when the log holds a later copy, the gap to the last one is seen as
      positive, and no more than fifteen other frames have been taken up in between. */
  lemma AgainIsExact(log: seq<Reception>, f: Frame, first: nat, j: nat)
    requires InOrder(log) && first <= j < |log| && log[j].frame == f && TakesUp(log, f, first)
    requires forall i :: first < i < |log| ==> !TakesUp(log, f, i)
    ensures Again(Run(log), f, log[j].at % WORD)
            <==> && LaterCopy(log, f, log[j].at) && SeenAsLater(LastAt(log, f) - log[j].at)
                 && |Taken(log)| <= |Taken(log[..first])| + SIZE
  {
    hide Run, Taken, Recent, Copies, LastAt, FirstOf, SeenAsLater;
    AgainFromLog(log, f, log[j].at % WORD);
    if |Taken(log)| <= |Taken(log[..first])| + SIZE {
      HeldIsExact(log, f, first, j);
    } else {
      RecentAt(Taken(log), f);
      forall p: nat | |Taken(log)| - SIZE <= p < |Taken(log)| ensures Taken(log)[p] != f {
        NotRetaken(log, f, first, p);
      }
    }
  }

  /** While fewer than sixteen frames have been taken up after it, the ring answers for the
      whole log, up to the width of the clock. */
  lemma HeldIsExact(log: seq<Reception>, f: Frame, first: nat, j: nat)
    requires InOrder(log) && first <= j < |log| && log[j].frame == f && TakesUp(log, f, first)
    requires |Taken(log)| <= |Taken(log[..first])| + SIZE
    ensures Again(Run(log), f, log[j].at % WORD)
            <==> LaterCopy(log, f, log[j].at) && SeenAsLater(LastAt(log, f) - log[j].at)
  {
    hide Run, Taken, Recent, Copies, LastAt, FirstOf, Again, After;
    AgainFromLog(log, f, log[j].at % WORD);
    HeldSince(log, f, first);
    LastIsBetween(log, f, j);
    LastIsLatest(log, f, log[j].at);
    AfterIsGap(LastAt(log, f), log[j].at);
  }

  /** Within 2^31 ms of the copy asked about, that is: exactly when the log has a later copy. */
  lemma SoonIsExact(log: seq<Reception>, f: Frame, first: nat, j: nat)
    requires InOrder(log) && first <= j < |log| && log[j].frame == f && TakesUp(log, f, first)
    requires |Taken(log)| <= |Taken(log[..first])| + SIZE && log[|log| - 1].at < log[j].at + HALF
    ensures Again(Run(log), f, log[j].at % WORD) <==> LaterCopy(log, f, log[j].at)
  {
    hide Run, Taken, LastAt, FirstOf, Again;
    HeldIsExact(log, f, first, j);
    LastIsBetween(log, f, j);
    LastIsLatest(log, f, log[j].at);
  }

  /** A frame's very first reception takes it up. */
  lemma FirstHeardIsTakenUp(log: seq<Reception>, f: Frame, first: nat)
    requires first < |log| && log[first].frame == f
    requires forall i :: 0 <= i < first ==> log[i].frame != f
    ensures TakesUp(log, f, first)
  {
    NeverHeard(log[..first], f);
  }

  lemma {:induction false} NeverHeard(log: seq<Reception>, f: Frame)
    requires forall i :: 0 <= i < |log| ==> log[i].frame != f
    ensures f !in Taken(log)
  {
    if |log| > 0 { NeverHeard(log[..|log| - 1], f); }
  }

  // ----- the head ----------------------------------------------------------------------------------------

  class Head {
    const ring: array<Heard>
    var next: nat

    ghost predicate Valid()
      reads this
    {
      ring.Length == SIZE && next < SIZE
    }

    ghost function Abs(): (r: Ring)
      reads this, ring
    {
      Ring(ring[..], next)
    }

    constructor ()
      ensures Valid() && fresh(ring) && Abs() == Run([])
    {
      ring := new Heard[SIZE](i => EMPTY);
      next := 0;
      new;
      assert ring[..] == seq(SIZE, i => EMPTY);
    }

    method NoteFrame(len: nat, f: Frame, snr: int, ghost at: nat, rxMs: u32)
      requires Valid() && rxMs == at % WORD
      modifies this, ring
      ensures Valid()
      ensures Abs() == if len < HDR_LEN then old(Abs()) else Note(old(Abs()), Reception(f, snr, at))
    {
      if len < HDR_LEN { return; }
      var i := 0;
      while i < SIZE
        invariant i <= SIZE && Abs() == old(Abs()) && Valid()
        invariant Slot(ring[..], f, 0) == Slot(ring[..], f, i)
      {
        if ring[i].count != 0 && ring[i].frame == f {
          var count := if ring[i].count < 255 then ring[i].count + 1 else ring[i].count;
          ring[i] := ring[i].(lastMs := rxMs, count := count);
          return;
        }
        i := i + 1;
      }
      ring[next] := Heard(f, rxMs, rxMs, snr, 1);
      next := (next + 1) % SIZE;
    }

    method HeardAgain(f: Frame, since: u32) returns (again: bool)
      requires Valid()
      ensures again <==> Again(Abs(), f, since)
    {
      for i := 0 to SIZE
        invariant forall k :: 0 <= k < i ==>
                    !(ring[k].count > 1 && ring[k].frame == f && After(ring[k].lastMs, since))
      {
        if ring[i].count > 1 && ring[i].frame == f && After(ring[i].lastMs, since) { return true; }
      }
      return false;
    }
  }
}
