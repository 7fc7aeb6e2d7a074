/** The peer link's frame channel: whole frames cut into chunks behind a one-byte header,
    and put back together in one in-flight buffer. */
module FrameChannel {
  import opened Bytes

  const FIRST := 0x80
  const LAST := 0x40
  const SEQ_MOD := 0x40
  const MIN_BUF := 4
  const FRAME_MAX := 255
  const ENV_MAX := FRAME_MAX + 16
  const KIND_WIRE := 0
  const KIND_ATTACH := 1
  const KIND_MAX := 15

  function CapOf(kind: nat): nat { if kind == KIND_WIRE then FRAME_MAX else ENV_MAX }

  // ----- the sender ---------------------------------------------------------------------------

  datatype Chunker = Chunker(frame: seq<byte>, off: nat, seqNo: nat, kind: nat, firstSent: bool)

  datatype StartError = Einval | Emsgsize
  datatype Started = Ready(ck: Chunker) | Refused(why: StartError)

  function StartKind(frame: seq<byte>, kind: nat): (r: Started) {
    if |frame| == 0 || kind > KIND_MAX then Refused(Einval)
    else if |frame| > CapOf(kind) then Refused(Emsgsize)
    else Ready(Chunker(frame, 0, 0, kind, false))
  }

  predicate ChunkerSound(ck: Chunker) {
    && 0 < |ck.frame| <= CapOf(ck.kind) && ck.kind <= KIND_MAX && ck.off <= |ck.frame| && ck.seqNo < SEQ_MOD
    && (ck.firstSent ==> ck.off > 0) && (!ck.firstSent ==> ck.off == 0)
  }

  predicate Done(ck: Chunker) { ck.firstSent && ck.off == |ck.frame| }

  function Prefix(ck: Chunker): (p: seq<byte>)
    requires ChunkerSound(ck)
  {
    if ck.firstSent then [] else [|ck.frame| % 0x100, |ck.frame| / 0x100 % 0x10 + ck.kind * 0x10]
  }

  function TakeOf(ck: Chunker, size: nat): (n: nat)
    requires ChunkerSound(ck) && size >= MIN_BUF
    ensures ck.off + n <= |ck.frame|
    ensures ck.off < |ck.frame| ==> n > 0
  {
    Min(|ck.frame| - ck.off, size - 1 - |Prefix(ck)|)
  }

  function After(ck: Chunker, size: nat): (ck': Chunker)
    requires ChunkerSound(ck) && !Done(ck) && size >= MIN_BUF
    ensures ChunkerSound(ck') && ck'.firstSent && ck'.off > ck.off && ck'.frame == ck.frame && ck'.kind == ck.kind
  {
    ck.(off := ck.off + TakeOf(ck, size), seqNo := (ck.seqNo + 1) % SEQ_MOD, firstSent := true)
  }

  function ChunkOf(ck: Chunker, size: nat): (chunk: seq<byte>)
    requires ChunkerSound(ck) && !Done(ck) && size >= MIN_BUF
    ensures 2 <= |chunk| <= size
  {
    var ck' := After(ck, size);
    [ck.seqNo + (if ck.firstSent then 0 else FIRST) + (if ck'.off == |ck.frame| then LAST else 0)]
    + Prefix(ck) + ck.frame[ck.off..ck'.off]
  }

  /** A per-call buffer size for every call. */
  type Sizes = nat -> nat

  ghost predicate Usable(sizes: Sizes) { forall i: nat :: sizes(i) >= MIN_BUF }

  /** Everything the sender emits from the `n`-th call on. */
  ghost function Chunks(ck: Chunker, sizes: Sizes, n: nat): (cs: seq<seq<byte>>)
    requires ChunkerSound(ck) && Usable(sizes)
    decreases |ck.frame| - ck.off
  {
    if Done(ck) then [] else [ChunkOf(ck, sizes(n))] + Chunks(After(ck, sizes(n)), sizes, n + 1)
  }

  /** A frame is taken exactly when it is not empty, fits its kind (255 bytes on the wire, 271 in an
      envelope) and the kind fits four bits; then nothing of it is sent yet. */
  lemma StartsExactly(frame: seq<byte>, kind: nat)
    ensures StartKind(frame, kind).Ready?
            <==> kind < 16 && 0 < |frame| <= if kind == KIND_WIRE then 255 else 271
    ensures StartKind(frame, kind).Ready? ==>
              var ck := StartKind(frame, kind).ck;
              ck.frame == frame && ck.kind == kind && ck.off == 0 && !ck.firstSent
  {
  }

  // ----- the receiver -------------------------------------------------------------------------

  datatype Reasm = Reasm(active: bool, nextSeq: nat, kind: nat, total: nat, held: seq<byte>)
  datatype Outcome = More | BadMessage | TooLong | Complete(frame: seq<byte>, kind: nat)

  const IDLE := Reasm(false, 0, 0, 0, [])

  function Abort(r: Reasm): Reasm { r.(active := false) }

  predicate IsFirst(chunk: seq<byte>)
    requires |chunk| > 0
  {
    chunk[0] >= FIRST
  }

  predicate IsLast(chunk: seq<byte>)
    requires |chunk| > 0
  {
    chunk[0] / LAST % 2 == 1
  }

  /** A FIRST chunk always supersedes; it opens a frame of the length and kind it declares. */
  function Open(chunk: seq<byte>): (r: (Option<Reasm>, Outcome))
    requires |chunk| >= 2
  {
    if |chunk| < 3 then (None, BadMessage)
    else
      var kind: nat, declared: nat := chunk[2] / 0x10, chunk[1] as int + chunk[2] as int % 0x10 * 0x100;
      if declared == 0 then (None, BadMessage)
      else if declared > CapOf(kind) then (None, TooLong)
      else if |chunk| - 3 > declared then (None, BadMessage)
      else (Some(Reasm(true, (chunk[0] % SEQ_MOD + 1) % SEQ_MOD, kind, declared, chunk[3..])), More)
  }

  function Extend(r: Reasm, chunk: seq<byte>): (r': Option<Reasm>)
    requires |chunk| >= 2
  {
    if chunk[0] % SEQ_MOD != r.nextSeq || |r.held| + |chunk| - 1 > r.total then None
    else Some(r.(held := r.held + chunk[1..], nextSeq := (chunk[0] % SEQ_MOD + 1) % SEQ_MOD))
  }

  function Settle(r: Reasm, last: bool): (s: (Reasm, Outcome)) {
    if last then
      if |r.held| != r.total then (Abort(r), BadMessage) else (Abort(r), Complete(r.held, r.kind))
    else if |r.held| == r.total then (Abort(r), BadMessage)
    else (r, More)
  }

  function Ingest(r: Reasm, chunk: seq<byte>): (s: (Reasm, Outcome)) {
    if |chunk| < 2 then (r, BadMessage)
    else if IsFirst(chunk) then
      var (begun, why) := Open(chunk);
      if begun.None? then (Abort(r), why) else Settle(begun.value, IsLast(chunk))
    else if !r.active then (r, BadMessage)
    else
      var extended := Extend(r, chunk);
      if extended.None? then (Abort(r), BadMessage) else Settle(extended.value, IsLast(chunk))
  }

  /** The bytes held never exceed the declared length, nor that the buffer. */
  predicate ReasmSound(r: Reasm) {
    r.active ==> |r.held| < r.total <= CapOf(r.kind)
  }

  lemma IngestStaysInBuffer(r: Reasm, chunk: seq<byte>)
    requires ReasmSound(r)
    ensures ReasmSound(Ingest(r, chunk).0)
    ensures Ingest(r, chunk).1.Complete? ==> 0 < |Ingest(r, chunk).1.frame| <= CapOf(Ingest(r, chunk).1.kind)
  {
  }

  /** A continuation out of sequence ends the frame, so a repeated chunk is never taken twice. */
  lemma RepeatedChunkIsRefused(r: Reasm, chunk: seq<byte>)
    requires |chunk| >= 2 && chunk[0] < 0x80
    ensures chunk[0] % 64 != r.nextSeq ==> Ingest(r, chunk).1 == BadMessage && !Ingest(r, chunk).0.active
    ensures Ingest(r, chunk).1 == More ==> Ingest(Ingest(r, chunk).0, chunk).1 == BadMessage
  {
  }

  /** "Too long" is said of exactly the FIRST chunks that declare more than their kind allows; and
      after any chunk but a stub the receiver is in the middle of a frame exactly when it said that
      it expects more. */
  lemma VerdictsAreExact(r: Reasm, chunk: seq<byte>)
    ensures Ingest(r, chunk).1 == TooLong
            <==> |chunk| >= 3 && chunk[0] >= 0x80
                 && chunk[1] as int + chunk[2] as int % 16 * 256 > if chunk[2] / 16 == 0 then 255 else 271
    ensures |chunk| >= 2 ==> (Ingest(r, chunk).0.active <==> Ingest(r, chunk).1 == More)
    ensures |chunk| < 2 ==> Ingest(r, chunk) == (r, BadMessage)
  {
  }

  function Feed(r: Reasm, cs: seq<seq<byte>>): (s: (Reasm, seq<Outcome>))
    ensures |s.1| == |cs|
    decreases |cs|
  {
    if |cs| == 0 then (r, [])
    else
      var (next, out) := Ingest(r, cs[0]);
      var (end, outs) := Feed(next, cs[1..]);
      (end, [out] + outs)
  }

  // ----- one chunk, sent and received -----------------------------------------------------------

  /** The receiver is exactly where the sender is. */
  predicate InStep(ck: Chunker, r: Reasm) {
    && ck.firstSent && ck.off < |ck.frame|
    && r == Reasm(true, ck.seqNo, ck.kind, |ck.frame|, ck.frame[..ck.off])
  }

  /** Something of this frame was missed: the receiver is idle, or behind the sender. */
  predicate Behind(ck: Chunker, r: Reasm) {
    r.active ==> r.total == |ck.frame| && |r.held| < ck.off
  }

  lemma HeaderBits(seqNo: nat, first: bool, last: bool)
    requires seqNo < SEQ_MOD
    ensures var h := seqNo + (if first then FIRST else 0) + (if last then LAST else 0);
            (h >= FIRST <==> first) && (h / LAST % 2 == 1 <==> last) && h % SEQ_MOD == seqNo && h < 0x100
  {
  }

  /** The first chunk puts the receiver in step whatever it was doing, or completes the frame. */
  lemma FirstChunkLands(ck: Chunker, r: Reasm, size: nat)
    requires ChunkerSound(ck) && !ck.firstSent && size >= MIN_BUF
    ensures var ck' := After(ck, size);
            var (r', out) := Ingest(r, ChunkOf(ck, size));
            if Done(ck') then out == Complete(ck.frame, ck.kind) else out == More && InStep(ck', r')
  {
    var ck', chunk := After(ck, size), ChunkOf(ck, size);
    HeaderBits(ck.seqNo, true, ck'.off == |ck.frame|);
    var len := |ck.frame|;
    assert chunk[1] == len % 0x100 && chunk[2] == len / 0x100 % 0x10 + ck.kind * 0x10;
    assert chunk[2] / 0x10 == ck.kind && chunk[2] % 0x10 == len / 0x100;
    assert chunk[3..] == ck.frame[0..ck'.off] == ck.frame[..ck'.off];
    assert Done(ck') ==> ck.frame[..ck'.off] == ck.frame;
  }

  lemma NextChunkLands(ck: Chunker, r: Reasm, size: nat)
    requires ChunkerSound(ck) && InStep(ck, r) && size >= MIN_BUF
    ensures var ck' := After(ck, size);
            var (r', out) := Ingest(r, ChunkOf(ck, size));
            if Done(ck') then out == Complete(ck.frame, ck.kind) else out == More && InStep(ck', r')
  {
    var ck', chunk := After(ck, size), ChunkOf(ck, size);
    HeaderBits(ck.seqNo, false, ck'.off == |ck.frame|);
    assert chunk[1..] == ck.frame[ck.off..ck'.off];
    assert ck.frame[..ck.off] + ck.frame[ck.off..ck'.off] == ck.frame[..ck'.off];
    assert Done(ck') ==> ck.frame[..ck'.off] == ck.frame;
  }

  /** Once behind, always behind: a later chunk never completes the frame. */
  lemma BehindStaysBehind(ck: Chunker, r: Reasm, size: nat)
    requires ChunkerSound(ck) && ck.firstSent && !Done(ck) && Behind(ck, r) && size >= MIN_BUF
    ensures var (r', out) := Ingest(r, ChunkOf(ck, size));
            !out.Complete? && Behind(After(ck, size), r')
  {
    var ck', chunk := After(ck, size), ChunkOf(ck, size);
    HeaderBits(ck.seqNo, false, ck'.off == |ck.frame|);
    assert chunk[1..] == ck.frame[ck.off..ck'.off];
  }

  // ----- whole frames ---------------------------------------------------------------------------

  predicate CompletesLast(outs: seq<Outcome>, frame: seq<byte>, kind: nat) {
    && |outs| > 0 && outs[|outs| - 1] == Complete(frame, kind)
    && forall i :: 0 <= i < |outs| - 1 ==> outs[i] == More
  }

  lemma {:induction false} RestArrives(ck: Chunker, r: Reasm, sizes: Sizes, n: nat)
    requires ChunkerSound(ck) && Usable(sizes) && !Done(ck) && (ck.firstSent ==> InStep(ck, r))
    ensures CompletesLast(Feed(r, Chunks(ck, sizes, n)).1, ck.frame, ck.kind)
    decreases |ck.frame| - ck.off
  {
    hide ChunkOf, Ingest, InStep;
    if ck.firstSent { NextChunkLands(ck, r, sizes(n)); } else { FirstChunkLands(ck, r, sizes(n)); }
    var ck', r' := After(ck, sizes(n)), Ingest(r, ChunkOf(ck, sizes(n))).0;
    var rest := Chunks(ck', sizes, n + 1);
    assert Chunks(ck, sizes, n)[1..] == rest;
    if !Done(ck') { RestArrives(ck', r', sizes, n + 1); }
  }

  /** Round trip: every frame and kind the sender accepts, cut at any buffer sizes, arrives as
      itself, whatever the receiver was doing before. */
  lemma FrameRoundTrip(frame: seq<byte>, kind: nat, r: Reasm, sizes: Sizes)
    requires StartKind(frame, kind).Ready? && Usable(sizes)
    ensures CompletesLast(Feed(r, Chunks(StartKind(frame, kind).ck, sizes, 0)).1, frame, kind)
  {
    RestArrives(StartKind(frame, kind).ck, r, sizes, 0);
  }

  /** The chunks that were not dropped. */
  function Kept(cs: seq<seq<byte>>, keep: seq<bool>): (ks: seq<seq<byte>>)
    requires |keep| == |cs|
  {
    if |cs| == 0 then [] else (if keep[0] then [cs[0]] else []) + Kept(cs[1..], keep[1..])
  }

  predicate Completed(outs: seq<Outcome>) { exists i :: 0 <= i < |outs| && outs[i].Complete? }
  predicate NothingDropped(keep: seq<bool>) { forall i :: 0 <= i < |keep| ==> keep[i] }

  lemma FeedFirst(r: Reasm, cs: seq<seq<byte>>)
    requires |cs| > 0
    ensures Completed(Feed(r, cs).1) <==> Ingest(r, cs[0]).1.Complete? || Completed(Feed(Ingest(r, cs[0]).0, cs[1..]).1)
  {
    hide Ingest;
    var outs := Feed(r, cs).1;
    var rest := Feed(Ingest(r, cs[0]).0, cs[1..]).1;
    assert outs == [Ingest(r, cs[0]).1] + rest;
    if Completed(rest) {
      var i :| 0 <= i < |rest| && rest[i].Complete?;
      assert outs[i + 1].Complete?;
    }
    if Ingest(r, cs[0]).1.Complete? { assert outs[0].Complete?; }
    if Completed(outs) && !Ingest(r, cs[0]).1.Complete? {
      var i :| 0 <= i < |outs| && outs[i].Complete?;
      assert rest[i - 1].Complete?;
    }
  }

  lemma {:induction false} LossyNeverCompletes(ck: Chunker, r: Reasm, sizes: Sizes, n: nat, keep: seq<bool>)
    requires ChunkerSound(ck) && Usable(sizes) && ck.firstSent && Behind(ck, r)
    requires |keep| == |Chunks(ck, sizes, n)|
    ensures !Completed(Feed(r, Kept(Chunks(ck, sizes, n), keep)).1)
    decreases |ck.frame| - ck.off
  {
    hide ChunkOf, Ingest;
    if !Done(ck) {
      var cs, ck' := Chunks(ck, sizes, n), After(ck, sizes(n));
      assert cs[1..] == Chunks(ck', sizes, n + 1);
      if keep[0] {
        BehindStaysBehind(ck, r, sizes(n));
        LossyNeverCompletes(ck', Ingest(r, cs[0]).0, sizes, n + 1, keep[1..]);
        FeedFirst(r, Kept(cs, keep));
        assert Kept(cs, keep)[1..] == Kept(cs[1..], keep[1..]);
      } else {
        LossyNeverCompletes(ck', r, sizes, n + 1, keep[1..]);
        assert Kept(cs, keep) == Kept(cs[1..], keep[1..]);
      }
    }
  }

  lemma {:induction false} CompletesExactlyIfWhole(ck: Chunker, r: Reasm, sizes: Sizes, n: nat, keep: seq<bool>)
    requires ChunkerSound(ck) && Usable(sizes) && !Done(ck)
    requires if ck.firstSent then InStep(ck, r) else !r.active
    requires |keep| == |Chunks(ck, sizes, n)|
    ensures Completed(Feed(r, Kept(Chunks(ck, sizes, n), keep)).1) <==> NothingDropped(keep)
    decreases |ck.frame| - ck.off
  {
    hide ChunkOf, Ingest;
    var cs, ck' := Chunks(ck, sizes, n), After(ck, sizes(n));
    assert cs[1..] == Chunks(ck', sizes, n + 1);
    assert NothingDropped(keep) <==> keep[0] && NothingDropped(keep[1..]) by { DroppedSplit(keep); }
    if !keep[0] {
      LossyNeverCompletes(ck', r, sizes, n + 1, keep[1..]);
      assert Kept(cs, keep) == Kept(cs[1..], keep[1..]);
    } else {
      if ck.firstSent { NextChunkLands(ck, r, sizes(n)); } else { FirstChunkLands(ck, r, sizes(n)); }
      FeedFirst(r, Kept(cs, keep));
      assert Kept(cs, keep)[1..] == Kept(cs[1..], keep[1..]);
      if !Done(ck') {
        CompletesExactlyIfWhole(ck', Ingest(r, cs[0]).0, sizes, n + 1, keep[1..]);
      } else {
        assert keep[1..] == [];
      }
    }
  }

  lemma DroppedSplit(keep: seq<bool>)
    requires |keep| > 0
    ensures NothingDropped(keep) <==> keep[0] && NothingDropped(keep[1..])
  {
    assert keep == [keep[0]] + keep[1..];
  }

  /** Loss detection: feeding an idle receiver any subsequence of one frame's chunks delivers a
      frame if and only if nothing was dropped. */
  lemma LossIsDetected(frame: seq<byte>, kind: nat, sizes: Sizes, keep: seq<bool>, r: Reasm)
    requires StartKind(frame, kind).Ready? && Usable(sizes) && !r.active
    requires |keep| == |Chunks(StartKind(frame, kind).ck, sizes, 0)|
    ensures Completed(Feed(r, Kept(Chunks(StartKind(frame, kind).ck, sizes, 0), keep)).1) <==> NothingDropped(keep)
  {
    CompletesExactlyIfWhole(StartKind(frame, kind).ck, r, sizes, 0, keep);
  }

  // ----- the two structs ------------------------------------------------------------------------

  method CopyInto(dst: array<byte>, at: nat, src: seq<byte>)
    requires at + |src| <= dst.Length
    modifies dst
    ensures dst[..at] == old(dst[..at]) && dst[at..at + |src|] == src
    ensures dst[..at + |src|] == old(dst[..at]) + src
  {
    for i := 0 to |src|
      invariant dst[..at] == old(dst[..at]) && dst[at..at + i] == src[..i]
    {
      dst[at + i] := src[i];
    }
    assert dst[..at + |src|] == dst[..at] + dst[at..at + |src|];
  }

  /** The sender's iterator over one frame; it borrows the frame and copies nothing ahead. */
  class Sender {
    const frame: seq<byte>
    const kind: nat
    var off: nat
    var seqNo: nat
    var firstSent: bool

    constructor (frame: seq<byte>, kind: nat)
      requires StartKind(frame, kind).Ready?
      ensures Abs() == StartKind(frame, kind).ck
    {
      this.frame, this.kind, off, seqNo, firstSent := frame, kind, 0, 0, false;
    }

    ghost function Abs(): Chunker
      reads this
    {
      Chunker(frame, off, seqNo, kind, firstSent)
    }

    /** Emit the next chunk into `out`: its length, 0 when the frame is out, -1 if `out` is
        too small to make progress. */
    method Next(out: array<byte>) returns (n: int)
      requires ChunkerSound(Abs())
      modifies this, out
      ensures out.Length < MIN_BUF ==> n == -1 && Abs() == old(Abs())
      ensures out.Length >= MIN_BUF && Done(old(Abs())) ==> n == 0 && Abs() == old(Abs())
      ensures out.Length >= MIN_BUF && !Done(old(Abs())) ==>
                && Abs() == After(old(Abs()), out.Length)
                && 0 < n <= out.Length && out[..n] == ChunkOf(old(Abs()), out.Length)
    {
      if out.Length < MIN_BUF { return -1; }
      if firstSent && off == |frame| { return 0; }
      var first, pos := !firstSent, 1;
      ghost var prefix := Prefix(Abs());
      if first {
        out[1] := |frame| % 0x100;
        out[2] := |frame| / 0x100 % 0x10 + kind * 0x10;
        pos := 3;
      }
      assert out[1..pos] == prefix;
      var take := Min(|frame| - off, out.Length - pos);
      CopyInto(out, pos, frame[off..off + take]);
      off := off + take;
      assert out[1..pos] == prefix by { assert out[..pos][1..] == out[1..pos]; }
      out[0] := seqNo + (if first then FIRST else 0) + (if off == |frame| then LAST else 0);
      assert out[..pos + take] == [out[0]] + out[1..pos] + out[pos..pos + take];
      seqNo, firstSent := (seqNo + 1) % SEQ_MOD, true;
      n := pos + take;
    }
  }

  /** The receiver's one in-flight frame and its fixed buffer. */
  class Receiver {
    const buf: array<byte>
    var active: bool
    var nextSeq: nat
    var kind: nat
    var total: nat
    var got: nat

    constructor ()
      ensures Valid() && fresh(buf) && Abs() == IDLE
    {
      buf := new byte[ENV_MAX];
      active, nextSeq, kind, total, got := false, 0, 0, 0, 0;
    }

    ghost predicate Sized()
      reads this
    {
      buf.Length == ENV_MAX && got <= ENV_MAX && (active ==> got <= total <= CapOf(kind))
    }

    ghost predicate Valid()
      reads this
    {
      Sized() && (active ==> got < total)
    }

    ghost function Abs(): Reasm
      requires Sized()
      reads this, buf
    {
      Reasm(active, nextSeq, kind, total, buf[..got])
    }

    method Begin(chunk: seq<byte>) returns (why: Outcome)
      requires Sized() && |chunk| >= 2
      modifies this, buf
      ensures Sized() && why == Open(chunk).1
      ensures Abs() == match Open(chunk).0 case Some(begun) => begun case None => Abort(old(Abs()))
    {
      active := false;
      if |chunk| < 3 { return BadMessage; }
      var newKind: nat, declared: nat := chunk[2] / 0x10, chunk[1] as int + chunk[2] as int % 0x10 * 0x100;
      if declared == 0 { return BadMessage; }
      if declared > CapOf(newKind) { return TooLong; }
      if |chunk| - 3 > declared { return BadMessage; }
      CopyInto(buf, 0, chunk[3..]);
      active, kind, total, got := true, newKind, declared, |chunk| - 3;
      nextSeq := (chunk[0] % SEQ_MOD + 1) % SEQ_MOD;
      why := More;
    }

    method Append(chunk: seq<byte>)
      requires Valid() && active && |chunk| >= 2
      modifies this, buf
      ensures Sized()
      ensures Abs() == match Extend(old(Abs()), chunk) case Some(longer) => longer case None => Abort(old(Abs()))
    {
      if chunk[0] % SEQ_MOD != nextSeq || |chunk| - 1 > total - got {
        active := false;
        return;
      }
      CopyInto(buf, got, chunk[1..]);
      got := got + |chunk| - 1;
      nextSeq := (chunk[0] % SEQ_MOD + 1) % SEQ_MOD;
    }

    method Finish(last: bool) returns (out: Outcome)
      requires Sized() && active
      modifies `active
      ensures Valid() && (Abs(), out) == Settle(old(Abs()), last)
    {
      active := !last && got < total;
      out := if active then More else if last && got == total then Complete(buf[..got], kind) else BadMessage;
    }

    /** Ingest one chunk; every write stays inside the buffer. */
    method Accept(chunk: seq<byte>) returns (out: Outcome)
      requires Valid()
      modifies this, buf
      ensures Valid() && (Abs(), out) == Ingest(old(Abs()), chunk)
    {
      hide Open, Extend, Settle, Prefix, ChunkOf;
      if |chunk| < 2 { return BadMessage; }
      if chunk[0] >= FIRST {
        out := Begin(chunk);
        OpenedIsActive(chunk);
      } else {
        if !active { return BadMessage; }
        ExtendedIsActive(Abs(), chunk);
        Append(chunk);
        out := BadMessage;
      }
      if active { out := Finish(chunk[0] / LAST % 2 == 1); }
    }
  }

  lemma OpenedIsActive(chunk: seq<byte>)
    requires |chunk| >= 2
    ensures Open(chunk).0.Some? ==> Open(chunk).0.value.active
  {
  }

  lemma ExtendedIsActive(r: Reasm, chunk: seq<byte>)
    requires r.active && |chunk| >= 2
    ensures Extend(r, chunk).Some? ==> Extend(r, chunk).value.active
  {
  }
}
