/** One concrete input for each expectation the code does not meet in general; the exact
    conditions are proved where the operations are. */
module Witnesses {
  import opened Bytes
  import opened Stamps
  import opened Document
  import opened Digest
  import opened Sync
  import Protocol
  import Invariants
  import Gossip
  import Persistence
  import Flash
  import Envelope
  import FrameChannel
  import Channels
  import HeardRing

  /** Node 7 with the smallest table, trusting everyone. */
  const SEVEN := Protocol.Config(7, 14, 0, 0, 0, (k: Key, s: Stamp) => true, (e: Entry) => true,
                                 (e: Entry) => None, (h: u32, bs: seq<byte>) => 0)

  /** The firmware-intent section, the one publish accepts. */
  const FW: u16 := 0x100

  /** A CORE member that publishes an empty intent for node 9 holds an entry outside its claim. */
  lemma PublishLeavesTheClaim()
    ensures var key, st := NodeKey(9, FW), Protocol.Init(CoreKind, false, 0);
            && Invariants.DocSound(SEVEN, st)
            && Protocol.MintClock(st, UNSET, 5).physical <= PHYSICAL_END
            && !Invariants.DocSound(SEVEN, Protocol.WriteLocal(SEVEN, st, key, UNSET, true, [], 5, 0).0)
  {
    var key, st := NodeKey(9, FW), Protocol.Init(CoreKind, false, 0);
    Invariants.EmptySorted();
    assert Invariants.DocSound(SEVEN, st);
    Invariants.PublishKeepsClaimExactly(SEVEN, st, 0, Invariants.Write(key, UNSET, true, [], 5));
  }

  /** The same node before it has an id, its table full of fourteen other nodes' pins. */
  const NOBODY := SEVEN.(me := 0)

  function Pins(n: nat): (t: seq<Entry>)
    requires n < 100
    ensures |t| == n
    ensures forall i :: 0 <= i < n ==> t[i] == Entry(NodeKey(i + 1, SHAREABLE[0]), Stamp(1, 0, 9), false, [1], None)
  {
    seq(n, i requires 0 <= i < n => Entry(NodeKey(i + 1, SHAREABLE[0]), Stamp(1, 0, 9), false, [1], None))
  }

  /** Its own write to base finds no space, although its claim is not pinned. */
  lemma NoIdCannotNarrow()
    ensures var st := Protocol.Init(FullKind, false, 0).(doc := Pins(14));
            && !st.pinned && Invariants.DocSound(NOBODY, st)
            && Protocol.MintClock(st, UNSET, 5).physical <= PHYSICAL_END
            && Protocol.WriteLocal(NOBODY, st, BaseKey(SHAREABLE[0]), UNSET, false, [2], 5, 0).1 == NoSpace
  {
    hide Protocol.WriteLocal, Pins;
    var st, key := Protocol.Init(FullKind, false, 0).(doc := Pins(14)), BaseKey(SHAREABLE[0]);
    assert Invariants.DocSound(NOBODY, st);
    assert Find(st.doc, key).None?;
    Invariants.LocalWriteOutcome(NOBODY, st, 0, Invariants.Write(key, UNSET, false, [2], 5));
  }

  const MY_PIN := Entry(NodeKey(7, SHAREABLE[0]), Stamp(1, 0, 9), false, [1], None)

  /** Node 7, narrowed and empty, hears the digest of a FULL peer that holds an entry for it. Both
      claim that entry, and no walk is opened. */
  lemma MissingOwnRowIsNotNoticed()
    ensures var st := Protocol.Init(CoreKind, false, 0);
            var d := BuildDigest(SEVEN.crc, [MY_PIN], MyScope(FullKind, 9));
            && !AgreeOn(st.doc, [MY_PIN], Intersect(Protocol.Mine(SEVEN, st), MyScope(FullKind, 9)))
            && Protocol.OnDigest(SEVEN, st, 9, d, 5, false).pull == Protocol.PullIdle
  {
    hide HashRows, MaxStamp, Restrict, Protocol.OnDigest, Describes;
    var st := Protocol.Init(CoreKind, false, 0);
    var d := BuildDigest(SEVEN.crc, [MY_PIN], MyScope(FullKind, 9));
    BuiltDigestDescribes(SEVEN.crc, [MY_PIN], FullKind, 9);
    OnePin(st.doc);
    Gossip.OwnRowsAreNotCompared(SEVEN, st, 9, [MY_PIN], d, 5, false);
  }

  lemma OnePin(none: seq<Entry>)
    requires none == []
    ensures Sorted(none) && Sorted([MY_PIN]) && AgreeOn(none, [MY_PIN], BASE_ONLY)
    ensures forall s: Scope :: Contains(s, MY_PIN.key) ==> !AgreeOn(none, [MY_PIN], s)
  {
    assert Find([MY_PIN], MY_PIN.key) == Some(MY_PIN) && Find(none, MY_PIN.key) == None;
  }

  /** A base entry of node 9, stamped a little over the drift limit after the time 1_000_000. */
  const AHEAD := Entry(BaseKey(SHAREABLE[0]), Stamp(1_000_001 + MAX_DRIFT_MS, 0, 9), false, [1], None)

  /** Loaded at that time it refuses this node's own write; once the clock has passed it, not. */
  lemma LoadedRecordBlocksAWrite()
    ensures var st := Protocol.LoadRecord(SEVEN, Protocol.Init(FullKind, false, 0), AHEAD, true, 1_000_000);
            && Protocol.MintClock(st, UNSET, 1_000_000).physical <= PHYSICAL_END
            && Protocol.MintClock(st, UNSET, 2_000_000 + MAX_DRIFT_MS).physical <= PHYSICAL_END
            && Protocol.WriteLocal(SEVEN, st, AHEAD.key, UNSET, false, [2], 1_000_000, 0).1 != Stored
            && Protocol.WriteLocal(SEVEN, st, AHEAD.key, UNSET, false, [2], 2_000_000 + MAX_DRIFT_MS, 0).1 == Stored
  {
    hide Protocol.WriteLocal, Protocol.LoadRecord, Protocol.MintClock;
    Invariants.LoadedFutureRecordBlocksWrites(SEVEN, FullKind, false, AHEAD, [2], 1_000_000, 1_000_000, 0);
    Invariants.LoadedFutureRecordBlocksWrites(SEVEN, FullKind, false, AHEAD, [2], 1_000_000,
                                              2_000_000 + MAX_DRIFT_MS, 0);
  }

  /** Two records just past the limit, the first with a spent counter. */
  const SPENT := Entry(BaseKey(SHAREABLE[0]), Stamp(1_000_000 + MAX_DRIFT_MS, COUNTER_MAX, 9), false, [1], None)
  const NEXT := Entry(BaseKey(SHAREABLE[1]), Stamp(1_000_001 + MAX_DRIFT_MS, 0, 9), false, [1], None)

  /** The second is clamped, and yet a write to it is stored: the first has moved the clock. */
  lemma EarlierRecordHelpsAWrite()
    ensures var one := Protocol.LoadRecord(SEVEN, Protocol.Init(FullKind, false, 0), SPENT, true, 1_000_000);
            var two := Protocol.LoadRecord(SEVEN, one, NEXT, true, 1_000_000);
            && Clamped(NEXT.stamp, 1_000_000)
            && Protocol.MintClock(two, UNSET, 1_000_000).physical <= PHYSICAL_END
            && Protocol.WriteLocal(SEVEN, two, NEXT.key, UNSET, false, [2], 1_000_000, 0).1 == Stored
  {
    hide Protocol.WriteLocal;
    var one := Protocol.LoadRecord(SEVEN, Protocol.Init(FullKind, false, 0), SPENT, true, 1_000_000);
    var two := Protocol.LoadRecord(SEVEN, one, NEXT, true, 1_000_000);
    assert one.doc == [SPENT] && two.doc == [SPENT, NEXT];
    Invariants.RewriteIsStoredExactly(SEVEN, two, Invariants.Write(NEXT.key, UNSET, false, [2], 1_000_000), NEXT, 0);
  }

  const FOREIGN := Entry(NodeKey(9, SHAREABLE[0]), Stamp(1, 0, 9), false, [1], None)

  /** Node 7 claims CORE and holds nothing; a delete that failed has left another node's record in
      flash. Under that claim the record is harmless. Claim FULL, boot, and it is back. */
  lemma LeftoverComesBack()
    ensures var flash := map[Persistence.RecName(FOREIGN.key) := Persistence.Encode(FOREIGN)];
            Flash.Tracks(SEVEN, Protocol.Init(CoreKind, false, 0), (e: Entry) => true, flash)
    ensures Protocol.ScopeSet(SEVEN, Protocol.Init(CoreKind, false, 0), FullKind, true).doc == []
    ensures Persistence.LoadAll(SEVEN, Protocol.Init(FullKind, true, 0), (e: Entry) => true,
                                [Persistence.Save(FOREIGN)], 5).doc == [FOREIGN]
  {
    hide Persistence.RecName, Persistence.Encode, Persistence.LoadedEntry;
    var all := (e: Entry) => true;
    var st, ss := Protocol.Init(CoreKind, false, 0), [Persistence.Save(FOREIGN)];
    assert !Contains(Protocol.Mine(SEVEN, st), FOREIGN.key) && KeyIsValid(FOREIGN.key);
    assert Flash.Leftover(SEVEN, st, Persistence.RecName(FOREIGN.key));
    Persistence.SavedEntryLoads(SEVEN, FullKind, all, FOREIGN);
    Persistence.LoadIsAccepting(SEVEN, Protocol.Init(FullKind, true, 0), all, ss, 5);
    assert ss[..0] == [];
    assert Persistence.Loaded(SEVEN, FullKind, all, ss) == [FOREIGN];
    assert [FOREIGN][..0] == [];
  }

  /** The parser takes a name the writer never emits. */
  lemma ShortNameIsParsed()
    ensures Persistence.ParseSpec("n1/7") == Some(('n', 1, 7))
    ensures Persistence.RecName(Key(LAYER_NODE, 1, 7)) != "n1/7"
  {
    var s := "n1/7";
    assert s[1..] == "1/7" && s[3..] == "7" && s[1..2] == "1";
    Persistence.HexRunUnique(s[1..], 8, 1);
    assert Persistence.DecVal("7") == 7 && Persistence.HexVal("1") == 1;
    assert |Persistence.RecName(Key(LAYER_NODE, 1, 7))| > |s|;
  }

  /** A relay with one wire byte too many is refused. */
  lemma LongRelayIsRefused(wire: seq<byte>)
    requires |wire| == 250
    ensures Envelope.Encode(Envelope.TxFrame(0, 4, 0, 0, 0, 0, 0, 0, wire), FrameChannel.ENV_MAX).Err?
  {
    Envelope.RelayFitsExactly(Envelope.TxFrame(0, 4, 0, 0, 0, 0, 0, 0, wire));
  }

  /** Two bytes appended to a result become its lag. */
  lemma TailBecomesLag()
    ensures var env: seq<byte> := [3, 0, 0, 0, 0, 0, 0, 0, 0];
            Envelope.Decode(env + [9, 0]) != Envelope.Decode(env)
  {
    Envelope.AppendedFieldsAreIgnored([3, 0, 0, 0, 0, 0, 0, 0, 0], [9, 0]);
  }

  const NAMED: seq<Channels.Channel> :=
    [Channels.Channel(0, Channels.Secondary, true, [65], [2]), Channels.Channel(1, Channels.Disabled, true, [], []),
     Channels.Channel(2, Channels.Primary, true, [66], [3]), Channels.Channel(3, Channels.Disabled, true, [], []),
     Channels.Channel(4, Channels.Disabled, true, [], []), Channels.Channel(5, Channels.Disabled, true, [], []),
     Channels.Channel(6, Channels.Disabled, true, [], []), Channels.Channel(7, Channels.Disabled, true, [], [])]

  /** Setting slot 5 to a PRIMARY without settings loses the named secondary in slot 0. */
  lemma EmptyPrimaryTakesSlotZero()
    ensures Channels.Sound(NAMED, 2)
    ensures Channels.Edited(NAMED, 2, 5, Channels.Channel(5, Channels.Primary, false, [], [])).0[0]
            == Channels.DefaultPrimary(0) != NAMED[0]
  {
    hide Channels.Edited;
    assert Channels.Sound(NAMED, 2);
    Channels.WhereThePrimaryGoes(NAMED, 2, 5, Channels.Channel(5, Channels.Primary, false, [], []));
  }

  const HEARD := HeardRing.Frame(0, 0)

  /** A frame heard twice, then n others. */
  function Flood(n: nat): (log: seq<HeardRing.Reception>)
    requires n < 100
    ensures |log| == n + 2 && log[0] == HeardRing.Reception(HEARD, 0, 0)
    ensures log[1] == HeardRing.Reception(HEARD, 0, 1)
    ensures forall i :: 2 <= i < |log| ==> log[i] == HeardRing.Reception(HeardRing.Frame(1, i), 0, i)
  {
    if n == 0 then [HeardRing.Reception(HEARD, 0, 0), HeardRing.Reception(HEARD, 0, 1)]
    else Flood(n - 1) + [HeardRing.Reception(HeardRing.Frame(1, n + 1), 0, n + 1)]
  }

  lemma {:induction false} FloodIsTakenUp(n: nat)
    requires n < 100
    ensures |HeardRing.Taken(Flood(n))| == n + 1
    ensures forall f :: f in HeardRing.Taken(Flood(n)) ==> f == HEARD || f.id <= n + 1
  {
    hide HeardRing.Recent, HeardRing.Taken;
    if n == 0 {
      TwoCopiesAreOne(Flood(0));
    } else {
      FloodIsTakenUp(n - 1);
      var log, f := Flood(n - 1), HeardRing.Frame(1, n + 1);
      HeardRing.RecentAt(HeardRing.Taken(log), f);
      HeardRing.NewIsTaken(log, HeardRing.Reception(f, 0, n + 1));
    }
  }

  lemma TwoCopiesAreOne(log: seq<HeardRing.Reception>)
    requires |log| == 2 && log[0].frame == HEARD && log[1].frame == HEARD
    ensures HeardRing.Taken(log) == [HEARD]
  {
    assert log[..1][..0] == [] && log[..1][0].frame == HEARD;
    assert HeardRing.Taken(log[..1]) == [HEARD];
  }

  lemma SecondCopyIsKnown(log: seq<HeardRing.Reception>)
    requires |log| > 1 && log[0].frame == HEARD
    ensures HeardRing.Taken(log[..0]) == [] && !HeardRing.TakesUp(log, HEARD, 1)
  {
    assert log[..1][..0] == [] && log[..0] == [] && log[..1][0].frame == HEARD;
    assert HeardRing.Taken(log[..1]) == [HEARD];
  }

  /** The ring denies the second copy once sixteen or more other frames were heard. */
  lemma RingForgetsACopy(n: nat)
    requires 16 <= n < 100
    ensures HeardRing.LaterCopy(Flood(n), HEARD, 0)
    ensures !HeardRing.Again(HeardRing.Run(Flood(n)), HEARD, 0)
  {
    hide Flood, HeardRing.Taken, HeardRing.Run, HeardRing.Copies, HeardRing.LastAt, HeardRing.Recent, HeardRing.Again;
    var log := Flood(n);
    FloodIsTakenUp(n);
    assert log[1].frame == HEARD && log[1].at > 0;
    HeardRing.FirstHeardIsTakenUp(log, HEARD, 0);
    SecondCopyIsKnown(log);
    HeardRing.AgainIsExact(log, HEARD, 0, 0);
  }
}
