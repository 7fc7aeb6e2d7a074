/** The clock anchor's seqlock: one writer at a time publishes a tuple field by field,
    lock-free readers copy it field by field and retry at most a fixed number of times.
    Every memory access is one step, and steps interleave arbitrarily. */
module Seqlock {
  import opened Bytes

  const FIELDS := 8
  const VALID := 5
  const RETRIES := 4

  /** (epoch_ms low and high word, anchor_uptime_ms low and high word, quality, valid, skew_ppb,
      skew_valid): a 32-bit target copies the 64-bit fields one word at a time. */
  type Anchor = a: seq<int> | |a| == FIELDS witness [0, 0, 0, 0, 0, 0, 0, 0]

  datatype Writer = Quiet | Writing(target: Anchor, stored: set<nat>)

  /** `began` and `lapped` are history, not program state: how often the sequence had been
      bumped when the attempt began, and whether a whole wrap of it passed since. */
  datatype Reader =
    | Starting(tries: nat)
    | Copying(tries: nat, before: nat, began: nat, out: map<nat, int>)
    | Finished(ok: bool, began: nat, lapped: bool, out: map<nat, int>)

  /** `published[n]` is the anchor after n writes; the real sequence counter is
      `bumps` modulo a word. */
  datatype System = System(mem: Anchor, bumps: nat, writer: Writer, reader: Reader, published: seq<Anchor>)

  datatype Action =
    | BeginWrite(target: Anchor)
    | StoreField(field: nat)
    | EndWrite
    | LoadSeq
    | LoadField(field: nat)
    | CheckSeq

  const ALL: set<nat> := set i | 0 <= i < FIELDS

  function Start(a: Anchor): System { System(a, 0, Quiet, Starting(0), [a]) }

  /** Writers exclude each other; a copy stores and loads each field once, in any order. */
  predicate Enabled(s: System, act: Action) {
    match act
    case BeginWrite(_) => s.writer.Quiet?
    case StoreField(j) => s.writer.Writing? && j < FIELDS
    case EndWrite => s.writer.Writing? && s.writer.stored == ALL
    case LoadSeq => s.reader.Starting?
    case LoadField(j) => s.reader.Copying? && j < FIELDS && j !in s.reader.out
    case CheckSeq => s.reader.Copying? && s.reader.out.Keys == ALL
  }

  function GiveUpOrRetry(tries: nat, began: nat): Reader {
    if tries + 1 >= RETRIES then Finished(false, began, false, map[]) else Starting(tries + 1)
  }

  function Next(s: System, act: Action): System
    requires Enabled(s, act)
  {
    match act
    case BeginWrite(target) => s.(bumps := s.bumps + 1, writer := Writing(target, {}))
    case StoreField(j) =>
      s.(mem := s.mem[j := s.writer.target[j]], writer := s.writer.(stored := s.writer.stored + {j}))
    case EndWrite =>
      s.(bumps := s.bumps + 1, writer := Quiet, published := s.published + [s.writer.target])
    case LoadSeq =>
      var before := s.bumps % WORD;
      s.(reader := if before % 2 != 0 then GiveUpOrRetry(s.reader.tries, s.bumps)
                   else Copying(s.reader.tries, before, s.bumps, map[]))
    case LoadField(j) =>
      var r := s.reader;
      s.(reader := Copying(r.tries, r.before, r.began, r.out[j := s.mem[j]]))
    case CheckSeq =>
      var r := s.reader;
      s.(reader := if s.bumps % WORD == r.before
                   then Finished(r.out[VALID] != 0, r.began, s.bumps - r.began >= WORD, r.out)
                   else GiveUpOrRetry(r.tries, r.began))
  }

  ghost predicate LegalRun(a: Anchor, acts: seq<Action>)
    decreases |acts|, 0
  {
    |acts| == 0 ||
    (LegalRun(a, acts[..|acts| - 1]) && Enabled(Run(a, acts[..|acts| - 1]), acts[|acts| - 1]))
  }

  ghost function Run(a: Anchor, acts: seq<Action>): System
    requires LegalRun(a, acts)
    decreases |acts|, 1
  {
    if |acts| == 0 then Start(a) else Next(Run(a, acts[..|acts| - 1]), acts[|acts| - 1])
  }

  // ----- safety ---------------------------------------------------------------------------

  predicate WriterSound(s: System) {
    && |s.published| > 0
    && var current := s.published[|s.published| - 1];
       match s.writer
       case Quiet => s.bumps == 2 * (|s.published| - 1) && s.mem == current
       case Writing(target, stored) =>
         && s.bumps == 2 * (|s.published| - 1) + 1
         && forall j :: 0 <= j < FIELDS ==> s.mem[j] == if j in stored then target[j] else current[j]
  }

  /** Every field copied so far is of the tuple current when the sequence stood at `began`. */
  predicate CopiedFrom(s: System, began: nat, out: map<nat, int>) {
    && began % 2 == 0 && began / 2 < |s.published|
    && forall j :: j in out ==> 0 <= j < FIELDS && out[j] == s.published[began / 2][j]
  }

  predicate ReaderSound(s: System) {
    match s.reader
    case Starting(tries) => tries < RETRIES
    case Copying(tries, before, began, out) =>
      && tries < RETRIES && before == began % WORD && began <= s.bumps && began % 2 == 0
      && (s.bumps == began ==> CopiedFrom(s, began, out))
    case Finished(ok, began, lapped, out) =>
      ok && !lapped ==> CopiedFrom(s, began, out) && out.Keys == ALL && out[VALID] != 0
  }

  lemma StepIsSound(s: System, act: Action)
    requires WriterSound(s) && ReaderSound(s) && Enabled(s, act)
    ensures WriterSound(Next(s, act)) && ReaderSound(Next(s, act))
  {
    match act
    case EndWrite => assert forall j :: 0 <= j < FIELDS ==> j in ALL;
    case LoadSeq =>
      assert s.bumps % WORD % 2 == s.bumps % 2 by { assert WORD % 2 == 0; EvenModulus(s.bumps); }
    case CheckSeq =>
      var r := s.reader;
      if s.bumps % WORD == r.before && s.bumps - r.began < WORD { SameResidue(s.bumps, r.began); }
    case _ =>
  }

  lemma EvenModulus(n: nat)
    ensures n % WORD % 2 == n % 2
  {
    assert n == (n / WORD) * WORD + n % WORD;
  }

  lemma SameResidue(m: nat, n: nat)
    requires n <= m < n + WORD && m % WORD == n % WORD
    ensures m == n
  {
  }

  lemma {:induction false} RunIsSound(a: Anchor, acts: seq<Action>)
    requires LegalRun(a, acts)
    ensures WriterSound(Run(a, acts)) && ReaderSound(Run(a, acts))
    decreases |acts|
  {
    if |acts| > 0 {
      RunIsSound(a, acts[..|acts| - 1]);
      StepIsSound(Run(a, acts[..|acts| - 1]), acts[|acts| - 1]);
    }
  }

  /** Under every interleaving, a reader that reports success returns, field for field, one
      tuple a single write published (the one current when its attempt began), and that
      tuple is seeded; the only escape is 2^31 whole writes inside one attempt. */
  lemma SuccessIsAtomic(a: Anchor, acts: seq<Action>)
    requires LegalRun(a, acts)
    ensures var s := Run(a, acts);
            s.reader.Finished? && s.reader.ok && !s.reader.lapped ==>
              exists n :: 0 <= n < |s.published| && s.published[n][VALID] != 0 && n == s.reader.began / 2
                          && forall j :: 0 <= j < FIELDS ==> j in s.reader.out && s.reader.out[j] == s.published[n][j]
  {
    RunIsSound(a, acts);
    var s := Run(a, acts);
    if s.reader.Finished? && s.reader.ok && !s.reader.lapped {
      var n := s.reader.began / 2;
      assert forall j :: 0 <= j < FIELDS ==> j in ALL;
      assert s.published[n][VALID] != 0;
    }
  }

  // ----- boundedness ------------------------------------------------------------------------

  predicate ReaderAction(act: Action) { act.LoadSeq? || act.LoadField? || act.CheckSeq? }

  /** How many of its own steps a reader can still take. */
  function StepsLeft(r: Reader): int {
    match r
    case Starting(tries) => (RETRIES - tries) * (FIELDS + 2)
    case Copying(tries, _, _, out) => (RETRIES - tries) * (FIELDS + 2) - 1 - |out.Keys|
    case Finished(_, _, _, _) => 0
  }

  /** Whatever writers do, each reader step uses up the budget and no writer step refunds it. */
  lemma ReaderIsBounded(s: System, act: Action)
    requires WriterSound(s) && ReaderSound(s) && Enabled(s, act)
    requires s.reader.Copying? ==> s.reader.out.Keys <= ALL
    ensures ReaderAction(act) ==> StepsLeft(Next(s, act).reader) < StepsLeft(s.reader)
    ensures !ReaderAction(act) ==> Next(s, act).reader == s.reader
    ensures Next(s, act).reader.Copying? ==> Next(s, act).reader.out.Keys <= ALL
    ensures StepsLeft(Next(s, act).reader) >= 0
  {
    AllSize();
    if s.reader.Copying? { Within(s.reader.out.Keys); }
    match act
    case LoadField(j) =>
      var out := s.reader.out;
      assert out[j := s.mem[j]].Keys == out.Keys + {j};
      Within(out.Keys + {j});
    case _ =>
  }

  lemma AllSize()
    ensures |ALL| == FIELDS
  {
    assert ALL == {0, 1, 2, 3, 4, 5, 6, 7};
  }

  lemma Within(x: set<nat>)
    requires x <= ALL
    ensures |x| <= FIELDS
  {
    AllSize();
    assert ALL == x + (ALL - x);
  }

  ghost function ReaderSteps(acts: seq<Action>): nat {
    if |acts| == 0 then 0
    else ReaderSteps(acts[..|acts| - 1]) + if ReaderAction(acts[|acts| - 1]) then 1 else 0
  }

  lemma {:induction false} StepsAreSpent(a: Anchor, acts: seq<Action>)
    requires LegalRun(a, acts)
    ensures var s := Run(a, acts);
            && StepsLeft(s.reader) >= 0 && ReaderSteps(acts) + StepsLeft(s.reader) <= RETRIES * (FIELDS + 2)
            && (s.reader.Copying? ==> s.reader.out.Keys <= ALL)
    decreases |acts|
  {
    if |acts| > 0 {
      var init := acts[..|acts| - 1];
      StepsAreSpent(a, init);
      RunIsSound(a, init);
      ReaderIsBounded(Run(a, init), acts[|acts| - 1]);
    }
  }

  /** A reader never spins: it takes at most four attempts' worth of steps however writers
      interleave, and until it has finished it always has a step to take. */
  lemma ReaderAlwaysFinishes(a: Anchor, acts: seq<Action>)
    requires LegalRun(a, acts)
    ensures ReaderSteps(acts) <= RETRIES * (FIELDS + 2)
    ensures ReaderSteps(acts) == RETRIES * (FIELDS + 2) ==> Run(a, acts).reader.Finished?
    ensures !Run(a, acts).reader.Finished? ==>
              exists act :: ReaderAction(act) && Enabled(Run(a, acts), act)
  {
    StepsAreSpent(a, acts);
    RunIsSound(a, acts);
    var s := Run(a, acts);
    match s.reader
    case Starting(_) => assert Enabled(s, LoadSeq);
    case Copying(tries, _, _, out) =>
      if out.Keys == ALL {
        assert Enabled(s, CheckSeq);
      } else {
        var j :| j in ALL && j !in out.Keys;
        assert Enabled(s, LoadField(j));
      }
      Within(out.Keys);
    case Finished(_, _, _, _) =>
  }

  // ----- success ------------------------------------------------------------------------------

  lemma {:induction false} PrefixIsLegal(a: Anchor, acts: seq<Action>, n: nat)
    requires LegalRun(a, acts) && n <= |acts|
    ensures LegalRun(a, acts[..n])
    decreases |acts|
  {
    if n == |acts| {
      assert acts[..n] == acts;
    } else {
      PrefixIsLegal(a, acts[..|acts| - 1], n);
      assert acts[..|acts| - 1][..n] == acts[..n];
    }
  }

  /** A whole, undisturbed copy is reported, as seeded or not, exactly as the current tuple is. */
  lemma UndisturbedCheckSucceeds(a: Anchor, acts: seq<Action>)
    requires LegalRun(a, acts)
    requires var s := Run(a, acts);
             s.reader.Copying? && s.reader.out.Keys == ALL && s.bumps == s.reader.began
    ensures var s := Run(a, acts);
            var r := Next(s, CheckSeq).reader;
            && s.reader.began / 2 < |s.published| && r.Finished? && (r.ok <==> s.published[s.reader.began / 2][VALID] != 0)
            && r.out == s.reader.out
  {
    RunIsSound(a, acts);
    var s := Run(a, acts);
    assert VALID in s.reader.out.Keys;
  }

  /** Where a reader is that began an attempt `taken` steps ago and met no write. */
  ghost predicate OnItsWay(s: System, tries: nat, current: Anchor, taken: int) {
    && s.writer.Quiet? && |s.published| > 0 && s.published[|s.published| - 1] == current
    && match s.reader
       case Starting(t) => t == tries && taken == 0
       case Copying(t, _, began, out) => t == tries && began == s.bumps && taken == 1 + |out.Keys|
       case Finished(ok, _, _, out) =>
         && (ok <==> current[VALID] != 0) && taken == FIELDS + 2
         && forall j :: 0 <= j < FIELDS ==> j in out && out[j] == current[j]
  }

  lemma QuietStep(s: System, tries: nat, current: Anchor, taken: int, act: Action)
    requires WriterSound(s) && ReaderSound(s) && Enabled(s, act) && !act.BeginWrite?
    requires OnItsWay(s, tries, current, taken)
    ensures OnItsWay(Next(s, act), tries, current, taken + if ReaderAction(act) then 1 else 0)
  {
    match act
    case LoadSeq => EvenModulus(s.bumps);
    case LoadField(j) =>
      var out := s.reader.out;
      assert out[j := s.mem[j]].Keys == out.Keys + {j};
    case CheckSeq =>
      AllSize();
      assert forall j :: 0 <= j < FIELDS ==> j in ALL;
    case _ =>
  }

  /** An attempt that begins between writes and meets none succeeds exactly when the current tuple
      is seeded, with that tuple, in one step for the sequence, one per word and one to check. */
  lemma {:induction false} QuietReadSucceeds(a: Anchor, acts: seq<Action>, n: nat)
    requires LegalRun(a, acts) && n <= |acts| && LegalRun(a, acts[..n])
    requires Run(a, acts[..n]).reader.Starting? && Run(a, acts[..n]).writer.Quiet?
    requires forall i :: n <= i < |acts| ==> !acts[i].BeginWrite?
    ensures var s0, s := Run(a, acts[..n]), Run(a, acts);
            var taken := ReaderSteps(acts) - ReaderSteps(acts[..n]);
            && |s0.published| > 0
            && OnItsWay(s, s0.reader.tries, s0.published[|s0.published| - 1], taken)
            && (taken >= FIELDS + 2 ==> s.reader.Finished?)
    decreases |acts|
  {
    hide OnItsWay, Next, WriterSound, ReaderSound, StepsLeft;
    RunIsSound(a, acts[..n]);
    var s0 := Run(a, acts[..n]);
    AtTheStart(s0);
    if n == |acts| {
      assert acts[..n] == acts;
    } else {
      var init := acts[..|acts| - 1];
      assert init[..n] == acts[..n];
      QuietReadSucceeds(a, init, n);
      RunIsSound(a, init);
      QuietStep(Run(a, init), s0.reader.tries, s0.published[|s0.published| - 1],
                ReaderSteps(init) - ReaderSteps(acts[..n]), acts[|acts| - 1]);
      RunIsSound(a, acts);
    }
    StepsAreSpent(a, acts);
    EndOfTheWay(Run(a, acts), s0.reader.tries, s0.published[|s0.published| - 1],
                ReaderSteps(acts) - ReaderSteps(acts[..n]));
  }

  lemma AtTheStart(s: System)
    requires WriterSound(s) && s.reader.Starting? && s.writer.Quiet?
    ensures OnItsWay(s, s.reader.tries, s.published[|s.published| - 1], 0)
  {
  }

  lemma EndOfTheWay(s: System, tries: nat, current: Anchor, taken: int)
    requires OnItsWay(s, tries, current, taken)
    requires s.reader.Copying? ==> s.reader.out.Keys <= ALL
    ensures taken >= FIELDS + 2 ==> s.reader.Finished?
  {
    if s.reader.Copying? { Within(s.reader.out.Keys); }
  }

  ghost function Attempts(acts: seq<Action>): (n: nat) {
    if |acts| == 0 then 0 else Attempts(acts[..|acts| - 1]) + if acts[|acts| - 1].LoadSeq? then 1 else 0
  }

  /** A reader fails only for one of two reasons: what it read whole is unseeded, or it has used
      all four attempts. */
  lemma {:induction false} FailureHasAReason(a: Anchor, acts: seq<Action>)
    requires LegalRun(a, acts)
    ensures Explained(Run(a, acts).reader, Attempts(acts))
    decreases |acts|
  {
    hide Next, WriterSound, ReaderSound, Explained;
    if |acts| > 0 {
      FailureHasAReason(a, acts[..|acts| - 1]);
      RunIsSound(a, acts[..|acts| - 1]);
      StepIsExplained(Run(a, acts[..|acts| - 1]), acts[|acts| - 1], Attempts(acts[..|acts| - 1]));
    } else {
      NoAttempts(a);
    }
  }

  predicate Explained(r: Reader, attempts: nat) {
    match r
    case Starting(tries) => attempts == tries
    case Copying(tries, _, _, _) => attempts == tries + 1
    case Finished(ok, _, _, out) => !ok ==> attempts == RETRIES || (VALID in out && out[VALID] == 0)
  }

  lemma NoAttempts(a: Anchor)
    ensures Explained(Start(a).reader, 0)
  {
  }

  lemma StepIsExplained(s: System, act: Action, attempts: nat)
    requires ReaderSound(s) && Enabled(s, act) && Explained(s.reader, attempts)
    ensures Explained(Next(s, act).reader, attempts + if act.LoadSeq? then 1 else 0)
  {
  }
}
