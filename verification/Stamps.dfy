/** Hybrid logical clock stamps: the total order every merge decision rests on,
    and the clock that mints them. */
module Stamps {
  import opened Bytes

  const MAX_DRIFT_MS := 5 * 60 * 1000
  const COUNTER_MAX: u32 := 0xFFFF_FFFF
  const PHYSICAL_END: nat := 0x7FFF_FFFF_FFFF_FFFF

  datatype Stamp = Stamp(physical: i64, counter: u32, node: u32)

  const UNSET := Stamp(0, 0, 0)

  /** One node's clock state. It starts at zero and only ever grows. */
  datatype Hlc = Hlc(physical: nat, counter: u32)

  function Compare(a: Stamp, b: Stamp): (c: int)
    ensures c == 0 <==> a == b
  {
    if a.physical != b.physical then (if a.physical > b.physical then 1 else -1)
    else if a.counter != b.counter then (if a.counter > b.counter then 1 else -1)
    else if a.node != b.node then (if a.node > b.node then 1 else -1)
    else 0
  }

  predicate Newer(a: Stamp, b: Stamp) {
    Compare(a, b) > 0
  }

  /** Exactly one of two distinct stamps wins, so every node picks the same one. */
  lemma NewerIsTotal(a: Stamp, b: Stamp)
    ensures a != b ==> (Newer(a, b) <==> !Newer(b, a))
  {
  }

  lemma NewerTransitive(a: Stamp, b: Stamp, c: Stamp)
    requires Newer(a, b) || a == b
    requires Newer(b, c)
    ensures Newer(a, c)
  {
  }

  /** A stamp as one number: time first, then the counter, then the node that minted it. */
  function Rank(s: Stamp): (r: int) {
    s.physical * 0x1_0000_0000_0000_0000 + s.counter * 0x1_0000_0000 + s.node
  }

  lemma NewerIsGreater(a: Stamp, b: Stamp)
    ensures Newer(a, b) <==> Rank(a) > Rank(b)
  {
  }

  /** The later of two stamps, keeping the first on a tie. */
  function Later(a: Stamp, b: Stamp): (m: Stamp)
    ensures !Newer(a, m) && !Newer(b, m) && (m == a || m == b)
  {
    if Newer(b, a) then b else a
  }

  // ----- the clock ------------------------------------------------------------

  /** Step past `from` within one millisecond; a saturated counter spends a
      millisecond of physical time instead of wrapping backwards. */
  function BumpCounter(physical: nat, from: u32): (h: Hlc)
    ensures After(h, physical, from)
  {
    if from == COUNTER_MAX then Hlc(physical + 1, 0) else Hlc(physical, from + 1)
  }

  /** Strictly later than the pair (`physical`, `counter`). */
  predicate After(h: Hlc, physical: int, counter: int) {
    h.physical > physical || (h.physical == physical && h.counter > counter)
  }

  /** At or past the time a stamp carries, so the next mint outranks it. */
  predicate Covers(h: Hlc, s: Stamp) {
    h.physical > s.physical || (h.physical == s.physical && h.counter >= s.counter)
  }

  function ClockReading(now: int): (n: nat) {
    if now < 0 then 0 else now
  }

  function LocalAt(h: Hlc, now: int): (h': Hlc)
    ensures After(h', h.physical, h.counter)
    ensures h'.physical >= now
  {
    if ClockReading(now) > h.physical then Hlc(ClockReading(now), 0)
    else BumpCounter(h.physical, h.counter)
  }

  function MintedStamp(h: Hlc, node: u32): (s: Stamp)
    requires h.physical <= PHYSICAL_END
    ensures s.node == node
  {
    Stamp(h.physical, h.counter, node)
  }

  predicate Clamped(remote: Stamp, now: int) {
    now > 0 && remote.physical > now + MAX_DRIFT_MS
  }

  function ObserveAt(h: Hlc, remote: Stamp, now: int): (h': Hlc)
    ensures After(h', h.physical, h.counter)
    ensures h'.physical >= now
  {
    var reading := ClockReading(now);
    var remoteMs := if Clamped(remote, now) then reading else remote.physical;
    var l := Max(h.physical, Max(remoteMs, reading));
    if l == h.physical && l == remoteMs then
      BumpCounter(l, Max(h.counter, remote.counter))
    else if l == h.physical then BumpCounter(l, h.counter)
    else if l == remoteMs then BumpCounter(l, remote.counter)
    else Hlc(l, 0)
  }

  /** "Causally ahead of anything we have seen" holds of an observed stamp exactly
      when the drift guard did not clamp it, or the clock already covered it. */
  lemma ObservePassesRemote(h: Hlc, remote: Stamp, now: int)
    ensures After(ObserveAt(h, remote, now), remote.physical, remote.counter)
            <==> !Clamped(remote, now) || Covers(h, remote)
    ensures Covers(h, remote) ==> Covers(ObserveAt(h, remote, now), remote)
  {
    var h' := ObserveAt(h, remote, now);
    if Clamped(remote, now) {
      if h.physical < now {
        assert h'.physical <= now + 1;
      } else {
        assert h' == BumpCounter(h.physical, h.counter)
            || h' == BumpCounter(h.physical, Max(h.counter, remote.counter));
      }
    }
  }

  /** What the clock covers it keeps covering, whatever it observes or mints next. */
  lemma CoverIsStable(h: Hlc, s: Stamp, remote: Stamp, now: int)
    requires Covers(h, s)
    ensures Covers(ObserveAt(h, remote, now), s)
    ensures Covers(LocalAt(h, now), s)
  {
  }

  /** A mint outranks every stamp its clock covers, whoever authored it. */
  lemma MintOutranksCovered(h: Hlc, s: Stamp, node: u32, now: int)
    requires Covers(h, s)
    requires LocalAt(h, now).physical <= PHYSICAL_END
    ensures Newer(MintedStamp(LocalAt(h, now), node), s)
    ensures Covers(LocalAt(h, now), MintedStamp(LocalAt(h, now), node))
  {
  }

  // ----- what a mint outranks, exactly -------------------------------------------

  /** A stamp minted at this clock by this node would be newer. */
  predicate Outranks(h: Hlc, node: u32, s: Stamp) {
    After(h, s.physical, s.counter) || (h.physical == s.physical && h.counter == s.counter && node > s.node)
  }

  lemma OutranksIsNewer(h: Hlc, node: u32, s: Stamp)
    requires h.physical <= PHYSICAL_END
    ensures Outranks(h, node, s) <==> Newer(MintedStamp(h, node), s)
  {
  }

  function Twice(h: Hlc): (h': Hlc) {
    var once := BumpCounter(h.physical, h.counter);
    BumpCounter(once.physical, once.counter)
  }

  /** What the drift guard lets through of an observed stamp. */
  function SeenAs(s: Stamp, now: int): (h: Hlc) {
    if Clamped(s, now) then Hlc(ClockReading(now), s.counter)
    else if s.physical < 0 then Hlc(0, 0)
    else Hlc(s.physical, s.counter)
  }

  /** Observing a stamp and then minting outranks exactly what one of three clocks outranks: the
      wall clock at count one, the clock before bumped twice, and what was seen bumped twice. */
  lemma MintIsTheLatest(h: Hlc, seen: Stamp, now: int, node: u32, s: Stamp)
    ensures Outranks(LocalAt(ObserveAt(h, seen, now), now), node, s)
            <==> || Outranks(Hlc(ClockReading(now), 1), node, s)
                 || Outranks(Twice(h), node, s)
                 || Outranks(Twice(SeenAs(seen, now)), node, s)
  {
  }
}
