/** The digest a node advertises over the scope it claims, and the comparison a
    receiver makes over the intersection of two claims. */
module Digest {
  import opened Bytes
  import opened Stamps
  import opened Document

  /** The CRC-32 update, uninterpreted: any function of the running value and a row. */
  type Crc = (u32, seq<byte>) -> u32

  // ----- versions: what the digest covers ---------------------------------------

  /** An entry without its payload and signature: exactly what a row describes. */
  function Bare(e: Entry): Entry { e.(payload := [], sig := None) }

  function Project(t: seq<Entry>, f: Entry -> Entry): (r: seq<Entry>)
    ensures |r| == |t| && forall i :: 0 <= i < |t| ==> r[i] == f(t[i])
  {
    seq(|t|, i requires 0 <= i < |t| => f(t[i]))
  }

  function MapOption(r: Option<Entry>, f: Entry -> Entry): Option<Entry> {
    if r.Some? then Some(f(r.value)) else None
  }

  lemma ProjectFind(t: seq<Entry>, f: Entry -> Entry, k: Key)
    requires Sorted(t) && forall e :: f(e).key == e.key
    ensures Sorted(Project(t, f))
    ensures Find(Project(t, f), k) == MapOption(Find(t, k), f)
  {
    var r := Project(t, f);
    PosUnique(r, k, Pos(t, k));
  }

  /** Tables that look alike through a key-preserving view are equal through it. */
  lemma ProjectionDeterminesTable(s: seq<Entry>, t: seq<Entry>, f: Entry -> Entry)
    requires Sorted(s) && Sorted(t) && forall e :: f(e).key == e.key
    requires forall k :: MapOption(Find(s, k), f) == MapOption(Find(t, k), f)
    ensures Project(s, f) == Project(t, f)
  {
    forall k ensures Find(Project(s, f), k) == Find(Project(t, f), k) {
      ProjectFind(s, f, k);
      ProjectFind(t, f, k);
    }
    ProjectFind(s, f, NO_ENTRY.key);
    ProjectFind(t, f, NO_ENTRY.key);
    LookupDeterminesTable(Project(s, f), Project(t, f));
  }

  /** Two documents hold the same versions of every key in `s`. */
  ghost predicate AgreeOn(a: seq<Entry>, b: seq<Entry>, s: Scope) {
    forall k :: Contains(s, k) ==> MapOption(Find(a, k), Bare) == MapOption(Find(b, k), Bare)
  }

  // ----- the three legs ---------------------------------------------------------

  function KeyBytes(k: Key): (bs: seq<byte>)
    ensures |bs| == 7
  {
    [k.layer] + ToLe(k.node, 4) + ToLe(k.section, 2)
  }

  function StampBytes(s: Stamp): (bs: seq<byte>)
    ensures |bs| == 16
  {
    ToLe(AsU64(s.physical), 8) + ToLe(s.counter, 4) + ToLe(s.node, 4)
  }

  /** The canonical 24-byte row, the only bytes that reach the hash. */
  function RowBytes(e: Entry): (row: seq<byte>)
    ensures |row| == 24
  {
    KeyBytes(e.key) + StampBytes(e.stamp) + [if e.tombstone then 1 else 0]
  }

  lemma KeyBytesInjective(a: Key, b: Key)
    requires KeyBytes(a) == KeyBytes(b)
    ensures a == b
  {
    SplitAt([a.layer] + ToLe(a.node, 4), ToLe(a.section, 2), [b.layer] + ToLe(b.node, 4), ToLe(b.section, 2));
    SplitAt([a.layer], ToLe(a.node, 4), [b.layer], ToLe(b.node, 4));
    U32Injective(a.node, b.node);
    U16Injective(a.section, b.section);
  }

  lemma StampBytesInjective(a: Stamp, b: Stamp)
    requires StampBytes(a) == StampBytes(b)
    ensures a == b
  {
    var p, q := ToLe(AsU64(a.physical), 8), ToLe(AsU64(b.physical), 8);
    SplitAt(p + ToLe(a.counter, 4), ToLe(a.node, 4), q + ToLe(b.counter, 4), ToLe(b.node, 4));
    SplitAt(p, ToLe(a.counter, 4), q, ToLe(b.counter, 4));
    I64Injective(a.physical, b.physical);
    U32Injective(a.counter, b.counter);
    U32Injective(a.node, b.node);
  }

  /** The row encoding loses nothing: every key and stamp field is recoverable. */
  lemma RowInjective(a: Entry, b: Entry)
    requires RowBytes(a) == RowBytes(b)
    ensures Bare(a) == Bare(b)
  {
    var x: seq<byte>, y: seq<byte> := [if a.tombstone then 1 else 0], [if b.tombstone then 1 else 0];
    SplitAt(KeyBytes(a.key) + StampBytes(a.stamp), x, KeyBytes(b.key) + StampBytes(b.stamp), y);
    SplitAt(KeyBytes(a.key), StampBytes(a.stamp), KeyBytes(b.key), StampBytes(b.stamp));
    KeyBytesInjective(a.key, b.key);
    StampBytesInjective(a.stamp, b.stamp);
    assert x[0] == y[0];
  }

  function HashRows(crc: Crc, t: seq<Entry>): (h: u32) {
    if |t| == 0 then 0 else crc(HashRows(crc, t[..|t| - 1]), RowBytes(t[|t| - 1]))
  }

  function MaxStamp(t: seq<Entry>): (m: Stamp) {
    if |t| == 0 then UNSET else Later(MaxStamp(t[..|t| - 1]), t[|t| - 1].stamp)
  }

  /** The max leg is an upper bound of the rows and of "unset", and is attained. */
  lemma {:induction false} MaxStampIsMax(t: seq<Entry>, e: Entry)
    ensures !Newer(UNSET, MaxStamp(t))
    ensures e in t ==> !Newer(e.stamp, MaxStamp(t))
    ensures MaxStamp(t) == UNSET || exists x :: x in t && x.stamp == MaxStamp(t)
  {
    if |t| > 0 {
      var init, last := t[..|t| - 1], t[|t| - 1];
      assert t == init + [last];
      MaxStampIsMax(init, e);
      assert last in t;
    }
  }

  /** Payloads and signatures do not reach any leg. */
  lemma {:induction false} LegsSeeOnlyVersions(crc: Crc, s: seq<Entry>, t: seq<Entry>)
    requires Project(s, Bare) == Project(t, Bare)
    ensures HashRows(crc, s) == HashRows(crc, t)
    ensures |s| == |t| && MaxStamp(s) == MaxStamp(t)
  {
    assert |Project(s, Bare)| == |s| && |Project(t, Bare)| == |t|;
    if |s| > 0 {
      var n := |s| - 1;
      assert Project(s[..n], Bare) == Project(s, Bare)[..n] == Project(t[..n], Bare);
      LegsSeeOnlyVersions(crc, s[..n], t[..n]);
      assert Bare(s[n]) == Project(s, Bare)[n] == Bare(t[n]);
      assert RowBytes(s[n]) == RowBytes(Bare(s[n])) == RowBytes(t[n]);
    }
  }

  function Rows(t: seq<Entry>): (r: seq<seq<byte>>)
    ensures |r| == |t| && forall i :: 0 <= i < |t| ==> r[i] == RowBytes(t[i])
  {
    seq(|t|, i requires 0 <= i < |t| => RowBytes(t[i]))
  }

  /** A CRC collision: different row bytes, same hash. */
  ghost predicate Collide(crc: Crc, s: seq<Entry>, t: seq<Entry>) {
    HashRows(crc, s) == HashRows(crc, t) && Rows(s) != Rows(t)
  }

  /** Equal row bytes are equal versions, so a mistaken match is always a CRC
      collision and never an artefact of the row encoding. */
  lemma EqualRowBytesAreEqualVersions(s: seq<Entry>, t: seq<Entry>)
    requires Rows(s) == Rows(t)
    ensures Project(s, Bare) == Project(t, Bare)
  {
    assert |s| == |Rows(s)| == |t|;
    forall i | 0 <= i < |s| ensures Bare(s[i]) == Bare(t[i]) {
      assert Rows(s)[i] == Rows(t)[i];
      RowInjective(s[i], t[i]);
    }
  }

  /** Agreement over a scope is equality of the restricted row sequences. */
  lemma AgreementIsEqualRows(a: seq<Entry>, b: seq<Entry>, s: Scope)
    requires Sorted(a) && Sorted(b)
    ensures AgreeOn(a, b, s) <==> Project(Restrict(a, s), Bare) == Project(Restrict(b, s), Bare)
  {
    RestrictSorted(a, s);
    RestrictSorted(b, s);
    if AgreeOn(a, b, s) {
      forall k ensures MapOption(Find(Restrict(a, s), k), Bare) == MapOption(Find(Restrict(b, s), k), Bare) {
        RestrictFind(a, s, k);
        RestrictFind(b, s, k);
      }
      ProjectionDeterminesTable(Restrict(a, s), Restrict(b, s), Bare);
    }
    if Project(Restrict(a, s), Bare) == Project(Restrict(b, s), Bare) {
      forall k | Contains(s, k) ensures MapOption(Find(a, k), Bare) == MapOption(Find(b, k), Bare) {
        RestrictFind(a, s, k);
        RestrictFind(b, s, k);
        ProjectFind(Restrict(a, s), Bare, k);
        ProjectFind(Restrict(b, s), Bare, k);
      }
    }
  }

  // ----- building and comparing -----------------------------------------------

  datatype WireScope = Unspecified | WireFull | WireCore
  datatype ClusterDigest = ClusterDigest(docHash: u32, entryCount: nat, maxStamp: Stamp,
                                         scope: WireScope, baseHash: u32, baseCount: nat)
  datatype Comparison = Incomparable | Match | Mismatch

  const BASE_ONLY := ScopeMake(BaseKind, 0)

  /** The claim resolved now: CORE without a node id falls back to FULL. */
  function MyScope(kind: ScopeKind, me: u32): (s: Scope) {
    if kind == CoreKind && me == 0 then ScopeMake(FullKind, 0) else ScopeMake(kind, me)
  }

  function ScopeToWire(s: Scope): WireScope { if s.kind == CoreKind then WireCore else WireFull }

  /** The owner of a CORE claim comes from the frame's sender, never from its bytes. */
  function ScopeFromWire(w: WireScope, from: u32): (s: Scope) {
    if w == WireCore then ScopeMake(CoreKind, from) else ScopeMake(FullKind, 0)
  }

  function BuildDigest(crc: Crc, t: seq<Entry>, mine: Scope): (d: ClusterDigest) {
    ClusterDigest(HashRows(crc, Restrict(t, mine)), |Restrict(t, mine)|,
                  MaxStamp(Restrict(t, mine)), ScopeToWire(mine),
                  HashRows(crc, Restrict(t, BASE_ONLY)), |Restrict(t, BASE_ONLY)|)
  }

  /** Documents holding the same versions advertise the same digest, whatever the claim. */
  lemma OneVersionOneDigest(crc: Crc, a: seq<Entry>, b: seq<Entry>, s: Scope)
    requires Sorted(a) && Sorted(b)
    requires forall k :: MapOption(Find(a, k), Bare) == MapOption(Find(b, k), Bare)
    ensures BuildDigest(crc, a, s) == BuildDigest(crc, b, s)
  {
    AgreementIsEqualRows(a, b, s);
    AgreementIsEqualRows(a, b, BASE_ONLY);
    LegsSeeOnlyVersions(crc, Restrict(a, s), Restrict(b, s));
    LegsSeeOnlyVersions(crc, Restrict(a, BASE_ONLY), Restrict(b, BASE_ONLY));
  }

  function CompareDigest(crc: Crc, t: seq<Entry>, mine: Scope, from: u32, d: ClusterDigest)
    : (c: Comparison)
  {
    var peer := ScopeFromWire(d.scope, from);
    if Intersect(mine, peer) == peer then
      var r := Restrict(t, peer);
      if HashRows(crc, r) == d.docHash && |r| == d.entryCount && MaxStamp(r) == d.maxStamp
      then Match else Mismatch
    else if d.scope == Unspecified then Incomparable
    else
      var r := Restrict(t, BASE_ONLY);
      if HashRows(crc, r) == d.baseHash && |r| == d.baseCount then Match else Mismatch
  }

  /** The set the comparison really covers. */
  function ComparedScope(mine: Scope, peer: Scope): Scope {
    if Intersect(mine, peer) == peer then peer else BASE_ONLY
  }

  /** What a sender's digest says is true of its document; a sender predating scopes
      (`Unspecified`) says nothing about base. */
  ghost predicate Describes(crc: Crc, d: ClusterDigest, t: seq<Entry>, from: u32) {
    var r := Restrict(t, ScopeFromWire(d.scope, from));
    && d.docHash == HashRows(crc, r) && d.entryCount == |r| && d.maxStamp == MaxStamp(r)
    && (d.scope != Unspecified ==>
          && d.baseHash == HashRows(crc, Restrict(t, BASE_ONLY))
          && d.baseCount == |Restrict(t, BASE_ONLY)|)
  }

  lemma BuiltDigestDescribes(crc: Crc, t: seq<Entry>, kind: ScopeKind, me: u32)
    requires kind != BaseKind
    ensures Describes(crc, BuildDigest(crc, t, MyScope(kind, me)), t, me)
    ensures ScopeFromWire(BuildDigest(crc, t, MyScope(kind, me)).scope, me) == MyScope(kind, me)
  {
  }

  /** Nodes that agree on everything both claim never report a mismatch. */
  lemma AgreementNeverMismatches(crc: Crc, mineT: seq<Entry>, peerT: seq<Entry>,
                                 mine: Scope, from: u32, d: ClusterDigest)
    requires Sorted(mineT) && Sorted(peerT) && Describes(crc, d, peerT, from)
    requires AgreeOn(mineT, peerT, Intersect(mine, ScopeFromWire(d.scope, from)))
    ensures CompareDigest(crc, mineT, mine, from, d) != Mismatch
    ensures CompareDigest(crc, mineT, mine, from, d) == Incomparable
            <==> d.scope == Unspecified && mine.kind != FullKind
  {
    var peer := ScopeFromWire(d.scope, from);
    var over := ComparedScope(mine, peer);
    assert forall k :: Contains(over, k) ==> Contains(Intersect(mine, peer), k);
    AgreementIsEqualRows(mineT, peerT, over);
    LegsSeeOnlyVersions(crc, Restrict(mineT, over), Restrict(peerT, over));
  }

  /** Up to a hash collision, a match means equal versions over the compared scope. */
  lemma MatchMeansAgreement(crc: Crc, mineT: seq<Entry>, peerT: seq<Entry>,
                            mine: Scope, from: u32, d: ClusterDigest)
    requires Sorted(mineT) && Sorted(peerT) && Describes(crc, d, peerT, from)
    requires CompareDigest(crc, mineT, mine, from, d) == Match
    ensures var over := ComparedScope(mine, ScopeFromWire(d.scope, from));
            AgreeOn(mineT, peerT, over) || Collide(crc, Restrict(mineT, over), Restrict(peerT, over))
  {
    var over := ComparedScope(mine, ScopeFromWire(d.scope, from));
    if Rows(Restrict(mineT, over)) == Rows(Restrict(peerT, over)) {
      EqualRowBytesAreEqualVersions(Restrict(mineT, over), Restrict(peerT, over));
      AgreementIsEqualRows(mineT, peerT, over);
    }
  }

  /** And the collision has to be one between equally many rows, and, where the sender's whole claim is
      compared, with the same newest stamp. */
  lemma MatchComparesEveryLeg(crc: Crc, mineT: seq<Entry>, peerT: seq<Entry>, mine: Scope, from: u32, d: ClusterDigest)
    requires Describes(crc, d, peerT, from) && CompareDigest(crc, mineT, mine, from, d) == Match
    ensures var peer := ScopeFromWire(d.scope, from);
            var over := ComparedScope(mine, peer);
            && |Restrict(mineT, over)| == |Restrict(peerT, over)|
            && (Intersect(mine, peer) == peer ==> MaxStamp(Restrict(mineT, over)) == MaxStamp(Restrict(peerT, over)))
  {
    hide Restrict, HashRows, MaxStamp, Intersect, ScopeFromWire;
  }

  /** A narrowed receiver shares no leg with a sender that predates scopes. */
  predicate Comparable(mine: Scope, d: ClusterDigest) { d.scope != Unspecified || mine.kind == FullKind }

  /** The whole law of the comparison: short of a collision it matches exactly on agreement over
      the compared scope. */
  lemma ComparisonIsExact(crc: Crc, mineT: seq<Entry>, peerT: seq<Entry>, mine: Scope, from: u32, d: ClusterDigest)
    requires Sorted(mineT) && Sorted(peerT) && Describes(crc, d, peerT, from)
    requires var over := ComparedScope(mine, ScopeFromWire(d.scope, from));
             !Collide(crc, Restrict(mineT, over), Restrict(peerT, over))
    ensures var over := ComparedScope(mine, ScopeFromWire(d.scope, from));
            CompareDigest(crc, mineT, mine, from, d)
            == if !Comparable(mine, d) then Incomparable else if AgreeOn(mineT, peerT, over) then Match else Mismatch
  {
    hide Collide, AgreeOn, Sorted;
    var over := ComparedScope(mine, ScopeFromWire(d.scope, from));
    if AgreeOn(mineT, peerT, over) {
      AgreementIsEqualRows(mineT, peerT, over);
      LegsSeeOnlyVersions(crc, Restrict(mineT, over), Restrict(peerT, over));
    } else if CompareDigest(crc, mineT, mine, from, d) == Match {
      MatchMeansAgreement(crc, mineT, peerT, mine, from, d);
    }
  }
}
