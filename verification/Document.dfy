/** The cluster document: a sorted, bounded, last-writer-wins table of
    independently stamped entries, and the scopes a node may claim over it. */
module Document {
  import opened Bytes
  import opened Stamps

  const PAYLOAD_MAX := 128
  const LAYER_BASE: byte := 0
  const LAYER_NODE: byte := 1

  datatype Key = Key(layer: byte, node: u32, section: u16)

  /** `sig` is the author's signature carried with this version, if any. */
  datatype Entry = Entry(key: Key, stamp: Stamp, tombstone: bool, payload: seq<byte>,
                         sig: Option<seq<byte>>)

  const NO_ENTRY := Entry(Key(0, 0, 0), UNSET, false, [], None)

  datatype ScopeKind = BaseKind | CoreKind | FullKind
  datatype Scope = Scope(kind: ScopeKind, owner: u32)

  datatype Verdict = Stored | Stale | NoSpace | Invalid
  datatype Want = WantNo | WantYes | WantNoSpace

  function KeyCmp(a: Key, b: Key): (c: int)
    ensures c == 0 <==> a == b
  {
    if a.layer != b.layer then a.layer - b.layer
    else if a.node != b.node then (if a.node < b.node then -1 else 1)
    else a.section - b.section
  }

  /** A key as one number: base before every node, then by node, then by section. */
  function KeyRank(k: Key): (r: int) {
    k.layer * 0x1_0000_0000_0000 + k.node * 0x1_0000 + k.section
  }

  lemma KeyOrderIsNumeric(a: Key, b: Key)
    ensures KeyCmp(a, b) < 0 <==> KeyRank(a) < KeyRank(b)
  {
  }

  lemma KeyOrder(a: Key, b: Key, c: Key)
    ensures KeyCmp(a, b) < 0 <==> KeyCmp(b, a) > 0
    ensures KeyCmp(a, b) < 0 && KeyCmp(b, c) < 0 ==> KeyCmp(a, c) < 0
  {
  }

  predicate KeyIsValid(k: Key) {
    if k.layer == LAYER_BASE then k.node == 0
    else k.layer == LAYER_NODE && k.node != 0
  }

  // ----- scopes ---------------------------------------------------------------

  function ScopeMake(kind: ScopeKind, owner: u32): (s: Scope) {
    Scope(kind, if kind == CoreKind then owner else 0)
  }

  predicate Contains(s: Scope, k: Key) {
    s.kind == FullKind || k.layer == LAYER_BASE || (s.kind == CoreKind && k.node == s.owner)
  }

  function Intersect(a: Scope, b: Scope): (s: Scope)
    ensures forall k :: Contains(s, k) <==> Contains(a, k) && Contains(b, k)
  {
    if a.kind == FullKind then b
    else if b.kind == FullKind then a
    else if a.kind == CoreKind && b.kind == CoreKind && a.owner == b.owner then a
    else ScopeMake(BaseKind, 0)
  }

  // ----- the table as a value -------------------------------------------------

  predicate Sorted(t: seq<Entry>) {
    forall i, j :: 0 <= i < j < |t| ==> KeyCmp(t[i].key, t[j].key) < 0
  }

  /** Where `key` is, or where it would be inserted. */
  function Pos(t: seq<Entry>, key: Key): (i: nat)
    ensures i <= |t|
    ensures forall j :: 0 <= j < i ==> KeyCmp(key, t[j].key) > 0
    ensures i < |t| ==> KeyCmp(key, t[i].key) <= 0
  {
    if |t| == 0 || KeyCmp(key, t[0].key) <= 0 then 0 else 1 + Pos(t[1..], key)
  }

  predicate Holds(t: seq<Entry>, key: Key) {
    Pos(t, key) < |t| && t[Pos(t, key)].key == key
  }

  function Find(t: seq<Entry>, key: Key): (r: Option<Entry>)
    ensures r.Some? ==> r.value in t && r.value.key == key
  {
    if Holds(t, key) then Some(t[Pos(t, key)]) else None
  }

  /** A position with everything smaller before it and nothing smaller at it is `Pos`. */
  lemma PosUnique(t: seq<Entry>, key: Key, i: nat)
    requires i <= |t|
    requires forall j :: 0 <= j < i ==> KeyCmp(key, t[j].key) > 0
    requires i < |t| ==> KeyCmp(key, t[i].key) <= 0
    ensures Pos(t, key) == i
  {
  }

  /** In a sorted table lookup is exact: it finds the one entry carrying the key. */
  lemma FindMember(t: seq<Entry>, e: Entry)
    requires Sorted(t) && e in t
    ensures Find(t, e.key) == Some(e)
  {
    var i :| 0 <= i < |t| && t[i] == e;
    forall j | 0 <= j < i ensures KeyCmp(e.key, t[j].key) > 0 { KeyOrder(t[j].key, e.key, e.key); }
    PosUnique(t, e.key, i);
  }

  /** Sorted tables are canonical: lookup determines the whole sequence. */
  lemma {:induction false} LookupDeterminesTable(s: seq<Entry>, t: seq<Entry>)
    requires Sorted(s) && Sorted(t)
    requires forall k :: Find(s, k) == Find(t, k)
    ensures s == t
  {
    if |s| == 0 {
      if |t| > 0 {
        FindMember(t, t[0]);
        assert false;
      }
    } else {
      FindMember(s, s[0]);
      FindMember(t, t[0]);
      assert s[0] in t && t[0] in s;
      KeyOrder(s[0].key, t[0].key, s[0].key);
      assert s[0] == t[0];
      forall q ensures Find(s[1..], q) == Find(t[1..], q) {
        assert Find(s, q) == Find(t, q);
        TailFind(s, q);
        TailFind(t, q);
      }
      LookupDeterminesTable(s[1..], t[1..]);
      assert s == [s[0]] + s[1..] && t == [t[0]] + t[1..];
    }
  }

  lemma TailFind(t: seq<Entry>, k: Key)
    requires Sorted(t) && |t| > 0
    ensures Find(t[1..], k) == if k == t[0].key then None else Find(t, k)
  {
    if Find(t[1..], k).Some? {
      FindMember(t, Find(t[1..], k).value);
    }
    if Find(t, k).Some? && k != t[0].key {
      var i :| 0 <= i < |t| && t[i] == Find(t, k).value;
      assert t[1..][i - 1] == t[i];
      FindMember(t[1..], t[i]);
    }
  }

  /** What the document stores at all, whatever it already holds. */
  predicate Acceptable(e: Entry) {
    && |e.payload| <= PAYLOAD_MAX
    && (e.tombstone <==> |e.payload| == 0)
    && KeyIsValid(e.key)
    && !(e.key.layer == LAYER_BASE && e.tombstone)
    && e.stamp != UNSET
  }

  function AcceptVerdict(t: seq<Entry>, cap: nat, e: Entry): (v: Verdict) {
    if !Acceptable(e) then Invalid
    else match Find(t, e.key)
      case Some(mine) => if Newer(e.stamp, mine.stamp) then Stored else Stale
      case None => if |t| >= cap then NoSpace else Stored
  }

  function AcceptTable(t: seq<Entry>, cap: nat, e: Entry): (t': seq<Entry>) {
    var i := Pos(t, e.key);
    if AcceptVerdict(t, cap, e) != Stored then t
    else if Holds(t, e.key) then t[i := e]
    else t[..i] + [e] + t[i..]
  }

  lemma RefusedIsUnchanged(t: seq<Entry>, cap: nat, e: Entry)
    ensures AcceptVerdict(t, cap, e) != Stored ==> AcceptTable(t, cap, e) == t
  {
  }

  /** The one merge rule, as lookup sees it: a stored entry replaces exactly its own
      key, everything else stands, and the table stays sorted and bounded. */
  lemma AcceptIsUpdate(t: seq<Entry>, cap: nat, e: Entry, k: Key)
    requires Sorted(t)
    ensures Sorted(AcceptTable(t, cap, e))
    ensures Find(AcceptTable(t, cap, e), k)
            == if AcceptVerdict(t, cap, e) == Stored && k == e.key then Some(e) else Find(t, k)
    ensures |AcceptTable(t, cap, e)|
            == if AcceptVerdict(t, cap, e) == Stored && !Holds(t, e.key) then |t| + 1 else |t|
    ensures |t| <= cap ==> |AcceptTable(t, cap, e)| <= cap
  {
    if AcceptVerdict(t, cap, e) == Stored {
      StoreKeepsSorted(t, e);
      if Holds(t, e.key) { ReplaceFind(t, e, k); } else { InsertFind(t, e, k); }
    }
  }

  lemma ReplaceFind(t: seq<Entry>, e: Entry, k: Key)
    requires Sorted(t) && Holds(t, e.key)
    requires Sorted(t[Pos(t, e.key) := e])
    ensures Find(t[Pos(t, e.key) := e], k) == if k == e.key then Some(e) else Find(t, k)
  {
    var i := Pos(t, e.key);
    var t' := t[i := e];
    assert t'[i] == e;
    FindMember(t', e);
    if Find(t, k).Some? && k != e.key {
      var n :| 0 <= n < |t| && t[n] == Find(t, k).value;
      assert t'[n] == t[n];
      FindMember(t', t[n]);
    }
    if Find(t', k).Some? && k != e.key {
      var n :| 0 <= n < |t'| && t'[n] == Find(t', k).value;
      assert t'[n] == t[n];
      FindMember(t, t[n]);
    }
  }

  lemma InsertFind(t: seq<Entry>, e: Entry, k: Key)
    requires Sorted(t) && !Holds(t, e.key)
    requires Sorted(t[..Pos(t, e.key)] + [e] + t[Pos(t, e.key)..])
    ensures Find(t[..Pos(t, e.key)] + [e] + t[Pos(t, e.key)..], k)
            == if k == e.key then Some(e) else Find(t, k)
  {
    var i := Pos(t, e.key);
    var t' := t[..i] + [e] + t[i..];
    assert t == t[..i] + t[i..];
    FindMember(t', e);
    if Find(t, k).Some? { FindMember(t', Find(t, k).value); }
    if Find(t', k).Some? && k != e.key { FindMember(t, Find(t', k).value); }
  }

  lemma InsertKeepsSorted(t: seq<Entry>, e: Entry, i: nat)
    requires Sorted(t) && i <= |t|
    requires forall j :: 0 <= j < i ==> KeyCmp(t[j].key, e.key) < 0
    requires forall j :: i <= j < |t| ==> KeyCmp(e.key, t[j].key) < 0
    ensures Sorted(t[..i] + [e] + t[i..])
  {
    hide KeyCmp;
    var t' := t[..i] + [e] + t[i..];
    assert forall j :: 0 <= j < i ==> t'[j] == t[j];
    assert t'[i] == e;
    assert forall j :: i < j < |t'| ==> t'[j] == t[j - 1];
  }

  lemma ReplaceKeepsSorted(t: seq<Entry>, e: Entry, i: nat)
    requires Sorted(t) && i < |t| && t[i].key == e.key
    ensures Sorted(t[i := e])
  {
    hide KeyCmp;
  }

  lemma StoreKeepsSorted(t: seq<Entry>, e: Entry)
    requires Sorted(t)
    ensures Holds(t, e.key) ==> Sorted(t[Pos(t, e.key) := e])
    ensures !Holds(t, e.key) ==> Sorted(t[..Pos(t, e.key)] + [e] + t[Pos(t, e.key)..])
  {
    hide KeyCmp;
    var i := Pos(t, e.key);
    if Holds(t, e.key) {
      ReplaceKeepsSorted(t, e, i);
    } else {
      forall j | 0 <= j < i ensures KeyCmp(t[j].key, e.key) < 0 { KeyOrder(t[j].key, e.key, e.key); }
      forall j | i <= j < |t| ensures KeyCmp(e.key, t[j].key) < 0 {
        KeyOrder(e.key, t[i].key, t[j].key);
      }
      InsertKeepsSorted(t, e, i);
    }
  }

  /** The anti-entropy diff: does a peer's (key, stamp) row describe a version to fetch? */
  function WantRow(t: seq<Entry>, cap: nat, mine: Scope, key: Key, stamp: Stamp): (w: Want) {
    if !KeyIsValid(key) || stamp == UNSET || !Contains(mine, key) then WantNo
    else match Find(t, key)
      case Some(e) => if Newer(stamp, e.stamp) then WantYes else WantNo
      case None => if |t| < cap then WantYes else WantNoSpace
  }

  /** `want` and `accept` never disagree: an in-scope entry is asked for exactly when
      offering it would store it, and reported as overflow exactly when it would not fit. */
  lemma WantMatchesAccept(t: seq<Entry>, cap: nat, mine: Scope, e: Entry)
    requires Acceptable(e)
    ensures WantRow(t, cap, mine, e.key, e.stamp) == WantYes
            <==> Contains(mine, e.key) && AcceptVerdict(t, cap, e) == Stored
    ensures WantRow(t, cap, mine, e.key, e.stamp) == WantNoSpace
            <==> Contains(mine, e.key) && AcceptVerdict(t, cap, e) == NoSpace
  {
  }

  // ----- restriction to a scope -------------------------------------------------

  function Restrict(t: seq<Entry>, s: Scope): (r: seq<Entry>) {
    if |t| == 0 then []
    else Restrict(t[..|t| - 1], s) + if Contains(s, t[|t| - 1].key) then [t[|t| - 1]] else []
  }

  lemma {:induction false} RestrictMember(t: seq<Entry>, s: Scope, e: Entry)
    ensures e in Restrict(t, s) <==> e in t && Contains(s, e.key)
  {
    if |t| > 0 {
      RestrictMember(t[..|t| - 1], s, e);
      assert t == t[..|t| - 1] + [t[|t| - 1]];
    }
  }

  lemma {:induction false} RestrictIsShorter(t: seq<Entry>, s: Scope)
    ensures |Restrict(t, s)| <= |t|
  {
    if |t| > 0 { RestrictIsShorter(t[..|t| - 1], s); }
  }

  lemma {:induction false} RestrictSorted(t: seq<Entry>, s: Scope)
    requires Sorted(t)
    ensures Sorted(Restrict(t, s))
  {
    if |t| > 0 {
      var init, last := t[..|t| - 1], t[|t| - 1];
      RestrictSorted(init, s);
      forall e | e in Restrict(init, s) ensures KeyCmp(e.key, last.key) < 0 {
        RestrictMember(init, s, e);
        var i :| 0 <= i < |init| && init[i] == e;
        assert t[i] == e;
      }
    }
  }

  /** Narrowing keeps exactly the in-scope lookups. */
  lemma RestrictFind(t: seq<Entry>, s: Scope, k: Key)
    requires Sorted(t)
    ensures Sorted(Restrict(t, s))
    ensures Find(Restrict(t, s), k) == if Contains(s, k) then Find(t, k) else None
  {
    RestrictSorted(t, s);
    if Find(t, k).Some? && Contains(s, k) {
      RestrictMember(t, s, Find(t, k).value);
      FindMember(Restrict(t, s), Find(t, k).value);
    }
    if Find(Restrict(t, s), k).Some? {
      RestrictMember(t, s, Find(Restrict(t, s), k).value);
      FindMember(t, Find(Restrict(t, s), k).value);
    }
  }

  predicate Within(t: seq<Entry>, s: Scope) {
    forall e :: e in t ==> Contains(s, e.key)
  }

  lemma {:induction false} RestrictIdentity(t: seq<Entry>, s: Scope)
    requires Within(t, s)
    ensures Restrict(t, s) == t
  {
    hide Contains;
    if |t| > 0 {
      var init, last := t[..|t| - 1], t[|t| - 1];
      assert t == init + [last];
      RestrictIdentity(init, s);
    }
  }

  // ----- what a node runs -----------------------------------------------------

  function NodeKey(node: u32, section: u16): Key { Key(LAYER_NODE, node, section) }
  function BaseKey(section: u16): Key { Key(LAYER_BASE, 0, section) }

  /** The node's own live entry, else the live base entry. */
  function Effective(t: seq<Entry>, node: u32, section: u16): (r: Option<Entry>) {
    var pin := Find(t, NodeKey(node, section));
    var base := Find(t, BaseKey(section));
    if pin.Some? && !pin.value.tombstone then pin
    else if base.Some? && !base.value.tombstone then base
    else None
  }

  /** The newest stamp across both layers, or none. */
  function EffectiveVersion(t: seq<Entry>, node: u32, section: u16): (r: Option<Stamp>) {
    var pin := Find(t, NodeKey(node, section));
    var base := Find(t, BaseKey(section));
    var out := if pin.Some? then pin.value.stamp else UNSET;
    if base.Some? && Newer(base.value.stamp, out) then Some(base.value.stamp)
    else if pin.Some? then Some(out)
    else None
  }

  /** CORE(me) is the closure of effective(me, .): narrowing to it cannot change
      what this node runs, nor the version it runs it under. */
  lemma NarrowingIsHarmless(t: seq<Entry>, me: u32, section: u16)
    requires Sorted(t)
    ensures Effective(Restrict(t, ScopeMake(CoreKind, me)), me, section)
            == Effective(t, me, section)
    ensures EffectiveVersion(Restrict(t, ScopeMake(CoreKind, me)), me, section)
            == EffectiveVersion(t, me, section)
  {
    RestrictFind(t, ScopeMake(CoreKind, me), NodeKey(me, section));
    RestrictFind(t, ScopeMake(CoreKind, me), BaseKey(section));
  }

  /** Unpinning reverts: a tombstone newer than the pin makes the base the answer and
      strictly advances the version past the one the pin was applied under. */
  lemma UnpinReverts(t: seq<Entry>, cap: nat, me: u32, section: u16, tomb: Entry)
    requires Sorted(t) && Acceptable(tomb) && tomb.tombstone
    requires tomb.key == NodeKey(me, section)
    requires Find(t, tomb.key).Some?
    requires EffectiveVersion(t, me, section).Some?
    requires Newer(tomb.stamp, EffectiveVersion(t, me, section).value)
    ensures var t' := AcceptTable(t, cap, tomb);
            && Effective(t', me, section)
               == (var b := Find(t, BaseKey(section));
                   if b.Some? && !b.value.tombstone then b else None)
            && EffectiveVersion(t', me, section) == Some(tomb.stamp)
  {
    var pin := Find(t, tomb.key).value;
    var version := EffectiveVersion(t, me, section).value;
    if version != pin.stamp { NewerTransitive(tomb.stamp, version, pin.stamp); }
    AcceptIsUpdate(t, cap, tomb, tomb.key);
    AcceptIsUpdate(t, cap, tomb, BaseKey(section));
    var base := Find(t, BaseKey(section));
    if base.Some? {
      NewerIsTotal(base.value.stamp, pin.stamp);
      assert !Newer(base.value.stamp, version);
      assert !Newer(base.value.stamp, tomb.stamp);
    }
  }
}
