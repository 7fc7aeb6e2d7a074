/** The channel table: eight slots, exactly one of them PRIMARY after every edit, and the key and
    hash that transmission takes from it. */
module Channels {
  import opened Bytes

  const MAX_CHANNELS := 8
  const PSK_MAX := 32
  const NAME_MAX := 11
  const DEFAULT_PSK: seq<bv8> :=
    [0xd4, 0xf1, 0xbb, 0x3a, 0x20, 0x29, 0x07, 0x59, 0xf0, 0xbc, 0xff, 0xab, 0xcf, 0x4e, 0x69, 0x01]
  /** The name "Default". */
  const DEFAULT_NAME: seq<bv8> := [0x44, 0x65, 0x66, 0x61, 0x75, 0x6c, 0x74]

  type Psk = s: seq<bv8> | |s| <= PSK_MAX

  datatype Role = Disabled | Primary | Secondary
  datatype Channel = Channel(index: nat, role: Role, hasSettings: bool, name: seq<bv8>, psk: Psk)
  datatype KeyResult = Key(bytes: seq<bv8>) | Inval | NoEnt

  // ----- keys ----------------------------------------------------------------------------------------

  function Padding(n: nat): (s: seq<bv8>)
    ensures |s| == n
  {
    seq(n, i => 0)
  }

  /** A channel's own key material, expanded to a cipher key. */
  function ExpandPsk(psk: Psk): (key: seq<bv8>) {
    if |psk| == 0 then []
    else if |psk| == 1 then
      if psk[0] == 0 then [] else DEFAULT_PSK[..15] + [DEFAULT_PSK[15] + (psk[0] - 1)]
    else if |psk| < 16 then psk + Padding(16 - |psk|)
    else if |psk| == 16 then psk
    else psk + Padding(32 - |psk|)
  }

  /** Key resolution: a secondary without a key borrows the primary's. */
  function KeyOf(slots: seq<Channel>, primary: nat, i: nat): (key: KeyResult)
    requires |slots| == MAX_CHANNELS && primary < MAX_CHANNELS
    decreases if i == primary then 0 else 1
  {
    if i >= MAX_CHANNELS then Inval
    else if !slots[i].hasSettings || slots[i].role == Disabled then NoEnt
    else if |slots[i].psk| == 0 && slots[i].role == Secondary && i != primary then KeyOf(slots, primary, primary)
    else Key(ExpandPsk(slots[i].psk))
  }

  /** For every table, even one whose primary slot is itself a secondary, resolution ends with
      no cipher, AES-128 or AES-256, and the key is the configured material up to zero padding. */
  lemma KeyIsUsable(slots: seq<Channel>, primary: nat, i: nat)
    requires |slots| == MAX_CHANNELS && primary < MAX_CHANNELS && KeyOf(slots, primary, i).Key?
    ensures |KeyOf(slots, primary, i).bytes| in {0, 16, 32}
    ensures |slots[i].psk| >= 2 ==> |KeyOf(slots, primary, i).bytes| == if |slots[i].psk| <= 16 then 16 else 32
    ensures |slots[i].psk| >= 2 ==>
              var key := KeyOf(slots, primary, i).bytes;
              slots[i].psk <= key && forall j :: |slots[i].psk| <= j < |key| ==> key[j] == 0
    ensures slots[i].role == Secondary && slots[i].psk == [] && i != primary ==>
              KeyOf(slots, primary, i) == KeyOf(slots, primary, primary)
  {
  }

  /** A key resolves exactly for a slot in use, unless it borrows from a primary that is not. */
  lemma KeyResolvesExactly(slots: seq<Channel>, primary: nat, i: nat)
    requires |slots| == MAX_CHANNELS && primary < MAX_CHANNELS
    ensures KeyOf(slots, primary, i).Inval? <==> i >= MAX_CHANNELS
    ensures i < MAX_CHANNELS ==>
              (KeyOf(slots, primary, i).Key?
               <==> && slots[i].hasSettings && slots[i].role != Disabled
                    && (slots[i].psk == [] && slots[i].role == Secondary && i != primary ==>
                          slots[primary].hasSettings && slots[primary].role != Disabled))
  {
  }

  lemma LastByte(k: bv8, n: bv8, m: bv8)
    ensures k + (1 - 1) == k && (k + (n - 1)) - (k + (m - 1)) == n - m
  {
  }

  /** The one-byte keys: none for 0 and the well-known key for 1; the others differ from it in the
      last byte alone, by as much as the index differs from 1. */
  lemma ShortKeys(n: bv8)
    ensures ExpandPsk([0]) == [] && ExpandPsk([1]) == DEFAULT_PSK
    ensures n != 0 ==> |ExpandPsk([n])| == 16 && ExpandPsk([n])[..15] == DEFAULT_PSK[..15]
    ensures n != 0 ==> ExpandPsk([n])[15] - DEFAULT_PSK[15] == n - 1
  {
    var k := DEFAULT_PSK[15];
    LastByte(k, 1, 1);
    LastByte(k, n, 1);
    assert ExpandPsk([1]) == DEFAULT_PSK[..15] + [k];
    assert DEFAULT_PSK == DEFAULT_PSK[..15] + [k];
  }

  lemma ShortKeyEnd(n: bv8)
    requires n != 0
    ensures |ExpandPsk([n])| == 16 && ExpandPsk([n])[15] + 1 == n + DEFAULT_PSK[15]
  {
  }

  /** Different indices are different keys. */
  lemma ShortKeysDiffer(n: bv8, m: bv8)
    requires n != 0 && m != 0 && n != m
    ensures ExpandPsk([n]) != ExpandPsk([m])
  {
    hide ExpandPsk;
    ShortKeyEnd(n);
    ShortKeyEnd(m);
  }

  function XorHash(bs: seq<bv8>): (h: bv8) {
    if |bs| == 0 then 0 else XorHash(bs[..|bs| - 1]) ^ bs[|bs| - 1]
  }

  /** An unnamed channel goes by the active preset's display name. */
  function NameOf(ch: Channel, preset: seq<bv8>): (name: seq<bv8>) {
    if !ch.hasSettings || |ch.name| == 0 then preset else ch.name
  }

  /** A fresh computation of a slot's hash. */
  function HashOf(slots: seq<Channel>, primary: nat, i: nat, preset: seq<bv8>): (h: bv8)
    requires |slots| == MAX_CHANNELS && primary < MAX_CHANNELS && i < MAX_CHANNELS
  {
    match KeyOf(slots, primary, i)
    case Key(bytes) => XorHash(NameOf(slots[i], preset)) ^ XorHash(bytes)
    case _ => 0
  }

  lemma {:induction false} XorAppend(a: seq<bv8>, b: seq<bv8>)
    ensures XorHash(a + b) == XorHash(a) ^ XorHash(b)
  {
    if |b| == 0 {
      assert a + b == a;
    } else {
      XorAppend(a, b[..|b| - 1]);
      assert (a + b)[..|a + b| - 1] == a + b[..|b| - 1];
    }
  }

  lemma XorSingle(x: bv8)
    ensures XorHash([]) == 0 && XorHash([x]) == x
  {
    assert [x][..0] == [];
  }

  /** Any change of one byte changes the hash. */
  lemma XorSeesEveryByte(bs: seq<bv8>, i: nat, x: bv8)
    requires i < |bs| && x != bs[i]
    ensures XorHash(bs[i := x]) != XorHash(bs)
  {
    var a, b := bs[..i], bs[i + 1..];
    assert bs == a + ([bs[i]] + b) && bs[i := x] == a + ([x] + b);
    XorAppend(a, [bs[i]] + b);
    XorAppend([bs[i]], b);
    XorAppend(a, [x] + b);
    XorAppend([x], b);
    XorSingle(bs[i]);
    XorSingle(x);
    XorCancels(XorHash(a), bs[i], x, XorHash(b));
  }

  lemma XorCancels(p: bv8, x: bv8, y: bv8, q: bv8)
    requires x != y
    ensures p ^ (x ^ q) != p ^ (y ^ q)
  {
  }

  /** The channel hash is the XOR of all bytes of the resolved name and of the resolved key, and 0
      for a slot without one. */
  lemma HashIsOfNameAndKey(slots: seq<Channel>, primary: nat, i: nat, preset: seq<bv8>)
    requires |slots| == MAX_CHANNELS && primary < MAX_CHANNELS && i < MAX_CHANNELS
    ensures HashOf(slots, primary, i, preset)
            == match KeyOf(slots, primary, i)
               case Key(bytes) =>
                 XorHash((if slots[i].hasSettings && slots[i].name != [] then slots[i].name else preset) + bytes)
               case _ => 0
  {
    hide KeyOf, XorHash;
    match KeyOf(slots, primary, i)
    case Key(bytes) => XorAppend(NameOf(slots[i], preset), bytes);
    case _ =>
  }

  lemma NamingKeepsKeys(slots: seq<Channel>, primary: nat, i: nat, name: seq<bv8>)
    requires |slots| == MAX_CHANNELS && primary < MAX_CHANNELS && i < MAX_CHANNELS
    ensures KeyOf(slots[i := slots[i].(name := name)], primary, primary) == KeyOf(slots, primary, primary)
    ensures KeyOf(slots[i := slots[i].(name := name)], primary, i) == KeyOf(slots, primary, i)
  {
    hide ExpandPsk;
  }

  /** The default primary is on the air with the well-known key, under the name of the preset. */
  lemma DefaultIsWellKnown(slots: seq<Channel>, primary: nat, i: nat, preset: seq<bv8>)
    requires |slots| == MAX_CHANNELS && primary < MAX_CHANNELS && i < MAX_CHANNELS && slots[i] == DefaultPrimary(i)
    ensures KeyOf(slots, primary, i) == Key(DEFAULT_PSK)
    ensures HashOf(slots, primary, i, preset) == XorHash(preset + DEFAULT_PSK)
  {
    ShortKeys(1);
    HashIsOfNameAndKey(slots, primary, i, preset);
    hide ExpandPsk, XorHash;
  }

  /** An unnamed channel is the channel named after the preset, whatever the preset is then; a named
      one does not depend on the preset. */
  lemma UnnamedFollowsThePreset(slots: seq<Channel>, primary: nat, i: nat, preset: seq<bv8>, other: seq<bv8>)
    requires |slots| == MAX_CHANNELS && primary < MAX_CHANNELS && i < MAX_CHANNELS && slots[i].hasSettings
    ensures slots[i].name == [] && preset != [] ==>
              HashOf(slots, primary, i, preset) == HashOf(slots[i := slots[i].(name := preset)], primary, i, other)
    ensures slots[i].name != [] ==> HashOf(slots, primary, i, preset) == HashOf(slots, primary, i, other)
  {
    NamingKeepsKeys(slots, primary, i, preset);
    hide XorHash, ExpandPsk, KeyOf;
  }

  /** What a PRIMARY slot resolves to depends on nothing but that slot. */
  lemma PrimaryStandsAlone(a: seq<Channel>, p: nat, b: seq<Channel>, q: nat, i: nat, preset: seq<bv8>)
    requires |a| == MAX_CHANNELS && |b| == MAX_CHANNELS && p < MAX_CHANNELS && q < MAX_CHANNELS && i < MAX_CHANNELS
    requires a[i] == b[i] && a[i].role == Primary
    ensures KeyOf(a, p, i) == KeyOf(b, q, i) && HashOf(a, p, i, preset) == HashOf(b, q, i, preset)
  {
  }

  // ----- one edit --------------------------------------------------------------------------------------

  /** A slot as the table keeps it. */
  function Fixed(ch: Channel, i: nat): (fixed: Channel)
    ensures Kept(fixed, i)
  {
    if !ch.hasSettings then Channel(i, Disabled, true, [], [])
    else ch.(index := i, name := if ch.name == DEFAULT_NAME then [] else ch.name)
  }

  predicate Kept(ch: Channel, i: nat) { ch.hasSettings && ch.index == i && ch.name != DEFAULT_NAME }

  function DefaultPrimary(i: nat): (ch: Channel) { Channel(i, Primary, true, [], [1]) }

  function Demoted(slots: seq<Channel>, index: nat): (after: seq<Channel>)
    ensures |after| == |slots|
  {
    seq(|slots|, i requires 0 <= i < |slots| =>
      if i != index && slots[i].role == Primary then Fixed(slots[i].(role := Secondary), i) else slots[i])
  }

  /** The last PRIMARY among the first n slots. */
  function LastPrimary(slots: seq<Channel>, n: nat): (p: Option<nat>)
    requires n <= |slots|
    ensures p.Some? ==> p.value < n && slots[p.value].role == Primary
    ensures p.None? ==> forall i :: 0 <= i < n ==> slots[i].role != Primary
  {
    if n == 0 then None else if slots[n - 1].role == Primary then Some(n - 1) else LastPrimary(slots, n - 1)
  }

  function Enforced(slots: seq<Channel>, primary: nat): (after: (seq<Channel>, nat))
    requires |slots| == MAX_CHANNELS && primary < MAX_CHANNELS
    ensures |after.0| == MAX_CHANNELS && after.1 < MAX_CHANNELS
  {
    match LastPrimary(slots, MAX_CHANNELS)
    case Some(p) => (slots, p)
    case None =>
      if slots[primary].role == Secondary
      then (slots[primary := Fixed(slots[primary].(role := Primary), primary)], primary)
      else (slots[0 := DefaultPrimary(0)], 0)
  }

  function Edited(slots: seq<Channel>, primary: nat, index: nat, ch: Channel): (after: (seq<Channel>, nat))
    requires |slots| == MAX_CHANNELS && primary < MAX_CHANNELS && index < MAX_CHANNELS
    ensures |after.0| == MAX_CHANNELS && after.1 < MAX_CHANNELS
  {
    var placed := slots[index := ch.(index := index)];
    if ch.role == Primary
    then Enforced(Demoted(placed, index)[index := Fixed(ch, index)], index)
    else Enforced(placed[index := Fixed(ch, index)], primary)
  }

  /** Exactly one slot is PRIMARY, the primary index names it, and every slot is well kept. */
  ghost predicate Sound(slots: seq<Channel>, primary: nat) {
    && |slots| == MAX_CHANNELS && primary < MAX_CHANNELS
    && (forall i :: 0 <= i < MAX_CHANNELS ==> Kept(slots[i], i))
    && (forall i :: 0 <= i < MAX_CHANNELS ==> (slots[i].role == Primary <==> i == primary))
  }

  lemma EditKeepsOnePrimary(slots: seq<Channel>, primary: nat, index: nat, ch: Channel)
    requires Sound(slots, primary) && index < MAX_CHANNELS
    ensures var (s, p) := Edited(slots, primary, index, ch); Sound(s, p)
  {
    var placed := slots[index := ch.(index := index)];
    var s := (if ch.role == Primary then Demoted(placed, index) else placed)[index := Fixed(ch, index)];
    assert forall i :: 0 <= i < MAX_CHANNELS ==> Kept(s[i], i);
    assert forall i :: 0 <= i < MAX_CHANNELS && s[i].role == Primary ==>
        i == if ch.role == Primary then index else primary;
  }

  /** Where an edit leaves the primary: at a new PRIMARY that has settings; where it was, unless
      the edit was to that very slot and took it out of use, or was a PRIMARY without settings. */
  lemma WhereThePrimaryGoes(slots: seq<Channel>, primary: nat, index: nat, ch: Channel)
    requires Sound(slots, primary) && index < MAX_CHANNELS
    ensures var (s, p) := Edited(slots, primary, index, ch);
            if ch.role == Primary then
              if ch.hasSettings then p == index && s[p] == Fixed(ch, index)
              else p == 0 && s[p] == DefaultPrimary(0)
            else if index != primary then p == primary && s[p] == slots[p]
            else if ch.role == Secondary && ch.hasSettings then p == primary && s[p] == Fixed(ch.(role := Primary), p)
            else p == 0 && s[p] == DefaultPrimary(0)
  {
    EditKeepsOnePrimary(slots, primary, index, ch);
  }

  /** What an edit stores: the channel's own key and role, its name unless that is the word for
      unnamed; a channel without settings is stored as an unused slot. */
  lemma EditStoresTheChannel(slots: seq<Channel>, primary: nat, index: nat, ch: Channel)
    requires Sound(slots, primary) && index < MAX_CHANNELS
    ensures var (s, p) := Edited(slots, primary, index, ch);
            || (p == 0 == index && s[0] == DefaultPrimary(0) && (!ch.hasSettings || ch.role == Disabled))
            || (ch.hasSettings && s[index].psk == ch.psk && s[index].name == (if ch.name == DEFAULT_NAME then [] else ch.name)
                && (s[index].role == ch.role || (index == primary == p && ch.role == Secondary && s[index].role == Primary)))
            || (!ch.hasSettings && s[index] == Channel(index, Disabled, true, [], []))
  {
  }

  /** An edit leaves every other slot as it was, apart from taking the PRIMARY role off it, and
      apart from slot 0 when the default has to be restored there. */
  lemma EditLeavesOthers(slots: seq<Channel>, primary: nat, index: nat, ch: Channel, i: nat)
    requires Sound(slots, primary) && index < MAX_CHANNELS && i < MAX_CHANNELS && i != index
    ensures var (s, p) := Edited(slots, primary, index, ch);
            || s[i] == slots[i]
            || (i == primary && ch.role == Primary && s[i] == slots[i].(role := Secondary))
            || (i == 0 == p && s[i] == DefaultPrimary(0) && !ch.hasSettings)
            || (i == 0 == p && s[i] == DefaultPrimary(0) && index == primary && ch.role == Disabled)
  {
  }

  datatype Edit = Edit(index: nat, channel: Channel)

  /** The table after a whole run of edits; one that names no slot is refused. */
  function RunEdits(slots: seq<Channel>, primary: nat, edits: seq<Edit>): (after: (seq<Channel>, nat))
    requires |slots| == MAX_CHANNELS && primary < MAX_CHANNELS
    ensures |after.0| == MAX_CHANNELS && after.1 < MAX_CHANNELS
  {
    if |edits| == 0 then (slots, primary) else
      var (s, p) := RunEdits(slots, primary, edits[..|edits| - 1]);
      var e := edits[|edits| - 1];
      if e.index >= MAX_CHANNELS then (s, p) else Edited(s, p, e.index, e.channel)
  }

  lemma {:induction false} RunKeepsOnePrimary(slots: seq<Channel>, primary: nat, edits: seq<Edit>)
    requires Sound(slots, primary)
    ensures var (s, p) := RunEdits(slots, primary, edits); Sound(s, p)
  {
    hide Edited, Kept;
    if |edits| > 0 {
      var (s, p) := RunEdits(slots, primary, edits[..|edits| - 1]);
      var e := edits[|edits| - 1];
      RunKeepsOnePrimary(slots, primary, edits[..|edits| - 1]);
      if e.index < MAX_CHANNELS { EditKeepsOnePrimary(s, p, e.index, e.channel); }
    }
  }

  // ----- the table ---------------------------------------------------------------------------------------

  method ComputeXor(bs: seq<bv8>) returns (code: bv8)
    ensures code == XorHash(bs)
  {
    code := 0;
    for i := 0 to |bs|
      invariant code == XorHash(bs[..i])
    {
      assert bs[..i + 1][..i] == bs[..i];
      code := code ^ bs[i];
    }
    assert bs[..|bs|] == bs;
  }

  class Table {
    const slots: array<Channel>
    const hashes: array<bv8>
    var primary: nat
    var preset: seq<bv8>
    var cachedPsk: seq<bv8>
    var cachedHash: bv8
    var cachedName: seq<bv8>

    ghost predicate Shape()
      reads this
    {
      && slots.Length == MAX_CHANNELS && hashes.Length == MAX_CHANNELS && primary < MAX_CHANNELS
      && slots as object != hashes as object
    }

    /** The table is sound and its primary's hash is what a fresh computation gives. */
    ghost predicate Valid()
      reads this, slots, hashes
    {
      && Shape()
      && Sound(slots[..], primary)
      && hashes[primary] == HashOf(slots[..], primary, primary, preset)
    }

    /** What transmission uses is what a fresh resolution of the primary gives. */
    ghost predicate Cached()
      requires Shape()
      reads this, slots
    {
      && KeyOf(slots[..], primary, primary) == Key(cachedPsk)
      && cachedHash == HashOf(slots[..], primary, primary, preset)
      && cachedName == NameOf(slots[primary], preset)
    }

    constructor Defaults(preset: seq<bv8>)
      ensures Valid() && this.preset == preset && fresh(slots) && fresh(hashes)
      ensures primary == 0 && slots[0] == DefaultPrimary(0)
      ensures forall i :: 1 <= i < MAX_CHANNELS ==> slots[i] == Channel(i, Disabled, true, [], [])
    {
      slots := new Channel[MAX_CHANNELS](i => Channel(0, Disabled, false, [], []));
      hashes := new bv8[MAX_CHANNELS](i => 0);
      primary, this.preset := 0, preset;
      cachedPsk, cachedHash, cachedName := [], 0, [];
      new;
      SeedDefault(0);
      ghost var h := hashes[0];
      for i := 1 to MAX_CHANNELS
        invariant slots[0] == DefaultPrimary(0) && hashes[0] == h
        invariant forall k :: 1 <= k < i ==> slots[k] == Channel(k, Disabled, true, [], [])
        invariant primary == 0 && this.preset == preset
        invariant h == HashOf(slots[..], 0, 0, preset)
      {
        ghost var before := slots[..];
        slots[i] := Channel(0, Disabled, true, [], []);
        Fixup(i);
        PrimaryStandsAlone(before, 0, slots[..], 0, 0, preset);
      }
    }

    /** The application's name and key, taken into the default primary. */
    method TakeConfig(name: Option<seq<bv8>>, psk: Psk)
      requires Valid() && primary == 0 && slots[0] == DefaultPrimary(0) && |psk| in {16, 32}
      modifies this, slots, hashes
      ensures Valid() && Cached() && primary == 0 && preset == old(preset)
      ensures forall i :: 1 <= i < MAX_CHANNELS ==> slots[i] == old(slots[i])
      ensures slots[0].psk == if psk == DEFAULT_PSK then [1] else psk
    {
      hide XorHash;
      var ch := slots[0];
      if name.Some? { ch := ch.(name := name.value[..Min(|name.value|, NAME_MAX)]); }
      if |psk| != |DEFAULT_PSK| || psk != DEFAULT_PSK { ch := ch.(psk := psk); }
      slots[0] := ch;
      Fixup(0);
      cachedHash, cachedPsk, cachedName := hashes[0], psk, NameOf(slots[0], preset);
      assert DEFAULT_PSK[..15] + [DEFAULT_PSK[15] + (1 - 1)] == DEFAULT_PSK;
    }

    method Fixup(i: nat)
      requires Shape() && i < MAX_CHANNELS
      modifies slots, hashes
      ensures slots[..] == old(slots[..])[i := Fixed(old(slots[i]), i)]
      ensures hashes[..] == old(hashes[..])[i := HashOf(slots[..], primary, i, preset)]
    {
      hide HashOf;
      var ch := slots[i].(index := i);
      if !ch.hasSettings { ch := Channel(i, Disabled, true, [], []); }
      if ch.name == DEFAULT_NAME { ch := ch.(name := []); }
      slots[i] := ch;
      hashes[i] := GenerateHash(i);
      assert slots[..] == old(slots[..])[i := ch];
    }

    method GenerateHash(i: nat) returns (h: bv8)
      requires Shape() && i < MAX_CHANNELS
      ensures h == HashOf(slots[..], primary, i, preset)
    {
      var key := KeyOf(slots[..], primary, i);
      if !key.Key? { return 0; }
      h := ComputeXor(NameOf(slots[i], preset));
      var k := ComputeXor(key.bytes);
      h := h ^ k;
    }

    method SeedDefault(i: nat)
      requires Shape() && i < MAX_CHANNELS
      modifies slots, hashes
      ensures slots[..] == old(slots[..])[i := DefaultPrimary(i)]
      ensures hashes[..] == old(hashes[..])[i := HashOf(slots[..], primary, i, preset)]
    {
      slots[i] := DefaultPrimary(i);
      Fixup(i);
    }

    method DemoteOthers(index: nat)
      requires Shape() && index < MAX_CHANNELS
      modifies slots, hashes
      ensures slots[..] == Demoted(old(slots[..]), index)
    {
      for i := 0 to MAX_CHANNELS
        invariant forall k :: 0 <= k < i ==> slots[k] == Demoted(old(slots[..]), index)[k]
        invariant forall k :: i <= k < MAX_CHANNELS ==> slots[k] == old(slots[k])
      {
        if i != index && slots[i].role == Primary {
          slots[i] := slots[i].(role := Secondary);
          Fixup(i);
        }
      }
    }

    method Enforce()
      requires Shape()
      modifies `primary, slots, hashes
      ensures Shape() && (slots[..], primary) == Enforced(old(slots[..]), old(primary))
      ensures LastPrimary(old(slots[..]), MAX_CHANNELS).Some? ==>
                slots[..] == old(slots[..]) && hashes[..] == old(hashes[..])
      ensures LastPrimary(old(slots[..]), MAX_CHANNELS).None? ==>
                hashes[primary] == HashOf(slots[..], primary, primary, preset)
    {
      hide HashOf;
      var found := false;
      for i := 0 to MAX_CHANNELS
        invariant primary < MAX_CHANNELS && slots[..] == old(slots[..]) && hashes[..] == old(hashes[..])
        invariant found == LastPrimary(slots[..], i).Some?
        invariant primary == if found then LastPrimary(slots[..], i).value else old(primary)
      {
        if slots[i].role == Primary {
          primary := i;
          found := true;
        }
      }
      if !found {
        if slots[primary].role == Secondary {
          slots[primary] := slots[primary].(role := Primary);
          Fixup(primary);
          assert slots[..] == Enforced(old(slots[..]), old(primary)).0;
        } else {
          SeedDefault(0);
          PrimaryStandsAlone(slots[..], primary, slots[..], 0, 0, preset);
          primary := 0;
        }
      }
    }

    /** Any edit of any slot leaves a sound table, and the cache taken from it. */
    method SetSlot(index: nat, ch: Channel) returns (ok: bool)
      requires Valid()
      modifies this, slots, hashes
      ensures ok == (index < MAX_CHANNELS)
      ensures Valid() && preset == old(preset)
      ensures ok ==> Cached() && (slots[..], primary) == Edited(old(slots[..]), old(primary), index, ch)
      ensures !ok ==> slots[..] == old(slots[..]) && primary == old(primary) && (old(Cached()) ==> Cached())
    {
      hide HashOf, Enforced;
      ok := index < MAX_CHANNELS;
      if !ok { return; }
      ghost var was, wasPrimary := slots[..], primary;
      EditKeepsOnePrimary(was, wasPrimary, index, ch);
      slots[index] := ch.(index := index);
      if slots[index].role == Primary {
        primary := index;
        DemoteOthers(index);
      }
      Fixup(index);
      ghost var placed, p := slots[..], primary;
      assert placed == (if ch.role == Primary then Demoted(was[index := ch.(index := index)], index) else was)
        [index := Fixed(ch, index)];
      Enforce();
      if LastPrimary(placed, MAX_CHANNELS).Some? {
        PrimaryStandsAlone(placed, p, slots[..], primary, primary, preset);
        if primary != index { PrimaryStandsAlone(was, wasPrimary, slots[..], primary, primary, preset); }
      }
      RefreshCache();
    }

    /** The cached triple, off the (possibly relocated) primary. */
    method RefreshCache()
      requires Valid()
      modifies `cachedPsk, `cachedHash, `cachedName
      ensures Cached()
    {
      var key := KeyOf(slots[..], primary, primary);
      if key.Key? { cachedPsk := key.bytes; }
      cachedHash := hashes[primary];
      cachedName := NameOf(slots[primary], preset);
    }

    /** A preset switch re-derives every slot: afterwards every cached hash is fresh, those of
        secondaries that borrow the primary's key included. */
    method SwitchPreset(name: seq<bv8>)
      requires Valid()
      modifies this, slots, hashes
      ensures Valid() && Cached() && preset == name && primary == old(primary) && slots[..] == old(slots[..])
      ensures forall i :: 0 <= i < MAX_CHANNELS ==> hashes[i] == HashOf(slots[..], primary, i, preset)
    {
      hide HashOf;
      preset := name;
      for i := 0 to MAX_CHANNELS
        invariant slots[..] == old(slots[..]) && primary == old(primary) && preset == name
        invariant forall k :: 0 <= k < i ==> hashes[k] == HashOf(slots[..], primary, k, preset)
      {
        Fixup(i);
        assert Fixed(old(slots[i]), i) == old(slots[i]);
        assert slots[..] == old(slots[..]);
      }
      RefreshCache();
    }
  }
}
