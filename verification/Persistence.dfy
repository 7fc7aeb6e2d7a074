/** Persisting the document: one settings record per entry, named after its key, read
    back in whatever order storage hands them out. */
module Persistence {
  import opened Bytes
  import opened Stamps
  import opened Document
  import opened Digest
  import opened Merge
  import opened Sync
  import opened Protocol
  import opened Invariants

  const U32_MAX := 0xFFFF_FFFF

  // ----- names --------------------------------------------------------------------------

  function Digit(n: nat): (c: char)
    requires n < 16
    ensures Nibble(c) == Some(n)
  {
    if n < 10 then '0' + n as char else 'a' + (n - 10) as char
  }

  function Nibble(c: char): (n: Option<nat>)
    ensures n.Some? ==> n.value < 16
  {
    if '0' <= c <= '9' then Some((c - '0') as nat)
    else if 'a' <= c <= 'f' then Some((c - 'a') as nat + 10)
    else if 'A' <= c <= 'F' then Some((c - 'A') as nat + 10)
    else None
  }

  predicate IsHex(c: char) { Nibble(c).Some? }
  predicate IsDec(c: char) { '0' <= c <= '9' }
  predicate AllHex(s: string) { forall i :: 0 <= i < |s| ==> IsHex(s[i]) }
  predicate AllDec(s: string) { forall i :: 0 <= i < |s| ==> IsDec(s[i]) }

  /** As the name writer spells digits: lower case, and no leading zero. */
  predicate LowerCase(s: string) { forall i :: 0 <= i < |s| ==> s[i] < 'A' || s[i] > 'F' }
  predicate NoLeadingZero(s: string) { |s| == 1 || (|s| > 1 && s[0] != '0') }

  /** "%0<width>x" */
  function Hex(v: nat, width: nat): (s: string)
    ensures |s| == width && AllHex(s) && LowerCase(s)
  {
    if width == 0 then "" else Hex(v / 16, width - 1) + [Digit(v % 16)]
  }

  /** "%u" */
  function Dec(v: nat): (s: string)
    ensures |s| > 0 && AllDec(s) && NoLeadingZero(s) && (v > 0 ==> s[0] != '0')
  {
    if v < 10 then [Digit(v)] else Dec(v / 10) + [Digit(v % 10)]
  }

  function HexVal(s: string): (v: nat)
    requires AllHex(s)
  {
    if |s| == 0 then 0 else 16 * HexVal(s[..|s| - 1]) + Nibble(s[|s| - 1]).value
  }

  function DecVal(s: string): (v: nat)
    requires AllDec(s)
  {
    if |s| == 0 then 0 else 10 * DecVal(s[..|s| - 1]) + (s[|s| - 1] - '0') as nat
  }

  function Pow16(n: nat): nat { if n == 0 then 1 else 16 * Pow16(n - 1) }

  lemma {:induction false} HexRoundTrip(v: nat, width: nat)
    requires v < Pow16(width)
    ensures HexVal(Hex(v, width)) == v
  {
    if width > 0 {
      HexRoundTrip(v / 16, width - 1);
      assert Hex(v, width)[..width - 1] == Hex(v / 16, width - 1);
    }
  }

  lemma {:induction false} DecRoundTrip(v: nat)
    ensures DecVal(Dec(v)) == v
  {
    if v >= 10 {
      DecRoundTrip(v / 10);
      assert Dec(v)[..|Dec(v)| - 1] == Dec(v / 10);
    } else {
      assert Dec(v)[..0] == "";
    }
  }

  function LayerChar(k: Key): char { if k.layer == LAYER_BASE then 'b' else 'n' }

  /** The settings key of an entry, after the "mtclus/" subtree. */
  function RecName(k: Key): (s: string) {
    [LayerChar(k)] + Hex(k.node, 8) + "/" + Dec(k.section)
  }

  // ----- the hand-written parser ------------------------------------------------------------

  /** The longest prefix of hex digits, up to `limit` of them. */
  function HexRun(s: string, limit: nat): (n: nat)
    ensures n <= |s| && n <= limit
    ensures forall i :: 0 <= i < n ==> IsHex(s[i])
    ensures n < limit && n < |s| ==> !IsHex(s[n])
    decreases limit
  {
    if limit == 0 || |s| == 0 || !IsHex(s[0]) then 0 else 1 + HexRun(s[1..], limit - 1)
  }

  lemma HexRunUnique(s: string, limit: nat, n: nat)
    requires n <= |s| && n <= limit && (forall i :: 0 <= i < n ==> IsHex(s[i]))
    requires n < limit && n < |s| ==> !IsHex(s[n])
    ensures HexRun(s, limit) == n
  {
  }

  /** The names the parser accepts, and what each denotes: a layer character, one to eight
      hex digits, a slash, and a decimal section that fits 32 bits, consumed entirely. */
  function ParseSpec(key: string): (r: Option<(char, nat, nat)>) {
    if |key| == 0 then None
    else
      var h := HexRun(key[1..], 8);
      if h == 0 || 1 + h >= |key| || key[1 + h] != '/' then None
      else
        var digits := key[2 + h..];
        if |digits| == 0 || !AllDec(digits) || DecVal(digits) > U32_MAX then None
        else Some((key[0], HexVal(key[1..1 + h]), DecVal(digits)))
  }

  /** The character at `p`, or the terminator past the end. */
  function At(key: string, p: nat): char { if p < |key| then key[p] else '\0' }

  method ParseEntryKey(key: string) returns (r: Option<(char, nat, nat)>)
    requires '\0' !in key
    ensures r == ParseSpec(key)
  {
    if At(key, 0) == '\0' { return None; }
    var id, digits := ParseId(key);
    var p := 1 + digits;
    if digits == 0 || At(key, p) != '/' { return None; }
    var sec := ParseSection(key, p + 1);
    if sec.None? { return None; }
    r := Some((key[0], id, sec.value));
  }

  method ParseId(key: string) returns (id: nat, digits: nat)
    requires '\0' !in key && |key| > 0
    ensures digits == HexRun(key[1..], 8) && AllHex(key[1..1 + digits]) && id == HexVal(key[1..1 + digits])
  {
    hide HexVal, HexRun, AllHex;
    id, digits := 0, 0;
    NoDigits();
    assert key[1..1] == "";
    while digits < 8
      invariant 1 + digits <= |key| && digits <= 8
      invariant AllHex(key[1..1 + digits]) && id == HexVal(key[1..1 + digits])
    {
      var nib := Nibble(At(key, 1 + digits));
      if nib.None? { break; }
      OneMoreDigit(key[1..1 + digits], key[1 + digits]);
      assert key[1..2 + digits] == key[1..1 + digits] + [key[1 + digits]];
      id := 16 * id + nib.value;
      digits := digits + 1;
    }
    DigitsRead(key, digits);
  }

  lemma NoDigits()
    ensures AllHex("") && HexVal("") == 0
  {
  }

  lemma OneMoreDigit(h: string, c: char)
    requires AllHex(h) && IsHex(c)
    ensures AllHex(h + [c]) && HexVal(h + [c]) == 16 * HexVal(h) + Nibble(c).value
  {
    assert (h + [c])[..|h|] == h;
  }

  lemma DigitsRead(key: string, digits: nat)
    requires 1 + digits <= |key| && digits <= 8 && AllHex(key[1..1 + digits])
    requires digits < 8 && 1 + digits < |key| ==> !IsHex(key[1 + digits])
    ensures digits == HexRun(key[1..], 8)
  {
    assert forall i :: 0 <= i < digits ==> key[1..][i] == key[1..1 + digits][i];
    HexRunUnique(key[1..], 8, digits);
  }

  method ParseSection(key: string, start: nat) returns (r: Option<nat>)
    requires '\0' !in key && start <= |key|
    ensures var d := key[start..];
            r == if |d| == 0 || !AllDec(d) || DecVal(d) > U32_MAX then None else Some(DecVal(d))
  {
    ghost var d := key[start..];
    if !IsDec(At(key, start)) {
      assert |d| > 0 ==> !IsDec(d[0]);
      return None;
    }
    var p, sec := start, 0;
    while IsDec(At(key, p))
      invariant start <= p <= |key| && AllDec(key[start..p])
      invariant sec == DecVal(key[start..p]) <= U32_MAX
      decreases |key| - p
    {
      var digit := (At(key, p) - '0') as nat;
      assert key[start..p + 1][..p - start] == key[start..p];
      if sec > (U32_MAX - digit) / 10 {
        if AllDec(d) { Prefixes(d, p + 1 - start); assert d[..p + 1 - start] == key[start..p + 1]; }
        return None;
      }
      sec := sec * 10 + digit;
      p := p + 1;
    }
    if At(key, p) != '\0' {
      assert d[p - start] == key[p];
      return None;
    }
    assert key[start..p] == d;
    r := Some(sec);
  }

  /** A longer number is no smaller. */
  lemma {:induction false} Prefixes(d: string, n: nat)
    requires AllDec(d) && n <= |d|
    ensures AllDec(d[..n]) && DecVal(d[..n]) <= DecVal(d)
  {
    if n == |d| {
      assert d[..n] == d;
    } else {
      Prefixes(d[..|d| - 1], n);
      assert d[..|d| - 1][..n] == d[..n];
    }
  }

  /** Reading back a written name recovers the key, for every layer, id and section. */
  lemma NameRoundTrip(k: Key)
    ensures ParseSpec(RecName(k)) == Some((LayerChar(k), k.node, k.section))
  {
    hide Hex, Dec, HexVal, DecVal;
    var name := RecName(k);
    var h, d := Hex(k.node, 8), Dec(k.section);
    assert name[1..] == h + "/" + d;
    HexRunUnique(name[1..], 8, 8);
    assert name[1..9] == h && name[9] == '/' && name[10..] == d;
    EightDigits();
    HexRoundTrip(k.node, 8);
    DecRoundTrip(k.section);
  }

  lemma EightDigits()
    ensures Pow16(8) == 0x1_0000_0000
  {
    assert Pow16(4) == 0x1_0000;
  }

  lemma {:induction false} HexIsCanonical(h: string)
    requires AllHex(h) && LowerCase(h)
    ensures Hex(HexVal(h), |h|) == h
  {
    hide Digit, Nibble;
    if |h| > 0 {
      var init, last := h[..|h| - 1], h[|h| - 1];
      HexIsCanonical(init);
      assert IsHex(last) && (last < 'A' || last > 'F');
      DigitOfNibble(last);
      assert HexVal(h) / 16 == HexVal(init) && HexVal(h) % 16 == Nibble(last).value;
      assert h == init + [last];
    }
  }

  lemma DigitOfNibble(c: char)
    requires IsHex(c) && (c < 'A' || c > 'F')
    ensures Digit(Nibble(c).value) == c
  {
  }

  lemma {:induction false} DecIsCanonical(d: string)
    requires AllDec(d) && NoLeadingZero(d)
    ensures Dec(DecVal(d)) == d
  {
    var init, last := d[..|d| - 1], d[|d| - 1];
    if |d| == 1 {
      assert init == "";
    } else {
      DecIsCanonical(init);
      LeadingDigitCounts(init);
      assert DecVal(d) / 10 == DecVal(init) && DecVal(d) % 10 == (last - '0') as nat;
    }
  }

  lemma {:induction false} LeadingDigitCounts(d: string)
    requires AllDec(d) && |d| > 0 && d[0] != '0'
    ensures DecVal(d) > 0
  {
    if |d| > 1 { LeadingDigitCounts(d[..|d| - 1]); }
  }

  /** The key a parsed name denotes; the loader keeps the section's low 16 bits. */
  function DenotedKey(p: (char, nat, nat)): Key
    requires p.1 <= U32_MAX
  {
    Key(if p.0 == 'b' then LAYER_BASE else LAYER_NODE, p.1, p.2 % 0x1_0000)
  }

  lemma {:induction false} HexFits(h: string)
    requires AllHex(h)
    ensures HexVal(h) < Pow16(|h|)
  {
    if |h| > 0 { HexFits(h[..|h| - 1]); }
  }

  lemma {:induction false} Pow16Grows(m: nat, n: nat)
    requires m <= n
    ensures Pow16(m) <= Pow16(n)
  {
    if m < n { Pow16Grows(m, n - 1); }
  }

  lemma ParsedIdFits(s: string)
    requires ParseSpec(s).Some?
    ensures ParseSpec(s).value.1 <= U32_MAX
  {
    var h := HexRun(s[1..], 8);
    HexFits(s[1..1 + h]);
    Pow16Grows(h, 8);
    EightDigits();
  }

  /** The shape the writer emits. */
  ghost predicate Canonical(s: string)
    requires ParseSpec(s).Some?
  {
    && (s[0] == 'b' || s[0] == 'n') && HexRun(s[1..], 8) == 8 && LowerCase(s[1..9])
    && NoLeadingZero(s[10..]) && ParseSpec(s).value.2 < 0x1_0000
  }

  lemma WrittenIsCanonical(s: string, k: Key)
    requires ParseSpec(s).Some? && RecName(k) == s
    ensures Canonical(s)
  {
    hide Hex, Dec, HexVal, DecVal, Pow16;
    NameRoundTrip(k);
    var hex, d := Hex(k.node, 8), Dec(k.section);
    assert s[1..] == hex + "/" + d;
    HexRunUnique(s[1..], 8, 8);
    assert s[1..9] == hex && s[10..] == d;
  }

  lemma CanonicalIsWritten(s: string)
    requires ParseSpec(s).Some? && ParseSpec(s).value.1 <= U32_MAX && Canonical(s)
    ensures RecName(DenotedKey(ParseSpec(s).value)) == s
  {
    hide Hex, Dec, HexVal, DecVal, Pow16;
    HexIsCanonical(s[1..9]);
    DecIsCanonical(s[10..]);
    assert s == [s[0]] + s[1..9] + "/" + s[10..];
  }

  /** The parser accepts more names than the writer emits: a parsed name is the one its key
      would be written under exactly when it has a known layer, eight lower-case digits, no
      leading zero and a section within 16 bits. */
  lemma ParsedNameIsCanonical(s: string)
    requires ParseSpec(s).Some?
    ensures ParseSpec(s).value.1 <= U32_MAX
    ensures RecName(DenotedKey(ParseSpec(s).value)) == s <==> Canonical(s)
  {
    hide Canonical, ParseSpec, RecName;
    ParsedIdFits(s);
    if RecName(DenotedKey(ParseSpec(s).value)) == s { WrittenIsCanonical(s, DenotedKey(ParseSpec(s).value)); }
    if Canonical(s) { CanonicalIsWritten(s); }
  }

  /** Which names are read as the same key: any letter but 'b' stands for a node, and sections count
      modulo 2^16. */
  lemma AliasesExactly(s: string, t: string)
    requires ParseSpec(s).Some? && ParseSpec(t).Some?
    ensures ParseSpec(s).value.1 <= U32_MAX && ParseSpec(t).value.1 <= U32_MAX
    ensures var (p, q) := (ParseSpec(s).value, ParseSpec(t).value);
            DenotedKey(p) == DenotedKey(q)
            <==> (s[0] == 'b' <==> t[0] == 'b') && p.1 == q.1 && (p.2 as int - q.2 as int) % 0x1_0000 == 0
  {
    ParsedIdFits(s);
    ParsedIdFits(t);
    LetterIsFirst(s);
    LetterIsFirst(t);
    hide ParseSpec;
    SameResidue16(ParseSpec(s).value.2, ParseSpec(t).value.2);
  }

  lemma LetterIsFirst(s: string)
    requires ParseSpec(s).Some?
    ensures |s| > 0 && ParseSpec(s).value.0 == s[0]
  {
    hide HexRun, HexVal, DecVal, AllDec;
  }

  lemma SameResidue16(a: nat, b: nat)
    ensures a % 0x1_0000 == b % 0x1_0000 <==> (a as int - b as int) % 0x1_0000 == 0
  {
  }

  // ----- records ----------------------------------------------------------------------------

  const SIG_LEN := 64
  const TOMBSTONE_FLAG := 1
  const SIGNED_FLAG := 2

  /** The packed settings value: the stamp, a flags byte, and the payload with the
      signature, if any, trailing it. */
  datatype Record = Record(stamp: Stamp, flags: byte, bytes: seq<byte>)

  function Encode(e: Entry): (r: Record) {
    Record(e.stamp, (if e.tombstone then TOMBSTONE_FLAG else 0) + (if e.sig.Some? then SIGNED_FLAG else 0),
           e.payload + if e.sig.Some? then e.sig.value else [])
  }

  function Decode(k: Key, r: Record): (e: Option<Entry>) {
    var signed, tombstone := r.flags / 2 % 2 == 1, r.flags % 2 == 1;
    if signed && |r.bytes| < SIG_LEN then None
    else
      var plen := if signed then |r.bytes| - SIG_LEN else |r.bytes|;
      if plen > PAYLOAD_MAX || r.flags >= 4 then None
      else Some(Entry(k, r.stamp, tombstone, r.bytes[..plen], if signed then Some(r.bytes[plen..]) else None))
  }

  predicate SignatureShaped(e: Entry) { e.sig.Some? ==> |e.sig.value| == SIG_LEN }

  lemma RecordRoundTrip(e: Entry)
    requires |e.payload| <= PAYLOAD_MAX && SignatureShaped(e)
    ensures Decode(e.key, Encode(e)) == Some(e)
  {
    assert Encode(e).bytes[..|e.payload|] == e.payload;
    assert e.sig.Some? ==> Encode(e).bytes[|e.payload|..] == e.sig.value;
  }

  /** The other way round too: a record decodes to an entry exactly when it is that entry's record.
      What has an unknown flag, too short a signature or too long a payload decodes to nothing. */
  lemma RecordIsItsEntry(k: Key, r: Record, e: Entry)
    ensures Decode(k, r) == Some(e)
            <==> e.key == k && Encode(e) == r && |e.payload| <= PAYLOAD_MAX && SignatureShaped(e)
  {
    if e.key == k && Encode(e) == r && |e.payload| <= PAYLOAD_MAX && SignatureShaped(e) { RecordRoundTrip(e); }
    if Decode(k, r) == Some(e) {
      assert r.bytes == e.payload + if e.sig.Some? then e.sig.value else [];
    }
  }

  // ----- boot -------------------------------------------------------------------------------

  datatype Setting = Setting(name: string, record: Record)

  function Save(e: Entry): Setting { Setting(RecName(e.key), Encode(e)) }

  /** One settings record handed to the loader. `wellFormed` is "the payload is the section
      its key claims". */
  function LoadSetting(c: Config, st: State, wellFormed: Entry -> bool, s: Setting, wall: int): State {
    var p := ParseSpec(s.name);
    if p.None? || p.value.1 > U32_MAX then st
    else
      var e := Decode(DenotedKey(p.value), s.record);
      if e.None? then st else LoadRecord(c, st, e.value, wellFormed(e.value), wall)
  }

  function LoadAll(c: Config, st: State, wellFormed: Entry -> bool, ss: seq<Setting>, wall: int): State {
    if |ss| == 0 then st
    else LoadSetting(c, LoadAll(c, st, wellFormed, ss[..|ss| - 1], wall), wellFormed, ss[|ss| - 1], wall)
  }

  /** The entry a settings record brings back under a claim, if the loader takes it. */
  function LoadedEntry(c: Config, kind: ScopeKind, wellFormed: Entry -> bool, s: Setting): (r: Option<Entry>) {
    var p := ParseSpec(s.name);
    if p.None? || p.value.1 > U32_MAX then None
    else
      var e := Decode(DenotedKey(p.value), s.record);
      if e.Some? && Shareable(e.value.key.section) && wellFormed(e.value)
         && Contains(MyScope(kind, c.me), e.value.key)
      then e else None
  }

  /** Everything a boot's records bring back, in the order flash hands them over. */
  function Loaded(c: Config, kind: ScopeKind, wellFormed: Entry -> bool, ss: seq<Setting>): (es: seq<Entry>) {
    if |ss| == 0 then []
    else
      var e := LoadedEntry(c, kind, wellFormed, ss[|ss| - 1]);
      Loaded(c, kind, wellFormed, ss[..|ss| - 1]) + if e.Some? then [e.value] else []
  }

  lemma {:induction false} LoadedMember(c: Config, kind: ScopeKind, wellFormed: Entry -> bool, ss: seq<Setting>,
                                        e: Entry)
    ensures e in Loaded(c, kind, wellFormed, ss)
            <==> exists s :: s in ss && LoadedEntry(c, kind, wellFormed, s) == Some(e)
  {
    hide LoadedEntry;
    if |ss| > 0 {
      var init, last := ss[..|ss| - 1], ss[|ss| - 1];
      LoadedMember(c, kind, wellFormed, init, e);
      assert ss == init + [last];
      if LoadedEntry(c, kind, wellFormed, last) == Some(e) { assert last in ss; }
    }
  }

  /** Whatever is in flash, booting is accepting the records the loader takes, in their order. */
  lemma {:induction false} LoadIsAccepting(c: Config, st: State, wellFormed: Entry -> bool, ss: seq<Setting>, wall: int)
    ensures var st' := LoadAll(c, st, wellFormed, ss, wall);
            st' == st.(doc := AcceptAll(st.doc, c.cap, Loaded(c, st.kind, wellFormed, ss)), hlc := st'.hlc)
  {
    hide AcceptTable, ParseSpec, Decode, ObserveAt;
    if |ss| > 0 {
      var init, last := ss[..|ss| - 1], ss[|ss| - 1];
      LoadIsAccepting(c, st, wellFormed, init, wall);
      var es := Loaded(c, st.kind, wellFormed, init);
      var e := LoadedEntry(c, st.kind, wellFormed, last);
      if e.Some? { assert (es + [e.value])[..|es|] == es; } else { assert es + [] == es; }
    }
  }

  /** A saved entry comes back exactly when the claim at boot still contains it. */
  lemma SavedEntryLoads(c: Config, kind: ScopeKind, wellFormed: Entry -> bool, e: Entry)
    requires Acceptable(e) && SignatureShaped(e) && wellFormed(e) && Shareable(e.key.section)
    ensures LoadedEntry(c, kind, wellFormed, Save(e))
            == if Contains(MyScope(kind, c.me), e.key) then Some(e) else None
  {
    hide RecName, ParseSpec, Encode, Decode;
    NameRoundTrip(e.key);
    RecordRoundTrip(e);
    assert DenotedKey((LayerChar(e.key), e.key.node, e.key.section)) == e.key;
  }

  /** Offering a sorted table's own entries, in any order, rebuilds exactly that table. */
  lemma AcceptingATableRebuildsIt(t: seq<Entry>, cap: nat, es: seq<Entry>)
    requires Sorted(t) && |t| <= cap && (forall e :: e in es <==> e in t)
    requires forall e :: e in t ==> Acceptable(e)
    ensures AcceptAll([], cap, es) == t
  {
    hide Acceptable, Find;
    OffersFit(t, cap, es);
    AcceptAllStaysSorted([], cap, es);
    forall k ensures Find(AcceptAll([], cap, es), k) == Find(t, k) {
      NewestVersionWins([], cap, es, k);
      EmptyFind(k);
      var r := Find(AcceptAll([], cap, es), k);
      if r.Some? { FindMember(t, r.value); }
      if Find(t, k).Some? { assert Candidate(None, es, k, Find(t, k).value); }
    }
    LookupDeterminesTable(AcceptAll([], cap, es), t);
  }

  lemma EmptyFind(k: Key)
    ensures Sorted([]) && Find([], k) == None
  {
  }

  lemma OffersFit(t: seq<Entry>, cap: nat, es: seq<Entry>)
    requires Sorted(t) && |t| <= cap && (forall e :: e in es <==> e in t)
    ensures Sorted([]) && |Keys([]) + OfferedKeys(es)| <= cap
  {
    SortedKeysAreDistinct(t);
    forall k | k in OfferedKeys(es) ensures k in Keys(t) {
      OfferedMember(es, k);
      KeysMember(t, k);
      var e :| e in es && e.key == k;
      var i :| 0 <= i < |t| && t[i] == e;
    }
    SubsetSize(OfferedKeys(es), Keys(t));
    assert Keys([]) + OfferedKeys(es) == OfferedKeys(es);
  }

  /** Flash holds every entry of the document, and beside them only records the loader refuses
      under the claim at boot: left over from a wider claim, written by a laxer build, damaged. */
  ghost predicate FlashHolds(c: Config, doc: seq<Entry>, bootKind: ScopeKind, wellFormed: Entry -> bool,
                             ss: seq<Setting>)
  {
    && (forall e :: e in doc ==> Save(e) in ss)
    && forall s :: s in ss ==>
         LoadedEntry(c, bootKind, wellFormed, s).None? || exists e :: e in doc && s == Save(e)
  }

  /** A boot under any claim, its records in any order and with any leftovers beside them,
      rebuilds exactly the part of the document that claim covers, tombstones and signatures
      included. */
  lemma RebootRestoresDocument(c: Config, st: State, bootKind: ScopeKind, bootPinned: bool,
                               wellFormed: Entry -> bool, ss: seq<Setting>, wall: int, now: int)
    requires DocSound(c, st) && bootKind != BaseKind && FlashHolds(c, st.doc, bootKind, wellFormed, ss)
    requires forall e :: e in st.doc ==> SignatureShaped(e) && wellFormed(e)
    ensures var boot := LoadAll(c, Init(bootKind, bootPinned, now), wellFormed, ss, wall);
            boot.doc == Restrict(st.doc, MyScope(bootKind, c.me)) && DocSound(c, boot)
  {
    hide AcceptAll, LoadAll, Loaded, LoadedEntry, Sorted, Acceptable, Save, Restrict, ScopeSet;
    var kept := Restrict(st.doc, MyScope(bootKind, c.me));
    var es := Loaded(c, bootKind, wellFormed, ss);
    LoadIsAccepting(c, Init(bootKind, bootPinned, now), wellFormed, ss, wall);
    forall e ensures e in es <==> e in kept { LoadsWhatIsKept(c, st, bootKind, wellFormed, ss, e); }
    RestrictSorted(st.doc, MyScope(bootKind, c.me));
    RestrictIsShorter(st.doc, MyScope(bootKind, c.me));
    forall e | e in kept ensures Storable(c, Init(bootKind, bootPinned, now), e) {
      RestrictMember(st.doc, MyScope(bootKind, c.me), e);
      assert Storable(c, st, e);
    }
    AcceptingATableRebuildsIt(kept, c.cap, es);
  }

  lemma LoadsWhatIsKept(c: Config, st: State, bootKind: ScopeKind, wellFormed: Entry -> bool, ss: seq<Setting>,
                        e: Entry)
    requires DocSound(c, st) && FlashHolds(c, st.doc, bootKind, wellFormed, ss)
    requires forall x :: x in st.doc ==> SignatureShaped(x) && wellFormed(x)
    ensures e in Loaded(c, bootKind, wellFormed, ss) <==> e in Restrict(st.doc, MyScope(bootKind, c.me))
  {
    hide LoadedEntry, Save, Acceptable, Sorted, Contains;
    LoadedMember(c, bootKind, wellFormed, ss, e);
    RestrictMember(st.doc, MyScope(bootKind, c.me), e);
    if e in st.doc {
      assert Storable(c, st, e);
      SavedEntryLoads(c, bootKind, wellFormed, e);
    }
    forall s | s in ss && LoadedEntry(c, bootKind, wellFormed, s) == Some(e)
      ensures e in st.doc && Contains(MyScope(bootKind, c.me), e.key)
    {
      var x :| x in st.doc && s == Save(x);
      assert Storable(c, st, x);
      SavedEntryLoads(c, bootKind, wellFormed, x);
    }
  }

  // ----- the claim at boot --------------------------------------------------------------------

  datatype Build = AutoScope | FullScope | CoreScope
  datatype ScopeRecord = ScopeRecord(kind: ScopeKind, cap: nat)

  /** A compiled choice wins over a record, and a table that has grown discards it. */
  function BootKind(build: Build, record: Option<ScopeRecord>, cap: nat): (kind: ScopeKind)
    ensures kind != BaseKind
  {
    match build
    case CoreScope => CoreKind
    case FullScope => FullKind
    case AutoScope =>
      if record.None? || cap > record.value.cap || record.value.kind == BaseKind then FullKind
      else record.value.kind
  }

  /** The claim whose record this build would honour, or the build's own. */
  predicate ClaimSurvives(build: Build, record: Option<ScopeRecord>, cap: nat, kind: ScopeKind) {
    match build
    case CoreScope => kind == CoreKind
    case FullScope => kind == FullKind
    case AutoScope =>
      kind != BaseKind && if record.None? then kind == FullKind else record.value.cap >= cap && record.value.kind == kind
  }

  /** The other cases: a compiled choice wins over any record, and a table that has grown since the
      record was made, or no usable record, claims everything again. */
  lemma BootClaims(record: Option<ScopeRecord>, cap: nat)
    ensures BootKind(CoreScope, record, cap) == CoreKind && BootKind(FullScope, record, cap) == FullKind
    ensures BootKind(AutoScope, record, cap) == CoreKind
            <==> record.Some? && record.value.kind == CoreKind && cap <= record.value.cap
  {
  }

  /** A member whose claim survives comes back with its whole document. */
  lemma RebootKeepsEverything(c: Config, st: State, build: Build, record: Option<ScopeRecord>, pinned: bool,
                              wellFormed: Entry -> bool, ss: seq<Setting>, wall: int, now: int)
    requires DocSound(c, st) && ClaimSurvives(build, record, c.cap, st.kind)
    requires FlashHolds(c, st.doc, st.kind, wellFormed, ss)
    requires forall e :: e in st.doc ==> SignatureShaped(e) && wellFormed(e)
    ensures LoadAll(c, Init(BootKind(build, record, c.cap), pinned, now), wellFormed, ss, wall).doc == st.doc
  {
    hide LoadAll, LoadedEntry, Save, Sorted;
    RebootRestoresDocument(c, st, st.kind, pinned, wellFormed, ss, wall, now);
    RestrictIdentity(st.doc, Mine(c, st));
  }
}
