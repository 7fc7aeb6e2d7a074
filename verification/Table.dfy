/** The document's storage: a caller-sized array kept sorted in place, with memmove
    insertion and compacting retention. */
module Table {
  import opened Bytes
  import opened Stamps
  import opened Document
  import opened Digest

  class Store {
    const entries: array<Entry>
    var count: nat

    constructor (cap: nat)
      ensures Valid() && fresh(entries) && entries.Length == cap && Rows() == []
    {
      entries := new Entry[cap](_ => NO_ENTRY);
      count := 0;
    }

    ghost predicate Valid()
      reads this, entries
    {
      count <= entries.Length && Sorted(entries[..count])
    }

    ghost function Rows(): seq<Entry>
      requires count <= entries.Length
      reads this, entries
    {
      entries[..count]
    }

    method Position(key: Key) returns (i: nat, found: bool)
      requires Valid()
      ensures i == Pos(Rows(), key) && (found <==> Holds(Rows(), key))
    {
      i := 0;
      found := false;
      while i < count
        invariant i <= count && !found
        invariant forall j :: 0 <= j < i ==> KeyCmp(key, entries[..count][j].key) > 0
      {
        var c := KeyCmp(key, entries[i].key);
        if c == 0 {
          found := true;
          break;
        }
        if c < 0 { break; }
        i := i + 1;
      }
      PosUnique(entries[..count], key, i);
    }

    method Lookup(key: Key) returns (r: Option<Entry>)
      requires Valid()
      ensures r == Find(Rows(), key)
    {
      var i, found := Position(key);
      r := if found then Some(entries[i]) else None;
    }

    method Accept(e: Entry) returns (v: Verdict)
      requires Valid()
      modifies this, entries
      ensures Valid()
      ensures v == AcceptVerdict(old(Rows()), entries.Length, e)
      ensures Rows() == AcceptTable(old(Rows()), entries.Length, e)
    {
      if !Acceptable(e) { return Invalid; }
      var i, found := Position(e.key);
      AcceptIsUpdate(Rows(), entries.Length, e, e.key);
      if found {
        if !Newer(e.stamp, entries[i].stamp) { return Stale; }
        Put(i, e);
      } else {
        if count >= entries.Length { return NoSpace; }
        assert Rows()[..i] == entries[..i] && Rows()[i..] == entries[i..count];
        Insert(i, e);
      }
      v := Stored;
    }

    method Put(i: nat, e: Entry)
      requires i < count <= entries.Length
      modifies entries
      ensures entries[..count] == old(entries[..count])[i := e]
    {
      entries[i] := e;
    }

    method Insert(i: nat, e: Entry)
      requires i <= count < entries.Length
      modifies this, entries
      ensures count == old(count) + 1
      ensures entries[..count] == old(entries[..i]) + [e] + old(entries[i..count])
    {
      ShiftUp(i);
      count := count + 1;
      ghost var tail := entries[i + 1..count];
      entries[i] := e;
      assert entries[i + 1..count] == tail;
      assert entries[..count] == entries[..i] + [entries[i]] + entries[i + 1..count];
    }

    method WantOf(mine: Scope, key: Key, stamp: Stamp) returns (w: Want)
      requires Valid()
      ensures w == WantRow(Rows(), entries.Length, mine, key, stamp)
    {
      if !KeyIsValid(key) || stamp == UNSET { return WantNo; }
      if !Contains(mine, key) { return WantNo; }
      var held := Lookup(key);
      if held.Some? { return if Newer(stamp, held.value.stamp) then WantYes else WantNo; }
      w := if count < entries.Length then WantYes else WantNoSpace;
    }

    /** memmove of entries[i..count] one place up, last element first. */
    method ShiftUp(i: nat)
      requires i <= count < entries.Length
      modifies entries
      ensures entries[..i] == old(entries[..i])
      ensures entries[i + 1..count + 1] == old(entries[i..count])
    {
      var j := count;
      while j > i
        invariant i <= j <= count
        invariant entries[..j] == old(entries[..j])
        invariant entries[j + 1..count + 1] == old(entries[j..count])
      {
        entries[j] := entries[j - 1];
        assert entries[j..count + 1] == [entries[j]] + entries[j + 1..count + 1];
        assert old(entries[j - 1..count]) == [old(entries[j - 1])] + old(entries[j..count]);
        j := j - 1;
      }
    }

    method CountScoped(s: Scope) returns (n: nat)
      requires count <= entries.Length
      ensures n == |Restrict(Rows(), s)|
    {
      n := 0;
      for i := 0 to count
        invariant n == |Restrict(entries[..i], s)|
      {
        assert entries[..i + 1][..i] == entries[..i];
        if Contains(s, entries[i].key) { n := n + 1; }
      }
    }

    method HashScoped(crc: Crc, s: Scope) returns (h: u32)
      requires count <= entries.Length
      ensures h == HashRows(crc, Restrict(Rows(), s))
    {
      h := 0;
      ghost var t := Rows();
      ghost var r: seq<Entry> := [];
      assert t[..0] == [];
      for i := 0 to count
        invariant r == Restrict(t[..i], s)
        invariant h == HashRows(crc, r)
      {
        RestrictStep(t, i, s);
        if Contains(s, entries[i].key) {
          HashStep(crc, r, t[i]);
          h := crc(h, RowBytes(entries[i]));
          r := r + [t[i]];
        }
      }
      assert t[..count] == t;
    }

    method MaxStampScoped(s: Scope) returns (m: Stamp)
      requires count <= entries.Length
      ensures m == MaxStamp(Restrict(Rows(), s))
    {
      m := UNSET;
      ghost var t := Rows();
      ghost var r: seq<Entry> := [];
      assert t[..0] == [];
      for i := 0 to count
        invariant r == Restrict(t[..i], s)
        invariant m == MaxStamp(r)
      {
        RestrictStep(t, i, s);
        if Contains(s, entries[i].key) {
          assert (r + [t[i]])[..|r|] == r;
          if Newer(entries[i].stamp, m) { m := entries[i].stamp; }
          r := r + [t[i]];
        }
      }
      assert t[..count] == t;
    }

    /** Drop everything outside `s` in one compacting pass, reporting each dropped key
        once and in order, and clear the tail. */
    method Retain(s: Scope) returns (evicted: seq<Key>)
      requires Valid()
      modifies this, entries
      ensures Valid()
      ensures Rows() == Restrict(old(Rows()), s)
      ensures evicted == KeysOutside(old(Rows()), s)
      ensures forall i :: count <= i < old(count) ==> entries[i] == NO_ENTRY
    {
      ghost var was := Rows();
      var keep;
      keep, evicted := Compact(s);
      RestrictSorted(was, s);
      if |evicted| > 0 {
        for i := keep to count
          invariant count == old(count) && entries[..keep] == Restrict(was, s)
          invariant forall j :: keep <= j < i ==> entries[j] == NO_ENTRY
        {
          entries[i] := NO_ENTRY;
        }
        count := keep;
      }
    }

    method Compact(s: Scope) returns (keep: nat, evicted: seq<Key>)
      requires count <= entries.Length
      modifies entries
      ensures keep <= count && entries[..keep] == Restrict(old(Rows()), s)
      ensures evicted == KeysOutside(old(Rows()), s) && |evicted| == count - keep
    {
      keep := 0;
      ghost var was := Rows();
      evicted := [];
      ghost var kept: seq<Entry> := [];
      assert was[..0] == [];
      hide Restrict, KeysOutside, Contains;
      NothingYet(s);
      for i := 0 to count
        invariant keep <= i
        invariant kept == Restrict(was[..i], s) && entries[..keep] == kept
        invariant forall j :: i <= j < count ==> entries[j] == was[j]
        invariant evicted == KeysOutside(was[..i], s)
        invariant |evicted| == i - keep
      {
        RestrictStep(was, i, s);
        if Contains(s, entries[i].key) {
          if keep != i { entries[keep] := entries[i]; }
          keep := keep + 1;
          kept := kept + [was[i]];
        } else {
          evicted := evicted + [entries[i].key];
        }
      }
      assert was[..count] == was;
    }

    method Clear() returns (evicted: seq<Key>)
      requires Valid()
      modifies this, entries
      ensures Valid() && Rows() == []
      ensures |evicted| == |old(Rows())|
      ensures forall i :: 0 <= i < |evicted| ==> evicted[i] == old(Rows())[i].key
      ensures forall i :: 0 <= i < old(count) ==> entries[i] == NO_ENTRY
    {
      var held := entries[..count];
      evicted := seq(|held|, i requires 0 <= i < |held| => held[i].key);
      for i := 0 to count
        invariant forall j :: 0 <= j < i ==> entries[j] == NO_ENTRY
      {
        entries[i] := NO_ENTRY;
      }
      count := 0;
    }
  }

  lemma RestrictStep(t: seq<Entry>, i: nat, s: Scope)
    requires i < |t|
    ensures Restrict(t[..i + 1], s)
            == Restrict(t[..i], s) + if Contains(s, t[i].key) then [t[i]] else []
    ensures KeysOutside(t[..i + 1], s)
            == KeysOutside(t[..i], s) + if Contains(s, t[i].key) then [] else [t[i].key]
  {
    assert t[..i + 1][..i] == t[..i];
  }

  lemma NothingYet(s: Scope)
    ensures Restrict([], s) == [] && KeysOutside([], s) == []
  {
  }

  lemma HashStep(crc: Crc, r: seq<Entry>, e: Entry)
    ensures HashRows(crc, r + [e]) == crc(HashRows(crc, r), RowBytes(e))
  {
    assert (r + [e])[..|r|] == r;
  }

  /** The keys a narrowing drops, in table order. */
  function KeysOutside(t: seq<Entry>, s: Scope): (ks: seq<Key>) {
    if |t| == 0 then []
    else KeysOutside(t[..|t| - 1], s)
         + if Contains(s, t[|t| - 1].key) then [] else [t[|t| - 1].key]
  }

  /** Eviction reports exactly the keys that were held and are no longer claimed. */
  lemma {:induction false} EvictedKeys(t: seq<Entry>, s: Scope, k: Key)
    ensures k in KeysOutside(t, s) <==> !Contains(s, k) && exists e :: e in t && e.key == k
    ensures |KeysOutside(t, s)| + |Restrict(t, s)| == |t|
  {
    if |t| > 0 {
      EvictedKeys(t[..|t| - 1], s, k);
      assert t == t[..|t| - 1] + [t[|t| - 1]];
    }
  }
}
