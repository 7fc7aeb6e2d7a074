/** Order-independent merge: the document after any arrivals depends only on which
    versions arrived, never on their order or repetition. */
module Merge {
  import opened Bytes
  import opened Stamps
  import opened Document
  import opened Digest

  /** Offer every entry of `es` to the document, in order. */
  function AcceptAll(t: seq<Entry>, cap: nat, es: seq<Entry>): (r: seq<Entry>) {
    if |es| == 0 then t
    else AcceptTable(AcceptAll(t, cap, es[..|es| - 1]), cap, es[|es| - 1])
  }

  lemma {:induction false} AcceptAllPrepend(t: seq<Entry>, cap: nat, e: Entry, es: seq<Entry>)
    ensures AcceptAll(t, cap, [e] + es) == AcceptAll(AcceptTable(t, cap, e), cap, es)
  {
    hide AcceptTable;
    var all := [e] + es;
    if |es| == 0 {
      assert all[..0] == [];
    } else {
      AcceptAllPrepend(t, cap, e, es[..|es| - 1]);
      assert all[..|all| - 1] == [e] + es[..|es| - 1];
    }
  }

  function Unsigned(e: Entry): Entry { e.(sig := None) }

  function Keys(t: seq<Entry>): set<Key> {
    if |t| == 0 then {} else Keys(t[..|t| - 1]) + {t[|t| - 1].key}
  }

  /** The keys whose entries the document could store. */
  function OfferedKeys(es: seq<Entry>): set<Key> {
    if |es| == 0 then {}
    else OfferedKeys(es[..|es| - 1])
         + if Acceptable(es[|es| - 1]) then {es[|es| - 1].key} else {}
  }

  lemma {:induction false} OfferedMember(es: seq<Entry>, k: Key)
    ensures k in OfferedKeys(es) <==> exists e :: e in es && Acceptable(e) && e.key == k
  {
    if |es| > 0 {
      OfferedMember(es[..|es| - 1], k);
      assert es == es[..|es| - 1] + [es[|es| - 1]];
    }
  }

  lemma {:induction false} KeysMember(t: seq<Entry>, k: Key)
    ensures k in Keys(t) <==> exists i :: 0 <= i < |t| && t[i].key == k
  {
    if |t| > 0 {
      var init := t[..|t| - 1];
      KeysMember(init, k);
      assert forall i :: 0 <= i < |init| ==> init[i] == t[i];
    }
  }

  lemma {:induction false} SortedKeysAreDistinct(t: seq<Entry>)
    requires Sorted(t)
    ensures |Keys(t)| == |t|
  {
    if |t| > 0 {
      SortedKeysAreDistinct(t[..|t| - 1]);
      KeysMember(t[..|t| - 1], t[|t| - 1].key);
    }
  }

  lemma FindIsKeys(t: seq<Entry>, k: Key)
    requires Sorted(t)
    ensures Find(t, k).Some? <==> k in Keys(t)
  {
    KeysMember(t, k);
    if k in Keys(t) {
      var i :| 0 <= i < |t| && t[i].key == k;
      FindMember(t, t[i]);
    }
  }

  lemma SubsetSize<T>(a: set<T>, b: set<T>)
    requires a <= b
    ensures |a| <= |b|
  {
    assert b == a + (b - a);
  }

  /** With room for every offered key, an acceptable entry is never refused for space. */
  lemma RoomMeansNoRefusal(t: seq<Entry>, cap: nat, e: Entry, all: set<Key>)
    requires Sorted(t) && Acceptable(e)
    requires Keys(t) <= all && e.key in all && |all| <= cap
    ensures AcceptVerdict(t, cap, e) != NoSpace && AcceptVerdict(t, cap, e) != Invalid
  {
    FindIsKeys(t, e.key);
    SortedKeysAreDistinct(t);
    if e.key !in Keys(t) {
      SubsetSize(Keys(t) + {e.key}, all);
    }
  }

  lemma AcceptKeys(t: seq<Entry>, cap: nat, e: Entry)
    requires Sorted(t)
    ensures Keys(AcceptTable(t, cap, e))
            == Keys(t) + if AcceptVerdict(t, cap, e) == Stored then {e.key} else {}
  {
    AcceptIsUpdate(t, cap, e, e.key);
    forall k
      ensures k in Keys(AcceptTable(t, cap, e))
              <==> k in Keys(t) || (AcceptVerdict(t, cap, e) == Stored && k == e.key)
    {
      AcceptIsUpdate(t, cap, e, k);
      FindIsKeys(t, k);
      FindIsKeys(AcceptTable(t, cap, e), k);
    }
  }

  lemma {:induction false} AcceptAllStaysSorted(t: seq<Entry>, cap: nat, es: seq<Entry>)
    requires Sorted(t)
    ensures Sorted(AcceptAll(t, cap, es))
    ensures Keys(AcceptAll(t, cap, es)) <= Keys(t) + OfferedKeys(es)
    ensures |t| <= cap ==> |AcceptAll(t, cap, es)| <= cap
  {
    hide AcceptTable, Sorted;
    if |es| > 0 {
      var init, last := es[..|es| - 1], es[|es| - 1];
      AcceptAllStaysSorted(t, cap, init);
      AcceptIsUpdate(AcceptAll(t, cap, init), cap, last, last.key);
      AcceptKeys(AcceptAll(t, cap, init), cap, last);
      assert es == init + [last];
    }
  }

  /** `e` is a version of `k` on offer: held already, or arriving and acceptable. */
  predicate Candidate(held: Option<Entry>, es: seq<Entry>, k: Key, e: Entry) {
    e.key == k && (held == Some(e) || (e in es && Acceptable(e)))
  }

  /** `r` holds a newest version on offer for `k`, and nothing only if nothing was on offer. */
  ghost predicate IsWinner(held: Option<Entry>, es: seq<Entry>, k: Key, r: Option<Entry>) {
    && (r.Some? ==> Candidate(held, es, k, r.value))
    && forall e :: Candidate(held, es, k, e) ==> r.Some? && !Newer(e.stamp, r.value.stamp)
  }

  /** Last writer wins: after any arrivals every key holds a newest version offered for it. */
  lemma {:induction false} NewestVersionWins(t: seq<Entry>, cap: nat, es: seq<Entry>, k: Key)
    requires Sorted(t) && |Keys(t) + OfferedKeys(es)| <= cap
    ensures IsWinner(Find(t, k), es, k, Find(AcceptAll(t, cap, es), k))
  {
    if |es| > 0 {
      var init, last := es[..|es| - 1], es[|es| - 1];
      assert es == init + [last];
      SubsetSize(Keys(t) + OfferedKeys(init), Keys(t) + OfferedKeys(es));
      NewestVersionWins(t, cap, init, k);
      LaterArrivalWins(t, cap, init, last, k);
    }
  }

  lemma LaterArrivalWins(t: seq<Entry>, cap: nat, init: seq<Entry>, last: Entry, k: Key)
    requires Sorted(t) && |Keys(t) + OfferedKeys(init + [last])| <= cap
    requires IsWinner(Find(t, k), init, k, Find(AcceptAll(t, cap, init), k))
    ensures IsWinner(Find(t, k), init + [last], k,
                     Find(AcceptTable(AcceptAll(t, cap, init), cap, last), k))
  {
    var mid := AcceptAll(t, cap, init);
    assert (init + [last])[..|init|] == init;
    AcceptAllStaysSorted(t, cap, init);
    AcceptIsUpdate(mid, cap, last, k);
    if Acceptable(last) && last.key == k {
      RoomMeansNoRefusal(mid, cap, last, Keys(t) + OfferedKeys(init + [last]));
      WinnerStep(Find(t, k), init, last, k, Find(mid, k));
    } else {
      WinnerSkip(Find(t, k), init, last, k, Find(mid, k));
    }
  }

  lemma WinnerStep(held: Option<Entry>, init: seq<Entry>, last: Entry, k: Key, r: Option<Entry>)
    requires Acceptable(last) && last.key == k && IsWinner(held, init, k, r)
    ensures IsWinner(held, init + [last], k,
                     if r.None? || Newer(last.stamp, r.value.stamp) then Some(last) else r)
  {
    forall e | Candidate(held, init + [last], k, e)
      ensures r.None? || Newer(last.stamp, r.value.stamp) ==> !Newer(e.stamp, last.stamp)
      ensures !(r.None? || Newer(last.stamp, r.value.stamp)) ==> !Newer(e.stamp, r.value.stamp)
    {
      assert e == last || Candidate(held, init, k, e);
    }
  }

  lemma WinnerSkip(held: Option<Entry>, init: seq<Entry>, last: Entry, k: Key, r: Option<Entry>)
    requires !(Acceptable(last) && last.key == k) && IsWinner(held, init, k, r)
    ensures IsWinner(held, init + [last], k, r)
  {
    assert forall e :: Candidate(held, init + [last], k, e) ==> Candidate(held, init, k, e);
  }

  /** One stamp names one write: versions of a key with equal stamps differ at most in
      the signature that travelled with them. */
  ghost predicate OneWritePerStamp(t: seq<Entry>, es: seq<Entry>) {
    forall k, e, f :: Candidate(Find(t, k), es, k, e) && Candidate(Find(t, k), es, k, f) && e.stamp == f.stamp
                      ==> Unsigned(e) == Unsigned(f)
  }

  /** The same arrivals in any order, with any repetition, give the same table. */
  lemma MergeIsOrderIndependent(t: seq<Entry>, cap: nat, es: seq<Entry>, fs: seq<Entry>)
    requires Sorted(t) && |Keys(t) + OfferedKeys(es)| <= cap
    requires forall e :: e in es <==> e in fs
    requires OneWritePerStamp(t, es)
    ensures Sorted(AcceptAll(t, cap, es)) && Sorted(AcceptAll(t, cap, fs))
    ensures Project(AcceptAll(t, cap, es), Unsigned) == Project(AcceptAll(t, cap, fs), Unsigned)
  {
    assert OfferedKeys(es) == OfferedKeys(fs) by {
      forall k ensures k in OfferedKeys(es) <==> k in OfferedKeys(fs) {
        OfferedMember(es, k);
        OfferedMember(fs, k);
      }
    }
    AcceptAllStaysSorted(t, cap, es);
    AcceptAllStaysSorted(t, cap, fs);
    forall k
      ensures MapOption(Find(AcceptAll(t, cap, es), k), Unsigned)
              == MapOption(Find(AcceptAll(t, cap, fs), k), Unsigned)
    {
      NewestVersionWins(t, cap, es, k);
      NewestVersionWins(t, cap, fs, k);
      assert forall e :: Candidate(Find(t, k), es, k, e) <==> Candidate(Find(t, k), fs, k, e);
      var a, b := Find(AcceptAll(t, cap, es), k), Find(AcceptAll(t, cap, fs), k);
      if a.Some? && b.Some? { NewerIsTotal(a.value.stamp, b.value.stamp); }
    }
    ProjectionDeterminesTable(AcceptAll(t, cap, es), AcceptAll(t, cap, fs), Unsigned);
  }

  /** ... and so the same digest legs over every scope. */
  lemma MergeGivesOneDigest(crc: Crc, t: seq<Entry>, cap: nat, es: seq<Entry>, fs: seq<Entry>, s: Scope)
    requires Sorted(t) && |Keys(t) + OfferedKeys(es)| <= cap
    requires forall e :: e in es <==> e in fs
    requires OneWritePerStamp(t, es)
    ensures BuildDigest(crc, AcceptAll(t, cap, es), s) == BuildDigest(crc, AcceptAll(t, cap, fs), s)
  {
    hide AcceptAll, Keys, OfferedKeys, OneWritePerStamp, BuildDigest, Sorted, Project, Find;
    MergeIsOrderIndependent(t, cap, es, fs);
    var a, b := AcceptAll(t, cap, es), AcceptAll(t, cap, fs);
    forall k ensures MapOption(Find(a, k), Bare) == MapOption(Find(b, k), Bare) {
      ProjectFind(a, Unsigned, k);
      ProjectFind(b, Unsigned, k);
      assert MapOption(Find(a, k), Unsigned) == MapOption(Find(b, k), Unsigned);
    }
    OneVersionOneDigest(crc, a, b, s);
  }
}
