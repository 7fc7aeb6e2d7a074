/** What the transmit handler puts on the air for one vector request: every in-scope row of an
    unchanging document, in order, each once. */
module Paging {
  import opened Bytes
  import opened Document
  import opened Digest
  import opened Buckets
  import opened Sync
  import opened Protocol

  /** A member serves a vector and nothing outranks it. */
  predicate ServesVector(st: State) { st.vecDest != 0 && st.entDest == 0 }

  /** The table indices the paging has not looked at yet, and one for the chunk that ends it. */
  function Unseen(st: State): (n: nat) {
    if st.vecDest == 0 then 0 else 1 + |st.doc| - Min(st.vecOffset, |st.doc|)
  }

  /** Let the transmit handler run until the vector is served: what it sends, and to whom. */
  function SendVectors(c: Config, st: State): (r: (State, seq<(u32, Message)>))
    decreases Unseen(st)
  {
    if !ServesVector(st) then (st, [])
    else
      var (next, out) := TxNext(c, st);
      var (end, rest) := SendVectors(c, next);
      (end, [out.value] + rest)
  }

  /** The same frames addressed to one requester. */
  function Addressed(ps: seq<Vector>, to: u32): (fs: seq<(u32, Message)>)
    ensures |fs| == |ps| && forall i :: 0 <= i < |ps| ==> fs[i] == (to, VectorMsg(ps[i]))
  {
    seq(|ps|, i requires 0 <= i < |ps| => (to, VectorMsg(ps[i])))
  }

  lemma ChunkIsSent(c: Config, st: State)
    requires ServesVector(st) && st.vecOffset <= |st.doc|
    requires st.vecEmitted == |Restrict(st.doc[..st.vecOffset], ScopeMake(st.vecScope, st.vecDest))|
    ensures var s := ScopeMake(st.vecScope, st.vecDest);
            var end := ChunkEnd(st.doc, s, st.vecOffset, VECTOR_ROWS);
            && TxNext(c, st).1 == Some((st.vecDest, VectorMsg(VectorAt(st.doc, s, st.vecOffset))))
            && TxNext(c, st).0 == st.(vecDest := if end >= |st.doc| then 0 else st.vecDest, vecOffset := end,
                                      vecEmitted := |Restrict(st.doc[..end], s)|)
  {
    hide Restrict, ChunkEnd;
    var s := ScopeMake(st.vecScope, st.vecDest);
    ChunkSplits(st.doc, s, st.vecOffset, ChunkEnd(st.doc, s, st.vecOffset, VECTOR_ROWS));
  }

  /** From any cursor of a paging, the frames sent are exactly the pages still to come. */
  lemma {:induction false} PagesAreSent(c: Config, st: State)
    requires ServesVector(st) && st.vecOffset <= |st.doc|
    requires st.vecEmitted == |Restrict(st.doc[..st.vecOffset], ScopeMake(st.vecScope, st.vecDest))|
    ensures var (end, frames) := SendVectors(c, st);
            && frames == Addressed(Pages(st.doc, ScopeMake(st.vecScope, st.vecDest), st.vecOffset), st.vecDest)
            && end == st.(vecDest := 0, vecOffset := end.vecOffset, vecEmitted := end.vecEmitted)
    decreases Unseen(st)
  {
    hide Restrict, ChunkEnd, TxNext, VectorAt;
    var s := ScopeMake(st.vecScope, st.vecDest);
    ChunkIsSent(c, st);
    var next := TxNext(c, st).0;
    if next.vecDest != 0 {
      PagesAreSent(c, next);
    } else {
      assert SendVectors(c, next) == (next, []);
    }
  }

  /** One accepted request is answered in full: every frame goes to the requester, the rows of
      the frames concatenate to the rows it claims, and its end test is true of a frame exactly
      when the rows up to it are all of them. Then the responder is free again. */
  lemma ReplyIsComplete(c: Config, st: State, from: u32, scope: WireScope, now: int)
    requires from != 0 && st.vecDest == 0 && st.entDest == 0
    requires MayTake(st.serve, now, c.serveInterval, SERVE_BURST)
    ensures var s := ScopeFromWire(scope, from);
            var (end, frames) := SendVectors(c, OnVectorReq(c, st, from, scope, now));
            var ps := Pages(st.doc, s, 0);
            && frames == Addressed(ps, from)
            && AllRows(ps) == RowsOf(Restrict(st.doc, s))
            && (forall i :: 0 <= i < |ps| ==>
                  (EndsWalk(ps[i]) <==> AllRows(ps[..i + 1]) == RowsOf(Restrict(st.doc, s))))
            && end.vecDest == 0 && end.doc == st.doc
  {
    hide Restrict, SendVectors, Pages, AllRows, AfterRequest, MayTake, EndsWalk;
    var s := ScopeFromWire(scope, from);
    var serving := OnVectorReq(c, st, from, scope, now);
    assert ScopeMake(serving.vecScope, from) == s;
    EmptyRows(st.doc, s);
    PagesAreSent(c, serving);
    forall i | 0 <= i < |Pages(st.doc, s, 0)|
      ensures EndsWalk(Pages(st.doc, s, 0)[i])
              <==> AllRows(Pages(st.doc, s, 0)[..i + 1]) == RowsOf(Restrict(st.doc, s))
    {
      PagingIsComplete(st.doc, s, i);
    }
    PagingIsComplete(st.doc, s, 0);
  }

  lemma EmptyRows(t: seq<Entry>, s: Scope)
    ensures |Restrict(t[..0], s)| == 0
  {
  }
}
