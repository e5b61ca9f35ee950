/**
 How the concrete server state stands for a state of the protocol: contexts, table entries,
 detached blocks and memory on one side, plain blobs and contexts on the other.
 */
module Coupling {
  import opened Words
  import opened Types
  import opened Buckets
  import opened FreeLists
  import opened Balloc
  import opened LinearProbing
  import opened Ownership
  import opened Protocol
  import opened Runs
  import D = Debouncer

  /** `req_ctx_t`: the block receiving a POST body, the block being sent, and the progress made. */
  datatype ReqCtx = ReqCtx(postBody: Blk, blobSend: Blk, expected: nat, read: nat, id: Key, haveId: bool,
                           deferred: Deferred)

  const ZEROED := ReqCtx(NO_BLK, NO_BLK, 0, 0, NULL_KEY, false, NoError)

  type Table = map<Key, Entry>
  type Blocks = map<nat, nat>

  /** A context receiving a body owns the unpublished entry of its id, and the block holds what came in. */
  ghost predicate PostCoupled(x: Ctx, y: ReqCtx, model: Table, m: seq<byte>) {
    && y.id in model && model[y.id] == Entry(NOT_PUBLISHED, y.postBody)
    && y.read <= y.postBody.size == x.expected == |Slice(m, y.postBody)|
    && Slice(m, y.postBody)[..y.read] == x.got
  }

  /** A context sending a blob owns a detached block holding it. */
  ghost predicate SendCoupled(x: Ctx, y: ReqCtx, detached: Blocks, m: seq<byte>) {
    && y.blobSend.data in detached && detached[y.blobSend.data] == y.blobSend.size
    && x.sending == Some(Slice(m, y.blobSend)) && |Slice(m, y.blobSend)| == y.blobSend.size
  }

  ghost predicate CtxCoupled(x: Ctx, y: ReqCtx, model: Table, detached: Blocks, m: seq<byte>) {
    && x.haveId == y.haveId && x.id == y.id && x.expected == y.expected && x.deferred == y.deferred && |x.got| == y.read
    && (if y.postBody.size != 0 then x.posting && PostCoupled(x, y, model, m) else !x.posting)
    && (if y.blobSend.size != 0 then SendCoupled(x, y, detached, m) else x.sending == None)
  }

  ghost predicate BlobCoupled(b: Blob, e: Entry, m: seq<byte>) {
    && BlobSize(b) == e.blk.size
    && match b
       case Pending(_, _) => e.until == NOT_PUBLISHED
       case Published(bytes, t) => e.until == t && t != NOT_PUBLISHED && Slice(m, e.blk) == bytes
  }

  ghost predicate BlobsCoupled(blobs: map<Key, Blob>, model: Table, m: seq<byte>) {
    && blobs.Keys == model.Keys
    && forall k :: k in blobs ==> BlobCoupled(blobs[k], model[k], m)
  }

  ghost predicate CtxsCoupled(s: State, ctxs: map<Conn, ReqCtx>, model: Table, detached: Blocks, m: seq<byte>) {
    && s.ctxs.Keys == ctxs.Keys
    && (forall c :: c in ctxs ==> CtxCoupled(s.ctxs[c], ctxs[c], model, detached, m))
    && (forall c, d :: c in ctxs && d in ctxs && c != d && ctxs[c].blobSend.size != 0 && ctxs[d].blobSend.size != 0 ==>
          ctxs[c].blobSend.data != ctxs[d].blobSend.data)
  }

  ghost predicate SendersCounted(s: State, detached: Blocks) {
    forall b :: 0 <= b < BUCKETS_COUNT ==> |DetachedIn(detached, b)| == |SendersIn(s, b)|
  }

  ghost predicate Coupled(s: State, ctxs: map<Conn, ReqCtx>, model: Table, detached: Blocks, m: seq<byte>) {
    && BlobsCoupled(s.blobs, model, m)
    && CtxsCoupled(s, ctxs, model, detached, m)
    && SendersCounted(s, detached)
  }

  lemma SendersSame(s: State, s': State, detached: Blocks)
    requires SendersCounted(s, detached)
    requires forall c :: c in s.ctxs && s.ctxs[c].sending.Some? ==>
               c in s'.ctxs && s'.ctxs[c].sending == s.ctxs[c].sending
    requires forall c :: c in s'.ctxs && s'.ctxs[c].sending.Some? ==>
               c in s.ctxs && s'.ctxs[c].sending == s.ctxs[c].sending
    ensures SendersCounted(s', detached)
  {
    hide BucketOf;
    forall b | 0 <= b < BUCKETS_COUNT
      ensures SendersIn(s', b) == SendersIn(s, b)
    {
    }
  }

  /** Memory may change wherever no owned block lies. */
  lemma MemoryMayChange(s: State, ctxs: map<Conn, ReqCtx>, view: seq<BucketView>, model: Table, detached: Blocks,
                        m: seq<byte>, m': seq<byte>)
    requires Coupled(s, ctxs, model, detached, m)
    requires Owners(view, model, detached) && Kept(view, m, m')
    ensures Coupled(s, ctxs, model, detached, m')
  {
    hide OwnedIn, BucketOf, Slice, SendersCounted, Conserved;
    forall k | k in s.blobs
      ensures BlobCoupled(s.blobs[k], model[k], m')
    {
      assert BlobCoupled(s.blobs[k], model[k], m);
      assert OwnedIn(view, model[k].blk);
    }
    forall c | c in ctxs
      ensures CtxCoupled(s.ctxs[c], ctxs[c], model, detached, m')
    {
      var y := ctxs[c];
      assert CtxCoupled(s.ctxs[c], y, model, detached, m);
      if y.postBody.size != 0 {
        assert OwnedIn(view, model[y.id].blk);
      }
      if y.blobSend.size != 0 {
        assert OwnedIn(view, Blk(y.blobSend.data, detached[y.blobSend.data]));
      }
    }
  }

  /** Contexts stay coupled when one is replaced and the others are coupled to the new state. */
  lemma Assemble(s: State, ctxs: map<Conn, ReqCtx>, model: Table, detached: Blocks, m: seq<byte>, c: Conn, x: Ctx,
                 y: ReqCtx, blobs': map<Key, Blob>, model': Table, m': seq<byte>)
    requires CtxsCoupled(s, ctxs, model, detached, m) && c in ctxs && y.blobSend == ctxs[c].blobSend
    requires CtxCoupled(x, y, model', detached, m')
    requires forall d :: d in ctxs && d != c ==> CtxCoupled(s.ctxs[d], ctxs[d], model', detached, m')
    ensures CtxsCoupled(WithCtx(s.(blobs := blobs'), c, x), ctxs[c := y], model', detached, m')
  {
    hide CtxCoupled;
  }

  lemma CtxIsCoupled(s: State, ctxs: map<Conn, ReqCtx>, model: Table, detached: Blocks, m: seq<byte>, c: Conn)
    requires CtxsCoupled(s, ctxs, model, detached, m) && c in ctxs
    ensures s.ctxs.Keys == ctxs.Keys && CtxCoupled(s.ctxs[c], ctxs[c], model, detached, m)
  {
  }

  /** Replacing one context by another coupled one, its sending side unchanged. */
  lemma ReplaceCtx(s: State, ctxs: map<Conn, ReqCtx>, model: Table, detached: Blocks, m: seq<byte>, c: Conn, x: Ctx,
                   y: ReqCtx)
    requires Coupled(s, ctxs, model, detached, m) && c in ctxs
    requires CtxCoupled(x, y, model, detached, m) && x.sending == s.ctxs[c].sending && y.blobSend == ctxs[c].blobSend
    ensures Coupled(WithCtx(s, c, x), ctxs[c := y], model, detached, m)
  {
    hide CtxCoupled, BlobCoupled, BucketOf, SendersCounted;
    SendersSame(s, WithCtx(s, c, x), detached);
  }

  lemma OpenCtx(s: State, ctxs: map<Conn, ReqCtx>, model: Table, detached: Blocks, m: seq<byte>, c: Conn, x: Ctx,
                rate: D.Table)
    requires Coupled(s, ctxs, model, detached, m) && c !in ctxs && (x == FRESH || x == FRESH.(answered := true))
    ensures Coupled(WithCtx(s.(rate := rate), c, x), ctxs[c := ZEROED], model, detached, m)
  {
    hide BlobCoupled, BucketOf, PostCoupled, SendCoupled, SendersCounted;
    SendersSame(s, WithCtx(s.(rate := rate), c, x), detached);
  }

  lemma KeysAgree(s: State, ctxs: map<Conn, ReqCtx>, model: Table, detached: Blocks, m: seq<byte>)
    requires Coupled(s, ctxs, model, detached, m)
    ensures s.ctxs.Keys == ctxs.Keys && s.blobs.Keys == model.Keys
  {
  }

  lemma AnsweredIsCoupled(x: Ctx, y: ReqCtx, model: Table, detached: Blocks, m: seq<byte>)
    requires CtxCoupled(x, y, model, detached, m) && CtxOk(x)
    ensures CtxCoupled(x.(answered := true), y, model, detached, m) && CtxOk(x.(answered := true))
  {
  }

  /** A context keeps its coupling when entries of other ids, or other detached blocks, come and go. */
  lemma CtxFrame(x: Ctx, y: ReqCtx, model: Table, detached: Blocks, model': Table, detached': Blocks, m: seq<byte>)
    requires CtxCoupled(x, y, model, detached, m)
    requires y.postBody.size != 0 && y.id in model ==> y.id in model' && model'[y.id] == model[y.id]
    requires y.blobSend.size != 0 && y.blobSend.data in detached ==>
               y.blobSend.data in detached' && detached'[y.blobSend.data] == detached[y.blobSend.data]
    ensures CtxCoupled(x, y, model', detached', m)
  {
  }

  /** Reserving an id: the new entry's block will receive the body of request `c`. */
  lemma ReserveCoupled(s: State, ctxs: map<Conn, ReqCtx>, model: Table, detached: Blocks, m: seq<byte>,
                       c: Conn, x: Ctx, y: ReqCtx, blk: Blk)
    requires Coupled(s, ctxs, model, detached, m) && c in ctxs
    requires CtxCoupled(x, y, model, detached, m) && x.sending == s.ctxs[c].sending && y.blobSend == ctxs[c].blobSend
    requires !x.posting && x.got == [] && x.id !in model && blk.size == x.expected == |Slice(m, blk)| != 0
    ensures Coupled(WithCtx(s.(blobs := s.blobs[x.id := Pending(c, x.expected)]), c, x.(posting := true)),
                    ctxs[c := y.(postBody := blk)], model[x.id := Entry(NOT_PUBLISHED, blk)], detached, m)
  {
    hide BucketOf, Slice, SendersCounted, CtxsCoupled;
    var model', blobs' := model[x.id := Entry(NOT_PUBLISHED, blk)], s.blobs[x.id := Pending(c, x.expected)];
    var x', y' := x.(posting := true), y.(postBody := blk);
    CtxIsCoupled(s, ctxs, model, detached, m, c);
    assert PostCoupled(x', y', model', m);
    forall d | d in ctxs && d != c
      ensures CtxCoupled(s.ctxs[d], ctxs[d], model', detached, m)
    {
      CtxIsCoupled(s, ctxs, model, detached, m, d);
      CtxFrame(s.ctxs[d], ctxs[d], model, detached, model', detached, m);
    }
    Assemble(s, ctxs, model, detached, m, c, x', y', blobs', model', m);
    SendersSame(s, WithCtx(s.(blobs := blobs'), c, x'), detached);
  }

  /** Two requests never receive a body for the same id. */
  lemma PostersDiffer(s: State, c: Conn, d: Conn)
    requires Inv(s) && c in s.ctxs && d in s.ctxs && c != d && s.ctxs[c].posting && s.ctxs[d].posting
    ensures s.ctxs[c].id != s.ctxs[d].id
  {
    assert Holds(s, c) && Holds(s, d);
  }

  /** Copying a chunk behind what came in before; only the poster's block changes. */
  lemma WriteCoupled(s: State, ctxs: map<Conn, ReqCtx>, view: seq<BucketView>, model: Table, detached: Blocks,
                     m: seq<byte>, m': seq<byte>, c: Conn, chunk: seq<byte>)
    requires Inv(s) && Coupled(s, ctxs, model, detached, m) && Owners(view, model, detached)
    requires c in ctxs && ctxs[c].postBody.size != 0 && ctxs[c].read + |chunk| <= ctxs[c].expected
    requires KeptBut(view, m, m', ctxs[c].postBody.data)
    requires |Slice(m, ctxs[c].postBody)| == ctxs[c].postBody.size == ctxs[c].expected
    requires Slice(m', ctxs[c].postBody) == Patched(Slice(m, ctxs[c].postBody), ctxs[c].read, chunk)
    ensures Coupled(WithCtx(s, c, s.ctxs[c].(got := s.ctxs[c].got + chunk)),
                    ctxs[c := ctxs[c].(read := ctxs[c].read + |chunk|)], model, detached, m')
  {
    hide OwnedIn, BucketOf, Slice, Owners, SendersCounted, Inv, CtxsCoupled;
    CtxIsCoupled(s, ctxs, model, detached, m, c);
    var x, y := s.ctxs[c], ctxs[c];
    var x', y' := x.(got := x.got + chunk), y.(read := y.read + |chunk|);
    assert Slice(m', y.postBody)[..y'.read] == Slice(m, y.postBody)[..y.read] + chunk;
    EntryIsOwned(view, model, detached, y.id);
    SendKept(s, ctxs, view, model, detached, m, m', c);
    BlobsKept(s.blobs, view, model, detached, m, m', y.id);
    forall d | d in ctxs && d != c
      ensures CtxCoupled(s.ctxs[d], ctxs[d], model, detached, m')
    {
      CtxIsCoupled(s, ctxs, model, detached, m, d);
      OtherPostKept(s, ctxs, view, model, detached, m, m', c, d);
      SendKept(s, ctxs, view, model, detached, m, m', d);
    }
    Assemble(s, ctxs, model, detached, m, c, x', y', s.blobs, model, m');
    SendersSame(s, WithCtx(s, c, x'), detached);
  }

  lemma BlobsKept(blobs: map<Key, Blob>, view: seq<BucketView>, model: Table, detached: Blocks, m: seq<byte>,
                  m': seq<byte>, id: Key)
    requires BlobsCoupled(blobs, model, m) && Owners(view, model, detached)
    requires id in model && model[id].until == NOT_PUBLISHED && KeptBut(view, m, m', model[id].blk.data)
    ensures BlobsCoupled(blobs, model, m')
  {
    hide OwnedIn, BucketOf, Slice, Conserved;
    forall k | k in blobs
      ensures BlobCoupled(blobs[k], model[k], m')
    {
      assert BlobCoupled(blobs[k], model[k], m) && OwnedIn(view, model[k].blk);
    }
  }

  lemma SendKept(s: State, ctxs: map<Conn, ReqCtx>, view: seq<BucketView>, model: Table, detached: Blocks,
                 m: seq<byte>, m': seq<byte>, d: Conn)
    requires CtxsCoupled(s, ctxs, model, detached, m) && Owners(view, model, detached) && d in ctxs
    requires exists p :: p !in detached && KeptBut(view, m, m', p)
    ensures ctxs[d].blobSend.size != 0 ==> SendCoupled(s.ctxs[d], ctxs[d], detached, m')
  {
    hide OwnedIn, BucketOf, Slice, Conserved;
    var y := ctxs[d];
    assert CtxCoupled(s.ctxs[d], y, model, detached, m);
    if y.blobSend.size != 0 {
      assert OwnedIn(view, Blk(y.blobSend.data, detached[y.blobSend.data]));
    }
  }

  lemma OtherPostKept(s: State, ctxs: map<Conn, ReqCtx>, view: seq<BucketView>, model: Table, detached: Blocks,
                      m: seq<byte>, m': seq<byte>, c: Conn, d: Conn)
    requires Inv(s) && CtxsCoupled(s, ctxs, model, detached, m) && Owners(view, model, detached)
    requires c in ctxs && d in ctxs && c != d && ctxs[c].postBody.size != 0 &&
             KeptBut(view, m, m', ctxs[c].postBody.data)
    ensures ctxs[d].postBody.size != 0 ==> PostCoupled(s.ctxs[d], ctxs[d], model, m')
  {
    hide OwnedIn, BucketOf, Slice, Conserved, Inv;
    assert CtxCoupled(s.ctxs[c], ctxs[c], model, detached, m);
    assert CtxCoupled(s.ctxs[d], ctxs[d], model, detached, m);
    if ctxs[d].postBody.size != 0 {
      PostersDiffer(s, c, d);
      assert OwnedIn(view, model[ctxs[d].id].blk);
    }
  }

  /** Publishing a complete body. */
  lemma PublishCoupled(s: State, ctxs: map<Conn, ReqCtx>, model: Table, detached: Blocks, m: seq<byte>, c: Conn,
                       t: uint32)
    requires Inv(s) && Coupled(s, ctxs, model, detached, m) && c in ctxs
    requires ctxs[c].postBody.size != 0 && ctxs[c].read == ctxs[c].expected && t < NOT_PUBLISHED
    ensures ctxs[c].id in model
    ensures Coupled(WithCtx(s.(blobs := s.blobs[s.ctxs[c].id := Published(s.ctxs[c].got, t)]), c,
                            s.ctxs[c].(posting := false, answered := true)),
                    ctxs[c := ctxs[c].(postBody := NO_BLK)], model[ctxs[c].id := model[ctxs[c].id].(until := t)],
                    detached, m)
  {
    hide BucketOf, Slice, Inv, SendersCounted, CtxsCoupled;
    CtxIsCoupled(s, ctxs, model, detached, m, c);
    var x, y := s.ctxs[c], ctxs[c];
    var model' := model[y.id := model[y.id].(until := t)];
    var x', y' := x.(posting := false, answered := true), y.(postBody := NO_BLK);
    var blobs' := s.blobs[x.id := Published(x.got, t)];
    assert Slice(m, y.postBody) == x.got;
    assert BlobCoupled(blobs'[x.id], model'[x.id], m);
    forall d | d in ctxs && d != c
      ensures CtxCoupled(s.ctxs[d], ctxs[d], model', detached, m)
    {
      CtxIsCoupled(s, ctxs, model, detached, m, d);
      if ctxs[d].postBody.size != 0 {
        PostersDiffer(s, c, d);
      }
      CtxFrame(s.ctxs[d], ctxs[d], model, detached, model', detached, m);
    }
    Assemble(s, ctxs, model, detached, m, c, x', y', blobs', model', m);
    SendersSame(s, WithCtx(s.(blobs := blobs'), c, x'), detached);
  }

  lemma OneMoreSender(s: State, s': State, c: Conn, x: Ctx, b: nat)
    requires c !in s.ctxs || s.ctxs[c].sending.None?
    requires s'.ctxs == s.ctxs[c := x] && x.sending.Some?
    ensures |SendersIn(s', b)| == |SendersIn(s, b)| + if BucketOf(|x.sending.value|) == b then 1 else 0
  {
    hide BucketOf;
    forall d
      ensures d in SendersIn(s', b) <==> d in SendersIn(s, b) || (d == c && BucketOf(|x.sending.value|) == b)
    {
    }
    assert c !in SendersIn(s, b);
    if BucketOf(|x.sending.value|) == b {
      assert SendersIn(s', b) == SendersIn(s, b) + {c};
    } else {
      assert SendersIn(s', b) == SendersIn(s, b);
    }
  }

  lemma AddSender(s: State, s': State, detached: Blocks, c: Conn, blk: Blk, x: Ctx)
    requires SendersCounted(s, detached) && blk.data !in detached
    requires c in s.ctxs && s.ctxs[c].sending.None? && s'.ctxs == s.ctxs[c := x]
    requires x.sending.Some? && |x.sending.value| == blk.size
    ensures SendersCounted(s', detached[blk.data := blk.size])
  {
    hide BucketOf, SendersIn, DetachedIn;
    forall b | 0 <= b < BUCKETS_COUNT
      ensures |DetachedIn(detached[blk.data := blk.size], b)| == |SendersIn(s', b)|
    {
      AddDetached(detached, blk.data, blk.size, b);
      OneMoreSender(s, s', c, x, b);
    }
  }

  lemma RemoveSender(s: State, s': State, detached: Blocks, c: Conn, p: nat)
    requires SendersCounted(s, detached) && p in detached
    requires c in s.ctxs && s.ctxs[c].sending.Some? && |s.ctxs[c].sending.value| == detached[p] &&
             s'.ctxs == s.ctxs - {c}
    ensures SendersCounted(s', detached - {p})
  {
    hide BucketOf, SendersIn, DetachedIn;
    forall b | 0 <= b < BUCKETS_COUNT
      ensures |DetachedIn(detached - {p}, b)| == |SendersIn(s', b)|
    {
      RemoveDetached(detached, p, b);
      assert s.ctxs == s'.ctxs[c := s.ctxs[c]];
      OneMoreSender(s', s, c, s.ctxs[c], b);
    }
  }

  /** Handing a published blob to a GET. */
  lemma GetCoupled(s: State, ctxs: map<Conn, ReqCtx>, view: seq<BucketView>, model: Table, detached: Blocks,
                   m: seq<byte>, c: Conn, id: Key)
    requires Coupled(s, ctxs, model, detached, m) && Owners(view, model, detached)
    requires c in ctxs && ctxs[c].blobSend.size == 0 && id in s.blobs && s.blobs[id].Published? &&
             |s.blobs[id].bytes| != 0
    ensures id in model
    ensures Coupled(WithCtx(s.(blobs := s.blobs - {id}), c,
                            s.ctxs[c].(answered := true, sending := Some(s.blobs[id].bytes))),
                    ctxs[c := ctxs[c].(blobSend := model[id].blk)], model - {id},
                    detached[model[id].blk.data := model[id].blk.size], m)
  {
    hide BucketOf, Slice, Owners, SendersCounted, CtxsCoupled;
    CtxIsCoupled(s, ctxs, model, detached, m, c);
    assert BlobCoupled(s.blobs[id], model[id], m);
    EntryIsOwned(view, model, detached, id);
    var blk := model[id].blk;
    var x', y' := s.ctxs[c].(answered := true, sending := Some(s.blobs[id].bytes)), ctxs[c].(blobSend := blk);
    var s' := WithCtx(s.(blobs := s.blobs - {id}), c, x');
    assert SendCoupled(x', y', detached[blk.data := blk.size], m);
    forall d | d in ctxs
      ensures CtxCoupled(s.ctxs[d], ctxs[d], model - {id}, detached[blk.data := blk.size], m)
      ensures ctxs[d].blobSend.size != 0 ==> ctxs[d].blobSend.data != blk.data
    {
      CtxIsCoupled(s, ctxs, model, detached, m, d);
      CtxFrame(s.ctxs[d], ctxs[d], model, detached, model - {id}, detached[blk.data := blk.size], m);
    }
    SenderJoins(s, ctxs, model, detached, m, c, x', y', model - {id}, s.blobs - {id});
    AddSender(s, s', detached, c, blk, x');
  }

  lemma SenderJoins(s: State, ctxs: map<Conn, ReqCtx>, model: Table, detached: Blocks, m: seq<byte>, c: Conn, x: Ctx,
                    y: ReqCtx, model': Table, blobs': map<Key, Blob>)
    requires CtxsCoupled(s, ctxs, model, detached, m) && c in ctxs
    requires var detached' := detached[y.blobSend.data := y.blobSend.size];
             && CtxCoupled(x, y, model', detached', m)
             && forall d :: d in ctxs && d != c ==> CtxCoupled(s.ctxs[d], ctxs[d], model', detached', m)
    requires forall d :: d in ctxs && ctxs[d].blobSend.size != 0 ==> ctxs[d].blobSend.data != y.blobSend.data
    ensures CtxsCoupled(WithCtx(s.(blobs := blobs'), c, x), ctxs[c := y], model',
                        detached[y.blobSend.data := y.blobSend.size], m)
  {
    hide CtxCoupled;
  }

  /** Ending a request: its reservation and the block it was sending are gone, all else stays. */
  lemma DoneCoupled(s: State, ctxs: map<Conn, ReqCtx>, model: Table, detached: Blocks, m: seq<byte>, c: Conn)
    requires Inv(s) && Coupled(s, ctxs, model, detached, m) && c in ctxs
    ensures c in s.ctxs
    ensures Coupled(StepDone(s, c).0, ctxs - {c},
                    if ctxs[c].postBody.size != 0 then model - {ctxs[c].id} else model,
                    if ctxs[c].blobSend.size != 0 then detached - {ctxs[c].blobSend.data} else detached, m)
  {
    hide BucketOf, Slice, SendersCounted, Inv;
    CtxIsCoupled(s, ctxs, model, detached, m, c);
    var y := ctxs[c];
    var model' := if y.postBody.size != 0 then model - {y.id} else model;
    var detached' := if y.blobSend.size != 0 then detached - {y.blobSend.data} else detached;
    forall d | d in ctxs && d != c
      ensures CtxCoupled(s.ctxs[d], ctxs[d], model', detached', m)
    {
      CtxIsCoupled(s, ctxs, model, detached, m, d);
      if y.postBody.size != 0 && ctxs[d].postBody.size != 0 {
        PostersDiffer(s, c, d);
      }
      CtxFrame(s.ctxs[d], ctxs[d], model, detached, model', detached', m);
    }
    if y.blobSend.size != 0 {
      RemoveSender(s, StepDone(s, c).0, detached, c, y.blobSend.data);
    } else {
      SendersSame(s, StepDone(s, c).0, detached);
    }
  }

  /** What a tick removes from the table is what it removes from the protocol state. */
  lemma TickCoupled(s: State, ctxs: map<Conn, ReqCtx>, model: Table, detached: Blocks, m: seq<byte>, now: uint32)
    requires Coupled(s, ctxs, model, detached, m) && now <= NOT_PUBLISHED
    ensures Coupled(s.(blobs := s.blobs - Overdue(s, now)), ctxs,
                    model - (set k | k in model && model[k].until < now), detached, m)
  {
    hide BucketOf, Slice, SendersCounted;
    var gone := set k | k in model && model[k].until < now;
    forall k | k in model
      ensures k in gone <==> k in Overdue(s, now)
    {
      assert BlobCoupled(s.blobs[k], model[k], m);
    }
    assert gone == Overdue(s, now);
    forall d | d in ctxs
      ensures CtxCoupled(s.ctxs[d], ctxs[d], model - gone, detached, m)
    {
      CtxIsCoupled(s, ctxs, model, detached, m, d);
      CtxFrame(s.ctxs[d], ctxs[d], model, detached, model - gone, detached, m);
    }
    SendersSame(s, s.(blobs := s.blobs - Overdue(s, now)), detached);
  }

  /** A bucket has no free item exactly when the protocol calls it full. */
  lemma FullIsFull(s: State, ctxs: map<Conn, ReqCtx>, model: Table, detached: Blocks, m: seq<byte>, b: nat)
    requires Coupled(s, ctxs, model, detached, m) && b < BUCKETS_COUNT
    ensures |BlobsIn(s, b)| == |KeysIn(model, b)| && |SendersIn(s, b)| == |DetachedIn(detached, b)|
    ensures BucketFull(s, b) <==> |KeysIn(model, b)| + |DetachedIn(detached, b)| >= Capacity(b)
  {
    hide BucketOf, Slice, CtxsCoupled, Capacity;
    assert BlobsIn(s, b) == KeysIn(model, b) by {
      forall k | k in model
        ensures BlobSize(s.blobs[k]) == model[k].blk.size
      {
        assert BlobCoupled(s.blobs[k], model[k], m);
      }
    }
  }

  /** Writing the context first and then receiving is the same as receiving with it: contexts other than
      the one written do not change how many requests send from a bucket. */
  lemma ReceiveCollapses(s: State, c: Conn, x: Ctx, chunk: seq<byte>)
    requires c in s.ctxs && s.ctxs[c].sending.None? && x.sending.None?
    ensures Receive(WithCtx(s, c, x), c, x, chunk) == Receive(s, c, x, chunk)
  {
    hide BucketOf;
    var b := BucketOf(x.expected);
    assert BlobsIn(WithCtx(s, c, x), b) == BlobsIn(s, b);
    assert SendersIn(WithCtx(s, c, x), b) == SendersIn(s, b);
    AppendCollapses(s, c, x, chunk);
    WithCtxTwice(s, c, x, x.(deferred := Dup), s.blobs);
    WithCtxTwice(s, c, x, x.(deferred := Oom), s.blobs);
    var s' := s.(blobs := s.blobs[x.id := Pending(c, x.expected)]);
    WithCtxTwice(s', c, x, x.(posting := true, answered := true), s'.blobs);
    WithCtxTwice(s', c, x, x.(posting := true, got := x.got + chunk), s'.blobs);
  }

  lemma InitCoupled(m: seq<byte>)
    ensures Coupled(Init(), map[], map[], map[], m)
  {
    hide BucketOf;
    forall b | 0 <= b < BUCKETS_COUNT
      ensures DetachedIn(map[], b) == {} && SendersIn(Init(), b) == {}
    {
    }
  }
}
