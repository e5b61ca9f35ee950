/**
 The `/blob/` branches of `ahc`, `req_done` and the reaper tick of server.c over the real store.
 `spec` is the protocol state; every method takes exactly the protocol's step.
 */
module Server {
  import opened Words
  import opened Types
  import opened Probing
  import opened LinearProbing
  import opened Buckets
  import opened FreeLists
  import opened Balloc
  import opened Ownership
  import opened Protocol
  import opened Runs
  import opened Coupling
  import S = Storage
  import D = Debouncer

  const STORAGE_BLOBS_MAX: nat := 0x40000

  /** Every block handed out is large enough for a blob, and so larger than a link word. */
  ghost predicate LargeBlocks(view: seq<BucketView>) {
    forall o: Blk :: OwnedIn(view, o) ==> o.size >= BLOB_SIZE_MIN
  }

  lemma TakenIsLarge(view: seq<BucketView>, size: nat)
    requires LargeBlocks(view) && |view| == BUCKETS_COUNT && view[BucketOf(size)].free != [] && size >= BLOB_SIZE_MIN
    ensures LargeBlocks(Taken(view, size))
  {
    hide BucketOf;
    forall o: Blk | OwnedIn(Taken(view, size), o)
      ensures o.size >= BLOB_SIZE_MIN
    {
      if o.size != size {
        assert OwnedIn(view, o);
      }
    }
  }

  lemma ShrunkIsLarge(view: seq<BucketView>, view': seq<BucketView>)
    requires LargeBlocks(view) && S.Shrunk(view, view')
    ensures LargeBlocks(view')
  {
    hide OwnedIn;
  }

  lemma NoneIsLarge(view: seq<BucketView>)
    requires |view| == BUCKETS_COUNT && forall b :: 0 <= b < BUCKETS_COUNT ==> view[b].owned == map[]
    ensures LargeBlocks(view)
  {
    hide BucketOf;
  }

  /** An item is free, or handed out with more bytes in use than a link takes. */
  lemma InUseIsLarge(base: nat, view: seq<BucketView>, b: nat, p: nat)
    requires AllPartitioned(base, view) && LargeBlocks(view) && b < BUCKETS_COUNT && IsItem(base, b, p)
    ensures if p in view[b].owned then view[b].owned[p] > LINK_SIZE else p in view[b].free
  {
    hide BucketOf, IsItem;
    assert Partitioned(base, b, view[b]);
    if p in view[b].owned {
      assert OwnedIn(view, Blk(p, view[b].owned[p]));
    }
  }

  lemma TableSizeIsPowerOfTwo()
    ensures IsTableSize(STORAGE_BLOBS_MAX)
  {
    Pow2Table();
    assert Pow2(18) == 2 * Pow2(17);
  }

  class Server {
    const store: S.Store
    const debouncer: D.DebouncerTable
    var ctxs: map<Conn, ReqCtx>
    ghost var spec: State

    ghost predicate Valid()
      reads this, store.Repr(), debouncer.Repr()
    {
      ValidBut(spec.rate)
    }

    /** Valid, except that the rate limiter stands for `rate`. */
    ghost predicate ValidBut(rate: D.Table)
      reads this, store.Repr(), debouncer.Repr()
    {
      && this !in store.Repr() && this !in debouncer.Repr() && store.Repr() !! debouncer.Repr()
      && debouncer.Stands(rate) && debouncer.fold == D.Fold
      && store.Valid() && store.table.ids.Length == STORAGE_BLOBS_MAX
      && LargeBlocks(store.balloc.view)
      && Inv(spec)
      && Coupled(spec, ctxs, store.table.model, store.detached, store.balloc.mem[..])
    }

    constructor (hash: Key -> nat, base: nat)
      requires 0 < base && base + Footprint(BUCKETS_COUNT) <= U64
      ensures Valid() && spec == Init() && fresh(store.Repr()) && fresh(debouncer.Repr())
    {
      hide Footprint, LargeBlocks, OwnedIn, D.DebouncerTable.Stands, S.Store.Valid, Coupled, Inv;
      TableSizeIsPowerOfTwo();
      store := new S.Store(hash, STORAGE_BLOBS_MAX, base);
      debouncer := new D.DebouncerTable(D.Fold);
      ctxs := map[];
      spec := Init();
      new;
      InitCoupled(store.balloc.mem[..]);
      NoneIsLarge(store.balloc.view);
      InitInv();
    }

    /** Writes a context; the protocol's context changes with it. */
    method SetCtx(c: Conn, y: ReqCtx, ghost x: Ctx)
      requires Valid() && c in ctxs && c in spec.ctxs
      requires CtxOk(x) && x.sending == spec.ctxs[c].sending && y.blobSend == ctxs[c].blobSend
      requires x.posting == spec.ctxs[c].posting &&
               (x.posting ==> x.id == spec.ctxs[c].id && x.expected == spec.ctxs[c].expected)
      requires CtxCoupled(x, y, store.table.model, store.detached, store.balloc.mem[..])
      modifies this
      ensures Valid() && ctxs == old(ctxs)[c := y] && spec == WithCtx(old(spec), c, x)
    {
      hide S.Store.Valid, D.DebouncerTable.Stands, LargeBlocks, Inv, Coupled, CtxCoupled;
      ReplaceCtx(spec, ctxs, store.table.model, store.detached, store.balloc.mem[..], c, x, y);
      CtxKeepsInv(spec, c, x);
      ctxs := ctxs[c := y];
      spec := WithCtx(spec, c, x);
    }

    lemma OwnCtx(c: Conn)
      requires Valid() && c in ctxs
      ensures ctxs.Keys == spec.ctxs.Keys && CtxOk(spec.ctxs[c]) && (spec.ctxs[c].posting ==> Holds(spec, c))
      ensures CtxCoupled(spec.ctxs[c], ctxs[c], store.table.model, store.detached, store.balloc.mem[..])
    {
      hide S.Store.Valid, D.DebouncerTable.Stands, LargeBlocks, Inv, CtxsCoupled, CtxCoupled;
      CtxIsCoupled(spec, ctxs, store.table.model, store.detached, store.balloc.mem[..], c);
      CtxIsOk(spec, c);
    }

    lemma SameKeys()
      requires Valid()
      ensures ctxs.Keys == spec.ctxs.Keys && spec.blobs.Keys == store.table.model.Keys
    {
    }

    /** Marks the request as answered, nothing else. */
    method Finished(c: Conn)
      requires Valid() && c in ctxs
      modifies this
      ensures Valid() && ctxs == old(ctxs) && c in old(spec).ctxs
      ensures spec == WithCtx(old(spec), c, old(spec).ctxs[c].(answered := true))
    {
      hide S.Store.Valid, D.DebouncerTable.Stands, LargeBlocks, Inv, Coupled, CtxCoupled;
      OwnCtx(c);
      AnsweredIsCoupled(spec.ctxs[c], ctxs[c], store.table.model, store.detached, store.balloc.mem[..]);
      SetCtx(c, ctxs[c], spec.ctxs[c].(answered := true));
    }

    /** The first call for a request takes a zeroed context from the pool, if there is one, and may refuse
        the request for its rate. */
    method OpenRequest(c: Conn, check: Option<Check>) returns (out: Outcome)
      requires Valid() && Enabled(spec, Open(c, check))
      modifies this, debouncer.Repr()
      ensures Valid()
      ensures (spec, out) == Step(old(spec), Open(c, check))
    {
      hide S.Store.Valid, D.DebouncerTable.Stands, LargeBlocks, Inv, Coupled, D.Allow, D.Fold, D.Wrap;
      SameKeys();
      assert |ctxs| == |ctxs.Keys| == |spec.ctxs|;
      if |ctxs| >= REQUESTS_MAX {
        return Drop;
      }
      StepKeepsInv(spec, Open(c, check));
      var ok := RateCheck(check);
      TakeContext(c, ok, Rated(spec.rate, check).0);
      out := if ok then Continue else TooManyRequests;
    }

    /** Asks the rate limiter, unless the request is for a static page. */
    method RateCheck(check: Option<Check>) returns (ok: bool)
      requires Valid()
      modifies debouncer.Repr()
      ensures ValidBut(Rated(spec.rate, check).0) && ok == Rated(spec.rate, check).1
    {
      hide S.Store.Valid, LargeBlocks, Inv, Coupled, D.Allow, D.Allows, D.Fold, D.Wrap, D.Inv;
      if check.None? {
        return true;
      }
      var now := D.Wrap(check.value.time);
      ok := debouncer.AllowKey(check.value.client, now);
      D.AllowIs(spec.rate, D.Fold, check.value.client, now, debouncer.Value(), ok);
    }

    /** Gives a new request its context. */
    method TakeContext(c: Conn, ok: bool, ghost rate: D.Table)
      requires ValidBut(rate) && c !in spec.ctxs && Inv(WithCtx(spec.(rate := rate), c, FRESH.(answered := !ok)))
      modifies this
      ensures Valid() && spec == WithCtx(old(spec).(rate := rate), c, FRESH.(answered := !ok))
    {
      hide S.Store.Valid, D.DebouncerTable.Stands, LargeBlocks, Inv, Coupled;
      KeysAgree(spec, ctxs, store.table.model, store.detached, store.balloc.mem[..]);
      OpenCtx(spec, ctxs, store.table.model, store.detached, store.balloc.mem[..], c, FRESH.(answered := !ok), rate);
      ctxs := ctxs[c := ZEROED];
      spec := WithCtx(spec.(rate := rate), c, FRESH.(answered := !ok));
    }

    /** Any request outside the blob branches: a page, "not found", or a closed connection. */
    method OtherRequest(c: Conn, isPage: bool, hasBody: bool) returns (out: Outcome)
      requires Valid() && Enabled(spec, Other(c, isPage, hasBody))
      modifies this
      ensures Valid()
      ensures (spec, out) == Step(old(spec), Other(c, isPage, hasBody))
    {
      hide S.Store.Valid, D.DebouncerTable.Stands, LargeBlocks, Inv, Coupled;
      SameKeys();
      Finished(c);
      if hasBody {
        return Drop;
      }
      out := if isPage then Page else NotFound;
    }

    /** GET /blob/<id>: detaches a published blob and sends it from its block. */
    method GetBlob(c: Conn, id: Key) returns (out: Outcome)
      requires Valid() && Enabled(spec, Get(c, id))
      modifies this, store.Repr()
      ensures Valid()
      ensures (spec, out) == Step(old(spec), Get(c, id))
    {
      hide S.Store.Valid, D.DebouncerTable.Stands, LargeBlocks, Inv, Coupled, CtxCoupled;
      hide S.Store.Repr, S.Store.Core, Owners, OwnedIn, BucketOf, Slice;
      SameKeys();
      if IsNull(id) {
        Finished(c);
        return Drop;
      }
      ReadableIs(id);
      StepKeepsInv(spec, Get(c, id));
      if Readable(spec, id) {
        NotSending(c);
        StoreIsOwned();
        GetCoupled(spec, ctxs, store.balloc.view, store.table.model, store.detached, store.balloc.mem[..], c, id);
      }
      var blob := store.Get(id);
      if blob.size == 0 {
        Finished(c);
        return NotFound;
      }
      ctxs := ctxs[c := ctxs[c].(blobSend := blob)];
      spec := Step(spec, Get(c, id)).0;
      out := SendBlob(Slice(store.balloc.mem[..], blob));
    }

    /** An id is readable exactly when the table holds it with a publication time. */
    lemma ReadableIs(id: Key)
      requires Valid()
      ensures Readable(spec, id) <==>
              id in store.table.model && store.table.model[id].until != S.VALID_UNTIL_NOT_PUBLISHED
      ensures Readable(spec, id) ==>
                && spec.blobs[id].bytes == Slice(store.balloc.mem[..], store.table.model[id].blk)
                && |spec.blobs[id].bytes| == store.table.model[id].blk.size != 0
    {
      hide S.Store.Valid, D.DebouncerTable.Stands, LargeBlocks, CtxsCoupled, SendersCounted;
      if id in store.table.model {
        assert BlobCoupled(spec.blobs[id], store.table.model[id], store.balloc.mem[..]);
      }
    }

    lemma NotSending(c: Conn)
      requires Valid() && c in ctxs && c in spec.ctxs && !spec.ctxs[c].answered
      ensures ctxs[c].blobSend.size == 0
    {
      hide S.Store.Valid, D.DebouncerTable.Stands, LargeBlocks, Inv, Coupled;
      OwnCtx(c);
    }

    lemma StoreIsOwned()
      requires store.Valid()
      ensures Owners(store.balloc.view, store.table.model, store.detached)
    {
    }

    /** Ends a request: aborts an unfinished upload, frees a blob that was being sent. */
    method ReqDone(c: Conn) returns (out: Outcome)
      requires Valid() && Enabled(spec, Done(c))
      modifies this, store.Repr()
      ensures Valid()
      ensures (spec, out) == Step(old(spec), Done(c))
    {
      hide S.Store.Valid, D.DebouncerTable.Stands, LargeBlocks, Inv, Coupled, Kept, Owners, S.Shrunk, Slice;
      SameKeys();
      OwnCtx(c);
      var ctx := ctxs[c];
      ghost var m, view := store.balloc.mem[..], store.balloc.view;
      DoneCoupled(spec, ctxs, store.table.model, store.detached, m, c);
      StepKeepsInv(spec, Done(c));
      S.KeptSelf(store.balloc.view, m);
      if ctx.postBody.size != 0 {
        store.Abort(ctx.id);
      }
      if ctx.blobSend.size != 0 {
        FreeSent(ctx.blobSend, m, view);
      }
      ShrunkIsLarge(view, store.balloc.view);
      ctxs := ctxs - {c};
      spec := Step(spec, Done(c)).0;
      StoreIsOwned();
      MemoryMayChange(spec, ctxs, store.balloc.view, store.table.model, store.detached, m, store.balloc.mem[..]);
      out := Quiet;
    }

    /** Frees the block a finished GET was sending; all other blocks still read as in `m`. */
    method FreeSent(blk: Blk, ghost m: seq<byte>, ghost view0: seq<BucketView>)
      requires store.Valid() && blk.data in store.detached && store.detached[blk.data] == blk.size
      requires S.Shrunk(view0, store.balloc.view) && Kept(store.balloc.view, m, store.balloc.mem[..])
      modifies store.Repr()
      ensures store.Valid() && store.table.model == old(store.table.model) &&
              store.detached == old(store.detached) - {blk.data}
      ensures S.Shrunk(view0, store.balloc.view) && Kept(store.balloc.view, m, store.balloc.mem[..])
    {
      hide S.Store.Valid, D.DebouncerTable.Stands, Kept, Owners, S.Shrunk, Given, AllPartitioned, OwnedIn;
      ghost var view, m1 := store.balloc.view, store.balloc.mem[..];
      store.Free(blk);
      S.KeptOnward(view, store.balloc.view, m, m1, store.balloc.mem[..]);
      S.ShrunkOnward(view0, view, store.balloc.view);
    }

    lemma StoreParts()
      requires store.Valid()
      ensures store.balloc.Valid()
    {
    }

    /** The reaper timer fires. */
    method ReaperTick(now: uint32, simd: bool) returns (out: Outcome)
      requires Valid() && Enabled(spec, Tick(now))
      modifies this, store.Repr()
      ensures Valid()
      ensures (spec, out) == Step(old(spec), Tick(now))
    {
      hide S.Store.Valid, D.DebouncerTable.Stands, S.Shrunk, LargeBlocks, Inv, Coupled, Kept, Owners;
      ghost var m := store.balloc.mem[..];
      TickCoupled(spec, ctxs, store.table.model, store.detached, m, now);
      StepKeepsInv(spec, Tick(now));
      ghost var view := store.balloc.view;
      var hit := store.Reap(now, simd);
      assert !hit;
      ShrunkIsLarge(view, store.balloc.view);
      spec := Step(spec, Tick(now)).0;
      StoreIsOwned();
      MemoryMayChange(spec, ctxs, store.balloc.view, store.table.model, store.detached, m, store.balloc.mem[..]);
      out := Quiet;
    }

    /** The id check every POST call starts with: the first call fixes the id. */
    method Identify(c: Conn, id: Key) returns (ok: bool)
      requires Valid() && c in ctxs && c in spec.ctxs && !spec.ctxs[c].answered && !IsNull(id)
      modifies this
      ensures Valid() && c in ctxs && spec == WithCtx(old(spec), c, Identified(old(spec).ctxs[c], id))
      ensures ok <==> spec.ctxs[c].id == id
    {
      hide S.Store.Valid, D.DebouncerTable.Stands, LargeBlocks, Inv, Coupled, Slice;
      OwnCtx(c);
      ghost var x := spec.ctxs[c];
      assert WithCtx(spec, c, x) == spec;
      if !ctxs[c].haveId {
        SetCtx(c, ctxs[c].(id := id, haveId := true), Identified(x, id));
        return true;
      }
      return ctxs[c].id == id;
    }

    /** The last call of a POST: answers a deferred error, rejects an incomplete body, or commits. */
    method PostFinish(c: Conn, id: Key, now: nat) returns (out: Outcome)
      requires Valid() && Enabled(spec, Finish(c, id, now))
      modifies this, store.Repr()
      ensures Valid()
      ensures (spec, out) == Step(old(spec), Finish(c, id, now))
    {
      hide S.Store.Valid, D.DebouncerTable.Stands, LargeBlocks, Inv, Coupled, Slice;
      SameKeys();
      if IsNull(id) {
        Finished(c);
        return Drop;
      }
      ghost var x := Identified(spec.ctxs[c], id);
      WithCtxTwice(spec, c, x, x.(answered := true), spec.blobs);
      WithCtxTwice(spec, c, x, x.(posting := false, answered := true),
          spec.blobs[x.id := Published(x.got, now + BLOB_TTL_S)]);
      var ok := Identify(c, id);
      OwnCtx(c);
      var ctx := ctxs[c];
      if !ok {
        Finished(c);
        return Drop;
      }
      if ctx.deferred != NoError {
        Finished(c);
        return DeferredError(ctx.deferred);
      }
      if ctx.postBody.size == 0 || ctx.read != ctx.expected {
        Finished(c);
        return BadBlob;
      }
      var published := Commit(c, now);
      if !published {
        assert false;
      }
      return Stored;
    }

    /** Publishes a complete body and lets go of its block. */
    method Commit(c: Conn, now: nat) returns (ok: bool)
      requires Valid() && c in ctxs && c in spec.ctxs && now + BLOB_TTL_S < NOT_PUBLISHED
      requires ctxs[c].postBody.size != 0 && ctxs[c].read == ctxs[c].expected
      modifies this, store.Repr()
      ensures Valid() && ok
      ensures var x := old(spec).ctxs[c];
              && x.id in old(spec).blobs && x.posting && |x.got| == x.expected
              && spec == WithCtx(old(spec).(blobs := old(spec).blobs[x.id := Published(x.got, now + BLOB_TTL_S)]), c,
                                 x.(posting := false, answered := true))
    {
      hide S.Store.Valid, D.DebouncerTable.Stands, LargeBlocks, Inv, Coupled, Slice;
      OwnCtx(c);
      SameKeys();
      ghost var x := spec.ctxs[c];
      var validUntil := now + BLOB_TTL_S;
      PublishCoupled(spec, ctxs, store.table.model, store.detached, store.balloc.mem[..], c, validUntil);
      PublishKeepsInv(spec, c, x.(posting := false, answered := true), now);
      ok := store.Publish(ctxs[c].id, validUntil);
      if ok {
        ctxs := ctxs[c := ctxs[c].(postBody := NO_BLK)];
        spec := WithCtx(spec.(blobs := spec.blobs[x.id := Published(x.got, validUntil)]), c,
            x.(posting := false, answered := true));
      }
    }

    /** Copies a chunk behind what was received before, unless it overflows the declared length. */
    method AppendChunk(c: Conn, chunk: seq<byte>) returns (out: Outcome)
      requires Valid() && c in ctxs && c in spec.ctxs && spec.ctxs[c].posting && !spec.ctxs[c].answered
      modifies this, store.Repr()
      ensures Valid()
      ensures (spec, out) == Append(old(spec), c, old(spec).ctxs[c], chunk)
    {
      hide S.Store.Valid, D.DebouncerTable.Stands, LargeBlocks, Inv, Coupled, Slice, Owners, KeptBut, OwnedIn;
      OwnCtx(c);
      ghost var x := spec.ctxs[c];
      var ctx, incoming := ctxs[c], |chunk|;
      if ctx.read + incoming > ctx.expected {
        Finished(c);
        return Drop;
      }
      ghost var m := store.balloc.mem[..];
      StoreIsOwned();
      EntryIsOwned(store.balloc.view, store.table.model, store.detached, ctx.id);
      store.Write(ctx.postBody, ctx.read, chunk);
      WriteCoupled(spec, ctxs, store.balloc.view, store.table.model, store.detached, m, store.balloc.mem[..], c, chunk);
      CtxKeepsInv(spec, c, x.(got := x.got + chunk));
      ctxs := ctxs[c := ctx.(read := ctx.read + incoming)];
      spec := WithCtx(spec, c, x.(got := x.got + chunk));
      return Continue;
    }

    /** Remembers an error that the last call of the POST will answer. */
    method DeferError(c: Conn, error: Deferred)
      requires Valid() && c in ctxs && c in spec.ctxs && !spec.ctxs[c].posting && error != NoError
      modifies this
      ensures Valid() && c in ctxs && spec == WithCtx(old(spec), c, old(spec).ctxs[c].(deferred := error))
    {
      hide S.Store.Valid, D.DebouncerTable.Stands, LargeBlocks, Inv, Coupled, Slice;
      OwnCtx(c);
      SetCtx(c, ctxs[c].(deferred := error), spec.ctxs[c].(deferred := error));
    }

    /** Reserves the id and a block for the body, or reports why that is not possible. */
    method ReserveBlock(c: Conn) returns (error: Deferred)
      requires Valid() && c in ctxs && c in spec.ctxs && !spec.ctxs[c].posting && !spec.ctxs[c].answered
      requires spec.ctxs[c].haveId && spec.ctxs[c].deferred == NoError && spec.ctxs[c].expected != 0
      modifies this, store.Repr()
      ensures Valid() && c in ctxs
      ensures var s, x := old(spec), old(spec).ctxs[c];
              if x.id in s.blobs then error == Dup && spec == WithCtx(s, c, x.(deferred := Dup))
              else if BucketFull(s, BucketOf(x.expected)) then
                error == Oom && spec == WithCtx(s, c, x.(deferred := Oom))
              else
                && error == NoError
                && spec == WithCtx(s.(blobs := s.blobs[x.id := Pending(c, x.expected)]), c, x.(posting := true))
    {
      hide S.Store.Valid, D.DebouncerTable.Stands, LargeBlocks, Inv, Coupled, Slice, Owners;
      hide BucketOf, BucketFull, BlobsIn, SendersIn;
      hide KeysIn, DetachedIn, Capacity, OwnedIn, Taken, S.Store.NoRoom;
      OwnCtx(c);
      SameKeys();
      ghost var x := spec.ctxs[c];
      var ctx := ctxs[c];
      var taken := store.IsAlreadyTaken(ctx.id);
      if taken {
        DeferError(c, Dup);
        return Dup;
      }
      error := CreateBlock(c);
    }

    /** Reserves a block for an id that is not taken. */
    method CreateBlock(c: Conn) returns (error: Deferred)
      requires Valid() && c in ctxs && c in spec.ctxs && !spec.ctxs[c].posting && !spec.ctxs[c].answered
      requires spec.ctxs[c].haveId && spec.ctxs[c].deferred == NoError && spec.ctxs[c].expected != 0
      requires spec.ctxs[c].id !in spec.blobs
      modifies this, store.Repr()
      ensures Valid() && c in ctxs
      ensures var s, x := old(spec), old(spec).ctxs[c];
              if BucketFull(s, BucketOf(x.expected)) then
                error == Oom && spec == WithCtx(s, c, x.(deferred := Oom))
              else
                && error == NoError
                && spec == WithCtx(s.(blobs := s.blobs[x.id := Pending(c, x.expected)]), c, x.(posting := true))
    {
      hide S.Store.Valid, D.DebouncerTable.Stands, LargeBlocks, Inv, Coupled, Slice, Owners;
      hide BucketOf, BucketFull, BlobsIn, SendersIn;
      hide KeysIn, DetachedIn, Capacity, OwnedIn, Taken, S.Store.NoRoom;
      hide S.Store.Repr, S.Store.Core;
      OwnCtx(c);
      SameKeys();
      ghost var x := spec.ctxs[c];
      var ctx := ctxs[c];
      ghost var model, detached, m := store.table.model, store.detached, store.balloc.mem[..];
      RoomIs(x.expected);
      var blk := store.Create(ctx.id, ctx.expected);
      if blk.size == 0 {
        DeferError(c, Oom);
        return Oom;
      }
      StoreIsOwned();
      StoreParts();
      EntryIsOwned(store.balloc.view, store.table.model, store.detached, ctx.id);
      store.balloc.OwnedIsItem(blk);
      ReserveCoupled(spec, ctxs, model, detached, m, c, x, ctx, blk);
      ReserveKeepsInv(spec, c, x.(posting := true));
      ctxs := ctxs[c := ctx.(postBody := blk)];
      spec := WithCtx(spec.(blobs := spec.blobs[x.id := Pending(c, x.expected)]), c, x.(posting := true));
      return NoError;
    }

    /** Creating a blob fails exactly when the protocol calls its bucket full. */
    lemma RoomIs(size: nat)
      requires Valid() && BLOB_SIZE_MIN <= size
      ensures store.htableFree >= 128 && |store.balloc.view| == BUCKETS_COUNT
      ensures BucketFull(spec, BucketOf(size)) <==> store.NoRoom(BucketOf(size))
      ensures !store.NoRoom(BucketOf(size)) ==>
                store.balloc.view[BucketOf(size)].free != [] && LargeBlocks(Taken(store.balloc.view, size))
    {
      hide S.Store.Valid, D.DebouncerTable.Stands, LargeBlocks, Inv, Coupled, BucketOf, Taken;
      hide BucketFull, KeysIn, DetachedIn, Capacity;
      FullIsFull(spec, ctxs, store.table.model, store.detached, store.balloc.mem[..], BucketOf(size));
      store.NeverFull();
      store.NoFreeItem(BucketOf(size));
      if !store.NoRoom(BucketOf(size)) {
        TakenIsLarge(store.balloc.view, size);
      }
    }

    /** A POST call with data. */
    method PostData(c: Conn, id: Key, chunk: seq<byte>, declared: Option<nat>) returns (out: Outcome)
      requires Valid() && Enabled(spec, Data(c, id, chunk, declared))
      modifies this, store.Repr()
      ensures Valid()
      ensures (spec, out) == Step(old(spec), Data(c, id, chunk, declared))
    {
      hide S.Store.Valid, D.DebouncerTable.Stands, LargeBlocks, Inv, Coupled, Slice, BucketOf, BucketFull;
      SameKeys();
      if IsNull(id) {
        Finished(c);
        return Drop;
      }
      ghost var s, x := spec, Identified(spec.ctxs[c], id);
      WithCtxTwice(s, c, x, x.(answered := true), s.blobs);
      var ok := Identify(c, id);
      OwnCtx(c);
      if !ok {
        Finished(c);
        return Drop;
      }
      if ctxs[c].deferred != NoError {
        return Continue;
      }
      if ctxs[c].expected == 0 {
        if declared.None? || declared.value == ULONG_MAX || declared.value > BLOB_SIZE_MAX ||
            declared.value < BLOB_SIZE_MIN {
          Finished(c);
          return Drop;
        }
        WithCtxTwice(s, c, x, x.(expected := declared.value), s.blobs);
        SetCtx(c, ctxs[c].(expected := declared.value), x.(expected := declared.value));
        x := x.(expected := declared.value);
      }
      assert spec == WithCtx(s, c, x);
      out := ReceiveChunk(c, chunk);
      ReceiveCollapses(s, c, x, chunk);
    }

    /** Reserves a block on the first chunk, then appends. */
    method ReceiveChunk(c: Conn, chunk: seq<byte>) returns (out: Outcome)
      requires Valid() && c in ctxs && c in spec.ctxs && !spec.ctxs[c].answered
      requires spec.ctxs[c].haveId && spec.ctxs[c].deferred == NoError && spec.ctxs[c].expected != 0
      modifies this, store.Repr()
      ensures Valid()
      ensures (spec, out) == Receive(old(spec), c, old(spec).ctxs[c], chunk)
    {
      hide S.Store.Valid, D.DebouncerTable.Stands, LargeBlocks, Inv, Coupled, Slice, BucketOf, BucketFull;
      OwnCtx(c);
      if ctxs[c].postBody.size == 0 {
        ghost var s, x := spec, spec.ctxs[c];
        var error := ReserveBlock(c);
        if error != NoError {
          return Continue;
        }
        ghost var x' := x.(posting := true);
        AppendCollapses(s.(blobs := s.blobs[x.id := Pending(c, x.expected)]), c, x', chunk);
      }
      out := AppendChunk(c, chunk);
    }

    /** One turn of the main loop: libmicrohttpd's call, or the reaper timer. */
    method Handle(e: Event) returns (out: Outcome)
      requires Valid() && Enabled(spec, e)
      modifies this, store.Repr(), debouncer.Repr()
      ensures Valid()
      ensures (spec, out) == Step(old(spec), e)
    {
      hide S.Store.Valid, D.DebouncerTable.Stands, LargeBlocks, Inv, Coupled, Step;
      match e {
        case Open(c, check) => out := OpenRequest(c, check);
        case Get(c, id) => out := GetBlob(c, id);
        case Data(c, id, chunk, declared) => out := PostData(c, id, chunk, declared);
        case Finish(c, id, now) => out := PostFinish(c, id, now);
        case Other(c, isPage, hasBody) => out := OtherRequest(c, isPage, hasBody);
        case Done(c) => out := ReqDone(c);
        case Tick(now) => out := ReaperTick(now, true);
      }
    }

    /** The main loop over any sequence of events the calling convention allows: the server goes
        through the states of the protocol run and gives its answers. */
    method Serve(es: seq<Event>, ghost r: Run) returns (outs: seq<Outcome>)
      requires Valid() && Legal(Extend(r, es)) && Legal(r) && spec == At(r)
      modifies this, store.Repr(), debouncer.Repr()
      ensures Valid() && spec == At(Extend(r, es))
      ensures |outs| == |es|
      ensures forall i :: 0 <= i < |es| ==> LegalAnswer(r, es[..i + 1], outs[i])
    {
      hide S.Store.Valid, D.DebouncerTable.Stands, LargeBlocks, Inv, Coupled, Step, Enabled;
      outs := [];
      var i := 0;
      while i < |es|
        invariant 0 <= i <= |es| == |es[..i]| + |es[i..]| && |outs| == i
        invariant Valid() && Legal(Extend(r, es[..i])) && spec == At(Extend(r, es[..i]))
        invariant forall j :: 0 <= j < i ==> LegalAnswer(r, es[..j + 1], outs[j])
      {
        PrefixIsLegal(r, es, i + 1);
        assert es[..i + 1] == es[..i] + [es[i]];
        var out := Handle(es[i]);
        outs := outs + [out];
        i := i + 1;
      }
      assert es[..i] == es;
    }

    /** While a response is being sent, its block still holds exactly the blob that was delivered. */
    lemma SentBytesAreIntact(r: Run, c: Conn)
      requires Valid() && Legal(r) && spec == At(r) && c in ctxs && ctxs[c].blobSend.size != 0
      ensures LastSent(r, c) == Some(store.balloc.Bytes(ctxs[c].blobSend))
    {
      hide S.Store.Valid, D.DebouncerTable.Stands, LargeBlocks, Inv, Coupled, Slice;
      OwnCtx(c);
      SentStaysUntilDone(r, c);
    }

    /** A published entry's block holds exactly the body of the POST that stored it. */
    lemma StoredBytesAreIntact(r: Run, id: Key)
      requires Valid() && Legal(r) && spec == At(r) && id in store.table.model
      requires store.table.model[id].until != S.VALID_UNTIL_NOT_PUBLISHED
      ensures LastStored(r, id) == Some(store.balloc.Bytes(store.table.model[id].blk))
    {
      hide S.Store.Valid, D.DebouncerTable.Stands, LargeBlocks, Inv, Coupled, Slice;
      ReadableIs(id);
      ReadableIsLastStored(r, id);
    }

    /** Every arena byte is zero unless it lies in the first `size` bytes of a block in use or in the link
        word of a free item: no byte of a freed blob survives. */
    lemma NoFreedByteSurvives(x: nat)
      requires Valid() && store.balloc.base <= x < store.balloc.base + BUCKETS_COUNT * ARENA &&
               x < store.balloc.mem.Length
      requires store.balloc.mem[x] != 0
      ensures exists b: nat, p: nat ::
                && b < BUCKETS_COUNT == |store.balloc.view| && IsItem(store.balloc.base, b, p)
                && if p in store.balloc.view[b].owned then p <= x < p + store.balloc.view[b].owned[p]
                   else p in store.balloc.view[b].free && p <= x < p + LINK_SIZE
    {
      hide S.Store.Valid, D.DebouncerTable.Stands, Inv, Coupled, IsItem;
      store.NoByteSurvives(x);
      StoreParts();
      store.ViewIsPartitioned();
      var view := store.balloc.view;
      var b: nat, p: nat :| b < BUCKETS_COUNT == |view| && IsItem(store.balloc.base, b, p)
        && p <= x < p + if p in view[b].owned && view[b].owned[p] > LINK_SIZE then view[b].owned[p] else LINK_SIZE;
      InUseIsLarge(store.balloc.base, view, b, p);
    }

    /** Per bucket: free items, stored blobs and blobs being sent add up to the capacity. */
    lemma BlocksAreConserved(b: nat)
      requires Valid() && b < BUCKETS_COUNT
      ensures store.balloc.buckets.Length == BUCKETS_COUNT
      ensures store.balloc.buckets[b].free + |BlobsIn(spec, b)| + |SendersIn(spec, b)| == Capacity(b)
    {
      hide LargeBlocks, Inv, CtxsCoupled, BucketOf, Slice, Capacity, Owners, WellProbed, Represents, AllOk, AllClean;
      store.InUseIs(b);
      FullIsFull(spec, ctxs, store.table.model, store.detached, store.balloc.mem[..], b);
    }

    /** What the protocol calls a full bucket is one whose header counts no free item. */
    lemma FullIsNoFreeItem(b: nat)
      requires Valid() && b < BUCKETS_COUNT
      ensures store.balloc.buckets.Length == BUCKETS_COUNT
      ensures BucketFull(spec, b) <==> store.balloc.buckets[b].free == 0
    {
      BlocksAreConserved(b);
      hide Valid, BlobsIn, SendersIn, Capacity;
    }
  }
}
