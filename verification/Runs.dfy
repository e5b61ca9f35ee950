/**
 What holds in every run of the request protocol: over every interleaving of requests and
 reaper ticks that the calling convention allows.
 */
module Runs {
  import opened Words
  import opened Types
  import opened Buckets
  import opened Protocol

  /** The request `c` holds the reservation of its id. */
  ghost predicate Holds(s: State, c: Conn) {
    && c in s.ctxs
    && s.ctxs[c].id in s.blobs
    && s.blobs[s.ctxs[c].id] == Pending(c, s.ctxs[c].expected)
  }

  /** Requests receiving a body and unpublished blobs correspond one to one. */
  ghost predicate Matched(s: State) {
    && (forall c :: c in s.ctxs && s.ctxs[c].posting ==> Holds(s, c))
    && (forall k :: k in s.blobs && s.blobs[k].Pending? ==>
          var c := s.blobs[k].owner; c in s.ctxs && s.ctxs[c].posting && s.ctxs[c].id == k)
  }

  /** A context that can still receive data is well formed. */
  ghost predicate CtxOk(x: Ctx) {
    && (x.posting ==>
          x.haveId && x.deferred == NoError && BLOB_SIZE_MIN <= x.expected <= BLOB_SIZE_MAX && |x.got| <= x.expected)
    && (x.haveId ==> !IsNull(x.id))
    && (x.expected != 0 ==> BLOB_SIZE_MIN <= x.expected <= BLOB_SIZE_MAX)
    && (!x.posting && !x.answered ==> x.got == [])
    && (!x.answered ==> x.sending.None?)
  }

  ghost predicate Inv(s: State) {
    && Matched(s)
    && (forall c :: c in s.ctxs ==> CtxOk(s.ctxs[c]))
    && (forall k :: k in s.blobs ==> !IsNull(k) && BLOB_SIZE_MIN <= BlobSize(s.blobs[k]) <= BLOB_SIZE_MAX)
    && (forall k :: k in s.blobs && s.blobs[k].Published? ==> s.blobs[k].until < NOT_PUBLISHED)
  }

  lemma InitInv()
    ensures Inv(Init())
  {
  }

  /** Every step the calling convention allows keeps the invariant. */
  lemma StepKeepsInv(s: State, e: Event)
    requires Inv(s) && Enabled(s, e)
    ensures Inv(Step(s, e).0)
  {
    hide Inv, BucketOf, StepData, StepFinish, StepDone, StepGet, StepOpen, Overdue;
    match e {
      case Data(c, id, chunk, declared) => DataKeepsInv(s, c, id, chunk, declared);
      case Finish(c, id, now) => FinishKeepsInv(s, c, id, now);
      case Done(c) => DoneKeepsInv(s, c);
      case Tick(now) => TickKeepsInv(s, now);
      case Get(c, id) => GetKeepsInv(s, c, id);
      case Open(c, check) => OpenKeepsInv(s, c, check);
      case Other(c, _, _) =>
        CtxIsOk(s, c);
        CtxKeepsInv(s, c, s.ctxs[c].(answered := true));
    }
  }

  lemma OpenKeepsInv(s: State, c: Conn, check: Option<Check>)
    requires Inv(s) && c !in s.ctxs
    ensures Inv(StepOpen(s, c, check).0)
  {
    hide Rated;
  }

  lemma CtxIsOk(s: State, c: Conn)
    requires Inv(s) && c in s.ctxs
    ensures CtxOk(s.ctxs[c]) && (s.ctxs[c].posting ==> Holds(s, c))
  {
  }

  /** Replacing a context by one with the same reservation keeps the invariant. */
  lemma CtxKeepsInv(s: State, c: Conn, x: Ctx)
    requires Inv(s) && c in s.ctxs && CtxOk(x)
    requires x.posting == s.ctxs[c].posting && (x.posting ==> x.id == s.ctxs[c].id && x.expected == s.ctxs[c].expected)
    ensures Inv(WithCtx(s, c, x))
  {
  }

  /** Reserving a free id for a request that holds none. */
  lemma ReserveKeepsInv(s: State, c: Conn, x: Ctx)
    requires Inv(s) && c in s.ctxs && !s.ctxs[c].posting && x.posting && CtxOk(x) && x.id !in s.blobs
    ensures Inv(WithCtx(s.(blobs := s.blobs[x.id := Pending(c, x.expected)]), c, x))
  {
  }

  lemma DataKeepsInv(s: State, c: Conn, id: Key, chunk: seq<byte>, declared: Option<nat>)
    requires Inv(s) && c in s.ctxs && !s.ctxs[c].answered
    ensures Inv(StepData(s, c, id, chunk, declared).0)
  {
    hide BucketFull, BucketOf, Inv;
    CtxIsOk(s, c);
    var s' := StepData(s, c, id, chunk, declared).0;
    assert c in s'.ctxs;
    if s'.blobs == s.blobs {
      CtxKeepsInv(s, c, s'.ctxs[c]);
    } else {
      ReserveKeepsInv(s, c, s'.ctxs[c]);
    }
  }

  lemma FinishKeepsInv(s: State, c: Conn, id: Key, now: nat)
    requires Inv(s) && c in s.ctxs && !s.ctxs[c].answered && now + BLOB_TTL_S < NOT_PUBLISHED
    ensures Inv(StepFinish(s, c, id, now).0)
    ensures StepFinish(s, c, id, now).1 != PublishFailed
  {
    hide Inv;
    CtxIsOk(s, c);
    var s', out := StepFinish(s, c, id, now).0, StepFinish(s, c, id, now).1;
    if out == Stored {
      PublishKeepsInv(s, c, s'.ctxs[c], now);
    } else {
      CtxKeepsInv(s, c, s'.ctxs[c]);
    }
  }

  /** Publishing ends the request's reservation and makes the blob readable. */
  lemma PublishKeepsInv(s: State, c: Conn, x: Ctx, now: nat)
    requires Inv(s) && c in s.ctxs && s.ctxs[c].posting && x == s.ctxs[c].(posting := false, answered := true)
    requires |x.got| == x.expected && now + BLOB_TTL_S < NOT_PUBLISHED
    ensures Inv(WithCtx(s.(blobs := s.blobs[x.id := Published(x.got, now + BLOB_TTL_S)]), c, x))
  {
    assert Holds(s, c) && CtxOk(s.ctxs[c]);
  }

  lemma GetKeepsInv(s: State, c: Conn, id: Key)
    requires Inv(s) && c in s.ctxs && !s.ctxs[c].answered
    ensures Inv(StepGet(s, c, id).0)
  {
    hide Inv;
    CtxIsOk(s, c);
    var s' := StepGet(s, c, id).0;
    if s'.blobs == s.blobs {
      CtxKeepsInv(s, c, s'.ctxs[c]);
    } else {
      RemoveKeepsInv(s, id);
      CtxIsOk(s.(blobs := s.blobs - {id}), c);
      CtxKeepsInv(s.(blobs := s.blobs - {id}), c, s'.ctxs[c]);
    }
  }

  /** Taking a published blob out disturbs no reservation. */
  lemma RemoveKeepsInv(s: State, id: Key)
    requires Inv(s) && id in s.blobs && s.blobs[id].Published?
    ensures Inv(s.(blobs := s.blobs - {id}))
  {
  }

  lemma DoneKeepsInv(s: State, c: Conn)
    requires Inv(s) && c in s.ctxs
    ensures Inv(StepDone(s, c).0)
  {
    assert s.ctxs[c].posting ==> Holds(s, c);
  }

  lemma TickKeepsInv(s: State, now: nat)
    requires Inv(s)
    ensures Inv(s.(blobs := s.blobs - Overdue(s, now)))
  {
  }

  // ---------- runs ----------

  datatype Run = Start | Then(before: Run, last: Event)

  /** Every event of the run is one the calling convention allows where it happens. */
  ghost predicate Legal(r: Run)
    decreases r, 0
  {
    match r
    case Start => true
    case Then(before, last) => Legal(before) && Enabled(At(before), last)
  }

  /** The state a run ends in. */
  ghost function At(r: Run): State
    requires Legal(r)
    decreases r, 1
  {
    match r
    case Start => Init()
    case Then(before, last) => Step(At(before), last).0
  }

  /** The answer to the last event of a run. */
  ghost function Answer(r: Run): Outcome
    requires Legal(r) && r.Then?
  {
    Step(At(r.before), r.last).1
  }

  /** A run going on with the events `es`. */
  ghost function Extend(r: Run, es: seq<Event>): Run {
    if es == [] then r else Then(Extend(r, es[..|es| - 1]), es[|es| - 1])
  }

  /** After `es` the run is legal and its last answer is `out`. */
  ghost predicate LegalAnswer(r: Run, es: seq<Event>, out: Outcome) {
    es != [] && Legal(Extend(r, es)) && Answer(Extend(r, es)) == out
  }

  lemma {:induction false} PrefixIsLegal(r: Run, es: seq<Event>, n: nat)
    requires Legal(Extend(r, es)) && n <= |es|
    ensures Legal(Extend(r, es[..n]))
  {
    hide Enabled, Step;
    if n == |es| {
      assert es[..n] == es;
    } else {
      var front := es[..|es| - 1];
      PrefixIsLegal(r, front, n);
      assert front[..n] == es[..n];
    }
  }

  lemma {:induction false} RunInv(r: Run)
    requires Legal(r)
    ensures Inv(At(r))
  {
    if r.Then? {
      RunInv(r.before);
      StepKeepsInv(At(r.before), r.last);
    }
  }

  /** Committing a POST never fails: the entry it reserved is always still there. */
  lemma PublishNeverFails(r: Run)
    requires Legal(r) && r.Then?
    ensures Answer(r) != PublishFailed
  {
    RunInv(r.before);
    if r.last.Finish? {
      FinishKeepsInv(At(r.before), r.last.conn, r.last.id, r.last.now);
    }
  }

  // ---------- one delivery per publication ----------

  ghost predicate Stores(r: Run, id: Key)
    requires Legal(r)
  {
    r.Then? && r.last.Finish? && r.last.id == id && Answer(r) == Stored
  }

  ghost predicate Delivers(r: Run, id: Key)
    requires Legal(r)
  {
    r.Then? && r.last.Get? && r.last.id == id && Answer(r).SendBlob?
  }

  ghost predicate Expires(r: Run, id: Key)
    requires Legal(r)
  {
    r.Then? && r.last.Tick? && id in Overdue(At(r.before), r.last.now)
  }

  function Bit(b: bool): nat {
    if b then 1 else 0
  }

  ghost function StoreCount(r: Run, id: Key): nat
    requires Legal(r)
  {
    if r.Start? then 0 else StoreCount(r.before, id) + Bit(Stores(r, id))
  }

  ghost function DeliverCount(r: Run, id: Key): nat
    requires Legal(r)
  {
    if r.Start? then 0 else DeliverCount(r.before, id) + Bit(Delivers(r, id))
  }

  ghost function ExpireCount(r: Run, id: Key): nat
    requires Legal(r)
  {
    if r.Start? then 0 else ExpireCount(r.before, id) + Bit(Expires(r, id))
  }

  ghost predicate Readable(s: State, id: Key) {
    id in s.blobs && s.blobs[id].Published?
  }

  /** One event makes an id readable only by storing it, and unreadable only by delivering or expiring it. */
  lemma ReadableStep(r: Run, id: Key)
    requires Legal(r) && r.Then?
    ensures Bit(Readable(At(r.before), id)) + Bit(Stores(r, id))
         == Bit(Readable(At(r), id)) + Bit(Delivers(r, id)) + Bit(Expires(r, id))
  {
    hide Step, Enabled, Inv, Readable;
    RunInv(r.before);
    ReadableByStep(At(r.before), r.last, id);
  }

  lemma ReadableByStep(s: State, e: Event, id: Key)
    requires Inv(s) && Enabled(s, e)
    ensures Bit(Readable(s, id)) + Bit(e.Finish? && e.id == id && Step(s, e).1 == Stored)
         == Bit(Readable(Step(s, e).0, id)) + Bit(e.Get? && e.id == id && Step(s, e).1.SendBlob?)
            + Bit(e.Tick? && id in Overdue(s, e.now))
  {
    hide BucketOf, BucketFull, Inv, StepData, StepFinish, StepGet, StepDone;
    match e {
      case Data(c, k, chunk, declared) => DataStoresNothing(s, c, k, chunk, declared, id);
      case Finish(c, k, now) => FinishStores(s, c, k, now, id);
      case Get(c, k) => GetDelivers(s, c, k, id);
      case Done(c) => DoneKeepsReadable(s, c, id);
      case _ =>
    }
  }

  lemma FinishStores(s: State, c: Conn, k: Key, now: nat, id: Key)
    requires Inv(s) && c in s.ctxs
    ensures Bit(Readable(s, id)) + Bit(k == id && StepFinish(s, c, k, now).1 == Stored)
         == Bit(Readable(StepFinish(s, c, k, now).0, id))
  {
    hide Inv;
    CtxIsOk(s, c);
  }

  lemma GetDelivers(s: State, c: Conn, k: Key, id: Key)
    requires c in s.ctxs
    ensures Bit(Readable(s, id)) == Bit(Readable(StepGet(s, c, k).0, id)) + Bit(k == id && StepGet(s, c, k).1.SendBlob?)
            || IsNull(k)
    ensures IsNull(k) ==> StepGet(s, c, k).1 == Drop && StepGet(s, c, k).0.blobs == s.blobs
  {
  }

  lemma DoneKeepsReadable(s: State, c: Conn, id: Key)
    requires Inv(s) && c in s.ctxs
    ensures Readable(StepDone(s, c).0, id) == Readable(s, id)
  {
    hide Inv;
    CtxIsOk(s, c);
  }

  lemma DataStoresNothing(s: State, c: Conn, k: Key, chunk: seq<byte>, declared: Option<nat>, id: Key)
    requires c in s.ctxs
    ensures Readable(StepData(s, c, k, chunk, declared).0, id) == Readable(s, id)
    ensures Readable(s, id) ==> StepData(s, c, k, chunk, declared).0.blobs[id] == s.blobs[id]
  {
    hide BucketOf, BucketFull;
  }

  /** In every run, each publication of an id is answered by at most one delivery: publications are
      exactly the deliveries, the expiries, and the blob that is still readable, if any. */
  lemma {:induction false} EachPublicationOnce(r: Run, id: Key)
    requires Legal(r)
    ensures StoreCount(r, id) == DeliverCount(r, id) + ExpireCount(r, id) + Bit(Readable(At(r), id))
  {
    if r.Then? {
      EachPublicationOnce(r.before, id);
      ReadableStep(r, id);
    }
  }

  // ---------- what is delivered ----------

  /** The body sent on `c` since its request began: its data chunks in order. */
  ghost function Body(r: Run, c: Conn): seq<byte> {
    match r
    case Start => []
    case Then(before, Open(d, _)) => if d == c then [] else Body(before, c)
    case Then(before, Data(d, _, chunk, _)) => if d == c then Body(before, c) + chunk else Body(before, c)
    case Then(before, _) => Body(before, c)
  }

  /** The Content-Length seen with the first data chunk of the request on `c`. */
  ghost function Declared(r: Run, c: Conn): Option<nat> {
    match r
    case Start => None
    case Then(before, Open(d, _)) => if d == c then None else Declared(before, c)
    case Then(before, Data(d, _, _, declared)) =>
      if d == c && Declared(before, c).None? then declared else Declared(before, c)
    case Then(before, _) => Declared(before, c)
  }

  /** While a request can still be committed, the context holds exactly the body sent so far. */
  ghost predicate Faithful(r: Run, c: Conn)
    requires Legal(r)
  {
    c in At(r).ctxs && !At(r).ctxs[c].answered && At(r).ctxs[c].deferred == NoError ==>
      && At(r).ctxs[c].got == Body(r, c)
      && (At(r).ctxs[c].expected == 0 ==> Declared(r, c) == None)
      && (At(r).ctxs[c].expected != 0 ==> Declared(r, c) == Some(At(r).ctxs[c].expected))
  }

  lemma {:induction false} BodyIsReceived(r: Run, c: Conn)
    requires Legal(r)
    ensures Faithful(r, c)
  {
    if r.Then? {
      BodyIsReceived(r.before, c);
      hide BucketOf, BucketFull, Inv, Step;
      OwnEventsOnly(At(r.before), r.last, c);
      if !r.last.Tick? && r.last.conn == c && c in At(r.before).ctxs {
        RunInv(r.before);
        CtxIsOk(At(r.before), c);
        ReceivedStep(At(r.before), r.last);
      }
    }
  }

  /** A context changes only in the events of its own request. */
  lemma OwnEventsOnly(s: State, e: Event, c: Conn)
    requires Enabled(s, e)
    ensures e.Tick? || e.conn != c ==> (c in s.ctxs <==> c in Step(s, e).0.ctxs)
    ensures (e.Tick? || e.conn != c) && c in s.ctxs ==> Step(s, e).0.ctxs[c] == s.ctxs[c]
    ensures e.Open? && e.conn == c && c in Step(s, e).0.ctxs ==> Step(s, e).0.ctxs[c].(answered := false) == FRESH
  {
    hide BucketOf, BucketFull;
  }

  /** What an event of its own does to a context that can still be committed afterwards. */
  lemma ReceivedStep(s: State, e: Event)
    requires Enabled(s, e) && !e.Tick? && e.conn in s.ctxs && CtxOk(s.ctxs[e.conn])
    ensures var x, s' := s.ctxs[e.conn], Step(s, e).0;
            e.conn in s'.ctxs && !s'.ctxs[e.conn].answered && s'.ctxs[e.conn].deferred == NoError ==>
              && e.Data? && x.deferred == NoError && !x.answered
              && s'.ctxs[e.conn].got == x.got + e.chunk
              && s'.ctxs[e.conn].expected != 0
              && (if x.expected == 0 then e.declared == Some(s'.ctxs[e.conn].expected)
                  else s'.ctxs[e.conn].expected == x.expected)
  {
    hide BucketOf, BucketFull;
  }

  /** The body of the request that last stored `id`. */
  ghost function LastStored(r: Run, id: Key): Option<seq<byte>>
    requires Legal(r)
  {
    if r.Start? then None
    else if Stores(r, id) then Some(Body(r.before, r.last.conn))
    else LastStored(r.before, id)
  }

  /** Storing publishes exactly the chunks sent, as many bytes as were declared. */
  lemma StoredIsBody(r: Run, id: Key)
    requires Legal(r) && Stores(r, id)
    ensures id in At(r).blobs && At(r).blobs[id].Published?
    ensures At(r).blobs[id].bytes == Body(r.before, r.last.conn)
    ensures Declared(r.before, r.last.conn) == Some(|At(r).blobs[id].bytes|)
    ensures At(r).blobs[id].until == r.last.now + BLOB_TTL_S
  {
    BodyIsReceived(r.before, r.last.conn);
    RunInv(r.before);
    CtxIsOk(At(r.before), r.last.conn);
  }

  lemma {:induction false} ReadableIsLastStored(r: Run, id: Key)
    requires Legal(r) && Readable(At(r), id)
    ensures LastStored(r, id) == Some(At(r).blobs[id].bytes)
  {
    hide BucketOf, BucketFull, Inv;
    if r.Then? {
      if Stores(r, id) {
        StoredIsBody(r, id);
      } else {
        ReadableStep(r, id);
        assert Readable(At(r.before), id);
        ReadableIsLastStored(r.before, id);
        RunInv(r.before);
        BlobIsStable(At(r.before), r.last, id);
      }
    }
  }

  /** A published blob changes in no step that does not remove or replace it. */
  lemma BlobIsStable(s: State, e: Event, id: Key)
    requires Inv(s) && Enabled(s, e) && Readable(s, id) && Readable(Step(s, e).0, id)
    requires e.Finish? && e.id == id ==> Step(s, e).1 != Stored
    ensures Step(s, e).0.blobs[id] == s.blobs[id]
  {
    hide BucketOf, BucketFull, Inv;
    match e {
      case Data(c, k, chunk, declared) => DataStoresNothing(s, c, k, chunk, declared, id);
      case Finish(c, _, _) => CtxIsOk(s, c);
      case _ =>
    }
  }

  /** A delivered blob is byte for byte the body of the POST that last stored its id. */
  lemma DeliveredIsLastStored(r: Run, id: Key)
    requires Legal(r) && Delivers(r, id)
    ensures LastStored(r.before, id) == Some(Answer(r).bytes)
  {
    ReadableIsLastStored(r.before, id);
  }

  // ---------- until the response is finished ----------

  /** The blob last delivered on `c` since its request began. */
  ghost function LastSent(r: Run, c: Conn): Option<seq<byte>>
    requires Legal(r)
  {
    match r
    case Start => None
    case Then(before, Open(d, _)) => if d == c then None else LastSent(before, c)
    case Then(before, Get(d, _)) =>
      if d == c && Answer(r).SendBlob? then Some(Answer(r).bytes) else LastSent(before, c)
    case Then(before, _) => LastSent(before, c)
  }

  lemma SendingStep(s: State, e: Event, c: Conn)
    requires Enabled(s, e) && c in Step(s, e).0.ctxs && !(e.Open? && e.conn == c)
    ensures c in s.ctxs
    ensures Step(s, e).0.ctxs[c].sending ==
            if e.Get? && e.conn == c && Step(s, e).1.SendBlob? then Some(Step(s, e).1.bytes) else s.ctxs[c].sending
  {
    if e.Tick? || e.conn != c {
      hide *;
      OwnEventsOnly(s, e, c);
    } else {
      hide BucketOf, BucketFull, StepData, StepOpen, StepFinish, StepDone;
      match e {
        case Data(_, k, chunk, declared) => DataKeepsSending(s, c, k, chunk, declared);
        case Finish(_, k, now) => FinishKeepsSending(s, c, k, now);
        case Done(_) => assert c !in StepDone(s, c).0.ctxs by { DoneEnds(s, c); }
        case _ =>
      }
    }
  }

  lemma DataKeepsSending(s: State, c: Conn, k: Key, chunk: seq<byte>, declared: Option<nat>)
    requires c in s.ctxs
    ensures c in StepData(s, c, k, chunk, declared).0.ctxs
    ensures StepData(s, c, k, chunk, declared).0.ctxs[c].sending == s.ctxs[c].sending
  {
    hide BucketOf, BucketFull;
  }

  lemma FinishKeepsSending(s: State, c: Conn, k: Key, now: nat)
    requires c in s.ctxs
    ensures c in StepFinish(s, c, k, now).0.ctxs && StepFinish(s, c, k, now).0.ctxs[c].sending == s.ctxs[c].sending
  {
  }

  lemma DoneEnds(s: State, c: Conn)
    requires c in s.ctxs
    ensures c !in StepDone(s, c).0.ctxs
  {
  }

  /** Until its request is done, a delivered blob stays with its connection, unchanged. */
  lemma {:induction false} SentStaysUntilDone(r: Run, c: Conn)
    requires Legal(r) && c in At(r).ctxs
    ensures At(r).ctxs[c].sending == LastSent(r, c)
  {
    hide BucketOf, BucketFull, Inv, Step;
    if r.Then? {
      OwnEventsOnly(At(r.before), r.last, c);
      if !(r.last.Open? && r.last.conn == c) {
        SendingStep(At(r.before), r.last, c);
        SentStaysUntilDone(r.before, c);
      }
    }
  }

  // ---------- requests do not disturb each other ----------

  /** No event of another request, and no tick, touches a reservation or the context holding it. */
  lemma ReservationIsSafe(r: Run, c: Conn)
    requires Legal(r) && r.Then? && c in At(r.before).ctxs && At(r.before).ctxs[c].posting
    requires r.last.Tick? || r.last.conn != c
    ensures c in At(r).ctxs && At(r).ctxs[c] == At(r.before).ctxs[c] && Holds(At(r), c)
  {
    hide BucketOf, BucketFull, Inv;
    RunInv(r);
    OwnEventsOnly(At(r.before), r.last, c);
    CtxIsOk(At(r), c);
  }

  /** Finishing a request removes nothing but its own unpublished blob: one that was refused as a
      duplicate or for lack of memory, or that was committed, removes nothing. */
  lemma DoneRemovesOnlyItsOwn(r: Run, c: Conn)
    requires Legal(r) && r.Then? && r.last == Done(c)
    ensures At(r).blobs == map k | k in At(r.before).blobs
                             && !(At(r.before).blobs[k].Pending? &&
                                  At(r.before).blobs[k].owner == c) :: At(r.before).blobs[k]
  {
    RunInv(r.before);
    CtxIsOk(At(r.before), c);
  }

  // ---------- the pool of contexts ----------

  lemma ContextsStep(s: State, e: Event)
    requires Enabled(s, e) && |s.ctxs| <= REQUESTS_MAX
    ensures |Step(s, e).0.ctxs| <= REQUESTS_MAX
  {
    hide Step, Enabled;
    var s' := Step(s, e).0;
    forall c | c in s'.ctxs && (e.Tick? || c != e.conn)
      ensures c in s.ctxs
    {
      OwnEventsOnly(s, e, c);
    }
    if e.Tick? || e.conn in s.ctxs {
      FewerKeys(s'.ctxs.Keys, s.ctxs.Keys);
    } else if |s.ctxs| < REQUESTS_MAX {
      FewerKeys(s'.ctxs.Keys, s.ctxs.Keys + {e.conn});
    } else {
      NoContextLeft(s, e);
    }
  }

  lemma NoContextLeft(s: State, e: Event)
    requires Enabled(s, e) && !e.Tick? && e.conn !in s.ctxs && |s.ctxs| >= REQUESTS_MAX
    ensures Step(s, e) == (s, Drop)
  {
  }

  lemma FewerKeys(a: set<Conn>, b: set<Conn>)
    requires a <= b
    ensures |a| <= |b|
  {
    assert b == a + (b - a);
  }

  /** In every run at most as many requests are alive as the pool has contexts. */
  lemma {:induction false} ContextsAreBounded(r: Run)
    requires Legal(r)
    ensures |At(r).ctxs| <= REQUESTS_MAX
  {
    hide Step, Enabled;
    if r.Then? {
      ContextsAreBounded(r.before);
      ContextsStep(At(r.before), r.last);
    }
  }
}
