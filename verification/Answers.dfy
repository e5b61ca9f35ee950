/**
 What every request is answered, in every run: told from the calls made so far and from what was
 stored when they came, not from the request contexts.
 */
module Answers {
  import opened Words
  import opened Types
  import opened Buckets
  import opened Protocol
  import opened Runs
  import opened Admission
  import D = Debouncer

  // ---------- what decides about a POST ----------

  /** What the first data call of a POST finds: none came yet, the id is taken, there is no room for the
      declared length, or there is. */
  datatype Verdict = NoData | Taken | NoRoom | Room(length: nat)

  /** The id the first data call of the request on `c` carried. */
  ghost function FirstId(r: Run, c: Conn): Option<Key> {
    match r
    case Start => None
    case Then(before, Open(d, _)) => if d == c then None else FirstId(before, c)
    case Then(before, Data(d, id, _, _)) =>
      if d == c && FirstId(before, c).None? then Some(id) else FirstId(before, c)
    case Then(before, _) => FirstId(before, c)
  }

  predicate ValidLength(declared: Option<nat>) {
    declared.Some? && 46 <= declared.value <= 131072
  }

  ghost function Decide(s: State, id: Key, declared: Option<nat>): Verdict {
    if !ValidLength(declared) then NoData
    else if id in s.blobs then Taken
    else if BucketFull(s, BucketOf(declared.value)) then NoRoom
    else Room(declared.value)
  }

  /** Decided once, by the first data call of the request on `c`. */
  ghost function VerdictOf(r: Run, c: Conn): Verdict
    requires Legal(r)
  {
    match r
    case Start => NoData
    case Then(before, Open(d, _)) => if d == c then NoData else VerdictOf(before, c)
    case Then(before, Data(d, id, _, declared)) =>
      if d == c && VerdictOf(before, c).NoData? then Decide(At(before), id, declared) else VerdictOf(before, c)
    case Then(before, _) => VerdictOf(before, c)
  }

  /** A context that is not answered yet agrees with the calls of its request. */
  ghost predicate CtxFor(x: Ctx, first: Option<Key>, v: Verdict) {
    && x.haveId == first.Some? && (first.Some? ==> x.id == first.value)
    && match v
       case NoData => first.None? && x.deferred == NoError && !x.posting && x.expected == 0
       case Taken => x.deferred == Dup
       case NoRoom => x.deferred == Oom
       case Room(n) => x.deferred == NoError && x.posting && x.expected == n
  }

  ghost predicate WrongId(first: Option<Key>, id: Key) {
    IsNull(id) || (first.Some? && first.value != id)
  }

  lemma DataStep(s: State, c: Conn, id: Key, chunk: seq<byte>, declared: Option<nat>, first: Option<Key>, v: Verdict)
    requires c in s.ctxs && !s.ctxs[c].answered && CtxOk(s.ctxs[c]) && CtxFor(s.ctxs[c], first, v)
    ensures var v' := if v.NoData? then Decide(s, id, declared) else v;
            var (s', out) := StepData(s, c, id, chunk, declared);
            && c in s'.ctxs
            && (out == Drop || out == Continue) && (s'.ctxs[c].answered <==> out == Drop)
            && (out == Drop <==> || WrongId(first, id) || (v.NoData? && !ValidLength(declared))
                                 || (v'.Room? && |s.ctxs[c].got| + |chunk| > v'.length))
            && (out == Continue ==> CtxFor(s'.ctxs[c], Some(id), v'))
  {
    hide BucketOf, BucketFull;
  }

  lemma FinishStep(s: State, c: Conn, id: Key, now: nat, first: Option<Key>, v: Verdict)
    requires c in s.ctxs && !s.ctxs[c].answered && CtxOk(s.ctxs[c]) && CtxFor(s.ctxs[c], first, v)
    requires v.Room? ==> s.ctxs[c].id in s.blobs
    ensures StepFinish(s, c, id, now).1 ==
            if WrongId(first, id) then Drop
            else match v
              case NoData => BadBlob
              case Taken => DeferredError(Dup)
              case NoRoom => DeferredError(Oom)
              case Room(n) => if |s.ctxs[c].got| == n then Stored else BadBlob
  {
  }

  /** In every run, the context of a request that is not answered yet tells what its calls told. */
  lemma {:induction false} ContextIs(r: Run, c: Conn)
    requires Legal(r) && c in At(r).ctxs && !At(r).ctxs[c].answered
    ensures CtxFor(At(r).ctxs[c], FirstId(r, c), VerdictOf(r, c))
  {
    hide Step, Enabled, CtxFor, Decide, Inv;
    if r.Then? {
      var s, e := At(r.before), r.last;
      OwnEventsOnly(s, e, c);
      if e.Tick? || e.conn != c {
        ContextIs(r.before, c);
      } else if e.Open? {
        FreshIs(At(r).ctxs[c]);
      } else {
        StillOpen(s, e);
        ContextIs(r.before, c);
        RunInv(r.before);
        CtxIsOk(s, c);
        DataIs(s, e);
        DataStep(s, c, e.id, e.chunk, e.declared, FirstId(r.before, c), VerdictOf(r.before, c));
        RightId(FirstId(r.before, c), e.id);
      }
    }
  }

  lemma RightId(first: Option<Key>, id: Key)
    ensures !WrongId(first, id) && first.Some? ==> first.value == id
  {
  }

  lemma FreshIs(x: Ctx)
    requires x.(answered := false) == FRESH
    ensures CtxFor(x, None, NoData)
  {
  }

  /** Only a data call leaves a request open. */
  lemma StillOpen(s: State, e: Event)
    requires Enabled(s, e) && !e.Tick? && !e.Open? && e.conn in Step(s, e).0.ctxs && !Step(s, e).0.ctxs[e.conn].answered
    ensures e.Data? && e.conn in s.ctxs && !s.ctxs[e.conn].answered
  {
    hide BucketOf, BucketFull;
  }

  lemma DataIs(s: State, e: Event)
    requires Enabled(s, e) && e.Data?
    ensures e.conn in s.ctxs && !s.ctxs[e.conn].answered
    ensures Step(s, e) == StepData(s, e.conn, e.id, e.chunk, e.declared)
  {
  }

  // ---------- the answers ----------

  /** In every run, a data call is answered by closing the connection exactly for the null id, an id other
      than the request's first, a length outside 46 to 131072 bytes in the first data call, or a chunk by
      which the body outgrows the length there was room for; otherwise it goes on. */
  lemma DataAnswer(r: Run)
    requires Legal(r) && r.Then? && r.last.Data?
    ensures Answer(r) == Drop || Answer(r) == Continue
    ensures var b, c, e := r.before, r.last.conn, r.last;
            Answer(r) == Drop <==>
              || IsNull(e.id)
              || (FirstId(b, c).Some? && FirstId(b, c).value != e.id)
              || (VerdictOf(b, c).NoData? && !(e.declared.Some? && 46 <= e.declared.value <= 131072))
              || (VerdictOf(r, c).Room? && |Body(b, c)| + |e.chunk| > VerdictOf(r, c).length)
  {
    hide Step, Enabled, CtxFor, Decide, Inv, CtxOk;
    var s, c, e := At(r.before), r.last.conn, r.last;
    DataIs(s, e);
    ContextIs(r.before, c);
    RunInv(r.before);
    CtxIsOk(s, c);
    DataStep(s, c, e.id, e.chunk, e.declared, FirstId(r.before, c), VerdictOf(r.before, c));
    BodyIs(r.before, c);
    if VerdictOf(r, c).Room? && VerdictOf(r.before, c) != VerdictOf(r, c) {
      assert VerdictOf(r.before, c).NoData?;
    }
  }

  /** While there is nothing to complain about, what was received is the body sent. */
  lemma BodyIs(r: Run, c: Conn)
    requires Legal(r) && c in At(r).ctxs && !At(r).ctxs[c].answered
    ensures VerdictOf(r, c).NoData? || VerdictOf(r, c).Room? ==> At(r).ctxs[c].got == Body(r, c)
  {
    hide Step, Enabled;
    ContextIs(r, c);
    BodyIsReceived(r, c);
  }

  /** In every run, the last call of a POST is answered as its first data call decided: a taken id with the
      duplicate error, lack of room with the out-of-memory error, a body shorter than declared or no data at
      all as a bad blob, and a complete body is stored. */
  lemma FinishAnswer(r: Run)
    requires Legal(r) && r.Then? && r.last.Finish?
    ensures var b, c, id := r.before, r.last.conn, r.last.id;
            if IsNull(id) || (FirstId(b, c).Some? && FirstId(b, c).value != id) then Answer(r) == Drop
            else match VerdictOf(b, c)
              case NoData => Answer(r) == BadBlob
              case Taken => Answer(r) == DeferredError(Dup)
              case NoRoom => Answer(r) == DeferredError(Oom)
              case Room(n) => Answer(r) == if |Body(b, c)| == n then Stored else BadBlob
  {
    hide Step, Enabled, CtxFor, Inv, CtxOk;
    var s, c, e := At(r.before), r.last.conn, r.last;
    FinishIs(s, e);
    ContextIs(r.before, c);
    RunInv(r.before);
    CtxIsOk(s, c);
    RoomIsHeld(s, c, FirstId(r.before, c), VerdictOf(r.before, c));
    FinishStep(s, c, e.id, e.now, FirstId(r.before, c), VerdictOf(r.before, c));
    BodyIs(r.before, c);
  }

  lemma FinishIs(s: State, e: Event)
    requires Enabled(s, e) && e.Finish?
    ensures e.conn in s.ctxs && !s.ctxs[e.conn].answered && Step(s, e) == StepFinish(s, e.conn, e.id, e.now)
  {
  }

  lemma RoomIsHeld(s: State, c: Conn, first: Option<Key>, v: Verdict)
    requires Inv(s) && c in s.ctxs && CtxFor(s.ctxs[c], first, v)
    ensures v.Room? ==> s.ctxs[c].id in s.blobs
  {
    hide Inv;
    CtxIsOk(s, c);
  }

  /** A POST with a declared length of 46 to 131072 bytes, whose id was not stored and whose bucket had a free
      item when its first data call came, and whose chunks add up to that length, is stored, and then its id
      reads as those chunks. */
  lemma CompleteUploadIsStored(r: Run)
    requires Legal(r) && r.Then? && r.last.Finish? && !IsNull(r.last.id)
    requires FirstId(r.before, r.last.conn) == Some(r.last.id)
    requires VerdictOf(r.before, r.last.conn) == Room(|Body(r.before, r.last.conn)|)
    ensures Answer(r) == Stored
    ensures r.last.id in At(r).blobs
    ensures At(r).blobs[r.last.id] == Published(Body(r.before, r.last.conn), r.last.now + 3600)
  {
    hide Step, Enabled;
    FinishAnswer(r);
    StoredIsBody(r, r.last.id);
  }

  /** In every run, a GET is answered with a blob exactly when its id was stored more often than it was
      delivered or expired, and the blob is the body of the POST that last stored it; otherwise "not found". */
  lemma GetAnswer(r: Run)
    requires Legal(r) && r.Then? && r.last.Get?
    ensures IsNull(r.last.id) ==> Answer(r) == Drop
    ensures !IsNull(r.last.id) ==>
              if StoreCount(r.before, r.last.id) > DeliverCount(r.before, r.last.id) + ExpireCount(r.before, r.last.id)
              then LastStored(r.before, r.last.id).Some? && Answer(r) == SendBlob(LastStored(r.before, r.last.id).value)
              else Answer(r) == NotFound
  {
    hide Inv;
    var id := r.last.id;
    EachPublicationOnce(r.before, id);
    if Readable(At(r.before), id) {
      ReadableIsLastStored(r.before, id);
    }
  }

  /** The time at which `id` was last stored. */
  ghost function LastStoredAt(r: Run, id: Key): Option<nat>
    requires Legal(r)
  {
    if r.Start? then None
    else if Stores(r, id) then Some(r.last.now)
    else LastStoredAt(r.before, id)
  }

  lemma {:induction false} UntilIs(r: Run, id: Key)
    requires Legal(r) && Readable(At(r), id)
    ensures LastStoredAt(r, id) == Some(At(r).blobs[id].until - 3600)
  {
    hide BucketOf, BucketFull, Inv, Step, Enabled;
    if r.Then? {
      if Stores(r, id) {
        StoredIsBody(r, id);
      } else {
        ReadableStep(r, id);
        UntilIs(r.before, id);
        RunInv(r.before);
        BlobIsStable(At(r.before), r.last, id);
      }
    }
  }

  /** In every run, a tick of the reaper leaves exactly the blobs stored no more than 3600 seconds ago, and
      every upload in flight. */
  lemma TickKeeps(r: Run, id: Key)
    requires Legal(r) && r.Then? && r.last.Tick?
    ensures Answer(r) == Quiet && At(r).ctxs == At(r.before).ctxs
    ensures Readable(At(r), id) <==>
              && Readable(At(r.before), id) && LastStoredAt(r.before, id).Some?
              && r.last.now <= LastStoredAt(r.before, id).value + 3600
    ensures id in At(r.before).blobs && !Readable(At(r.before), id) ==> id in At(r).blobs
  {
    if Readable(At(r.before), id) {
      UntilIs(r.before, id);
    }
  }

  /** In every run, a first call is closed exactly when 8192 requests are alive. Otherwise a static page goes
      on unchecked, and so does an unknown client or one the rate limiter does not remember, which it then
      does. */
  lemma OpenAnswer(r: Run)
    requires Legal(r) && r.Then? && r.last.Open?
    ensures Answer(r) == Drop <==> |At(r.before).ctxs| >= 8192
    ensures Answer(r) == Drop ==> At(r) == At(r.before)
    ensures Answer(r) != Drop ==> r.last.conn in At(r).ctxs
    ensures Answer(r) != Drop && r.last.check.None? ==> Answer(r) == Continue && At(r).rate == At(r.before).rate
    ensures Answer(r) != Drop && r.last.check.Some? && r.last.check.value.client == 0 ==>
              Answer(r) == Continue && At(r).rate == At(r.before).rate
    ensures Answer(r) != Drop && r.last.check.Some? && !Remembered(At(r.before), r.last.check.value.client) ==>
              Answer(r) == Continue
    ensures Answer(r) == Continue && r.last.check.Some? && r.last.check.value.client != 0 ==>
              Remembered(At(r), r.last.check.value.client)
  {
    hide D.Allow, D.Allows, D.Inv, D.Fold, D.Wrap;
    var s, e := At(r.before), r.last;
    if |s.ctxs| < REQUESTS_MAX && e.check.Some? {
      var q := e.check.value;
      CallsAreHistory(r.before);
      D.HistoryInv(Calls(r.before), D.Fold);
      D.AllowIsOutcome(s.rate, D.Fold, q.client, D.Wrap(q.time));
      D.StrangerIsAdmitted(s.rate, D.Fold, q.client, D.Wrap(q.time), At(r).rate, Answer(r) == Continue);
    }
  }

  /** Outside the blob branches a body closes the connection; without one a known path gets its page, any
      other "not found". */
  lemma OtherAnswerIs(r: Run)
    requires Legal(r) && r.Then? && r.last.Other?
    ensures Answer(r) == Drop <==> r.last.hasBody
    ensures Answer(r) == Page <==> !r.last.hasBody && r.last.isPage
    ensures Answer(r) == NotFound <==> !r.last.hasBody && !r.last.isPage
    ensures At(r).blobs == At(r.before).blobs && At(r).rate == At(r.before).rate
  {
  }

  /** The completion call frees the request's context and no other. */
  lemma DoneEndsRequest(r: Run)
    requires Legal(r) && r.Then? && r.last.Done?
    ensures Answer(r) == Quiet && At(r).ctxs == At(r.before).ctxs - {r.last.conn} && At(r).rate == At(r.before).rate
  {
  }

  // ---------- from upload to download ----------

  ghost function Flat(chunks: seq<seq<byte>>): seq<byte> {
    if chunks == [] then [] else Flat(chunks[..|chunks| - 1]) + chunks[|chunks| - 1]
  }

  /** The run going on with the data calls of a POST. */
  ghost function Upload(r: Run, c: Conn, id: Key, chunks: seq<seq<byte>>, n: nat): Run {
    if chunks == [] then r
    else Then(Upload(r, c, id, chunks[..|chunks| - 1], n), Data(c, id, chunks[|chunks| - 1], Some(n)))
  }

  /** A request that may still send its first data call. */
  ghost predicate Waiting(r: Run, c: Conn)
    requires Legal(r)
  {
    c in At(r).ctxs && !At(r).ctxs[c].answered && FirstId(r, c) == None && VerdictOf(r, c) == NoData
  }

  ghost predicate NonEmpty(chunks: seq<seq<byte>>) {
    forall i :: 0 <= i < |chunks| ==> chunks[i] != []
  }

  /** The request on `c` has sent `body` for `id`, and there is room for `n` bytes. */
  ghost predicate Uploading(r: Run, c: Conn, id: Key, body: seq<byte>, n: nat)
    requires Legal(r)
  {
    && c in At(r).ctxs && !At(r).ctxs[c].answered
    && FirstId(r, c) == Some(id) && VerdictOf(r, c) == Room(n) && Body(r, c) == body
  }

  lemma ContinueStaysOpen(r: Run)
    requires Legal(r) && r.Then? && r.last.Data? && Answer(r) == Continue
    ensures r.last.conn in At(r).ctxs && !At(r).ctxs[r.last.conn].answered
  {
    hide Step, Enabled, CtxFor, Decide, Inv, CtxOk;
    var s, c, e := At(r.before), r.last.conn, r.last;
    DataIs(s, e);
    ContextIs(r.before, c);
    RunInv(r.before);
    CtxIsOk(s, c);
    DataStep(s, c, e.id, e.chunk, e.declared, FirstId(r.before, c), VerdictOf(r.before, c));
  }

  /** As long as the chunks stay within the declared length, every data call of a POST for which there is room
      goes on. */
  lemma {:induction false} UploadGoesOn(r: Run, c: Conn, id: Key, chunks: seq<seq<byte>>, n: nat)
    requires Legal(r) && Waiting(r, c) && !IsNull(id) && id !in At(r).blobs
    requires 46 <= n <= 131072 && !BucketFull(At(r), BucketOf(n))
    requires NonEmpty(chunks) && chunks != [] && |Flat(chunks)| <= n
    ensures Legal(Upload(r, c, id, chunks, n)) && Answer(Upload(r, c, id, chunks, n)) == Continue
    ensures Uploading(Upload(r, c, id, chunks, n), c, id, Flat(chunks), n)
  {
    hide Step, Inv, BucketOf, BucketFull;
    var front, last := chunks[..|chunks| - 1], chunks[|chunks| - 1];
    var b, e := Upload(r, c, id, front, n), Data(c, id, last, Some(n));
    if front == [] {
      BodyIs(r, c);
      ContextIs(r, c);
      RunInv(r);
      CtxIsOk(At(r), c);
    } else {
      UploadGoesOn(r, c, id, front, n);
    }
    assert Body(b, c) == Flat(front);
    var r' := Then(b, e);
    assert Legal(r') && VerdictOf(r', c) == Room(n);
    DataAnswer(r');
    ContinueStaysOpen(r');
  }

  /** A complete upload is stored, the next GET is answered with exactly its chunks in order, and after that
      the id is free again. */
  lemma UploadThenDownload(r: Run, c: Conn, id: Key, chunks: seq<seq<byte>>, now: nat, d: Conn)
    requires Legal(r) && Waiting(r, c) && !IsNull(id) && id !in At(r).blobs && now + 3600 < 0xFFFF_FFFE
    requires NonEmpty(chunks) && 46 <= |Flat(chunks)| <= 131072 && !BucketFull(At(r), BucketOf(|Flat(chunks)|))
    requires d in At(r).ctxs && !At(r).ctxs[d].answered && d != c
    ensures var post := Then(Upload(r, c, id, chunks, |Flat(chunks)|), Finish(c, id, now));
            var get := Then(post, Get(d, id));
            && Legal(get) && Answer(post) == Stored && Answer(get) == SendBlob(Flat(chunks))
            && id !in At(get).blobs
  {
    hide Step, Inv, BucketOf, BucketFull;
    var n := |Flat(chunks)|;
    UploadGoesOn(r, c, id, chunks, n);
    OthersKeptByUpload(r, c, id, chunks, n, d);
    var b := Upload(r, c, id, chunks, n);
    var post := Then(b, Finish(c, id, now));
    CompleteUploadIsStored(post);
    OwnEventsOnly(At(b), post.last, d);
    var get := Then(post, Get(d, id));
    DeliveryFrees(At(post), d, id);
  }

  lemma DeliveryFrees(s: State, d: Conn, id: Key)
    requires d in s.ctxs && !s.ctxs[d].answered && !IsNull(id) && Readable(s, id)
    ensures Step(s, Get(d, id)).1 == SendBlob(s.blobs[id].bytes) && id !in Step(s, Get(d, id)).0.blobs
  {
  }

  lemma {:induction false} OthersKeptByUpload(r: Run, c: Conn, id: Key, chunks: seq<seq<byte>>, n: nat, d: Conn)
    requires Legal(Upload(r, c, id, chunks, n)) && Legal(r) && d in At(r).ctxs && d != c
    ensures d in At(Upload(r, c, id, chunks, n)).ctxs
    ensures At(Upload(r, c, id, chunks, n)).ctxs[d] == At(r).ctxs[d]
  {
    hide Step, Enabled;
    if chunks != [] {
      var b := Upload(r, c, id, chunks[..|chunks| - 1], n);
      OthersKeptByUpload(r, c, id, chunks[..|chunks| - 1], n, d);
      OwnEventsOnly(At(b), Data(c, id, chunks[|chunks| - 1], Some(n)), d);
    }
  }
}
