/**
 The request protocol as an abstract machine: the `/blob/` branches of `ahc`, `req_done` and
 the reaper tick over a plain map from ids to blobs. Server.dfy proves that the real store,
 with its probing table and in-band free lists, takes exactly these steps.
 */
module Protocol {
  import opened Types
  import opened Words
  import opened Buckets
  import D = Debouncer

  type Conn = nat

  const BLOB_SIZE_MIN: nat := 46
  const REQUESTS_MAX: nat := 8192
  const BLOB_TTL_S: nat := 3600
  const NOT_PUBLISHED: nat := 0xFFFF_FFFE
  const ULONG_MAX: nat := 0xFFFF_FFFF_FFFF_FFFF

  datatype Deferred = NoError | Oom | Dup

  /** A stored blob: reserved by the request `owner`, or published until a time. */
  datatype Blob = Pending(owner: Conn, size: nat) | Published(bytes: seq<byte>, until: nat)

  /** A request context. `got` is the part of the body received so far, `sending` the blob being
      sent, `answered` that a response was queued or the connection is being dropped. */
  datatype Ctx = Ctx(haveId: bool, id: Key, expected: nat, posting: bool, got: seq<byte>,
                     deferred: Deferred, sending: Option<seq<byte>>, answered: bool)

  const FRESH := Ctx(false, NULL_KEY, 0, false, [], NoError, None, false)

  /** The blobs, the live requests, and the table of the rate limiter. */
  datatype State = State(blobs: map<Key, Blob>, ctxs: map<Conn, Ctx>, rate: D.Table)

  ghost function Init(): State {
    State(map[], map[], D.Empty())
  }

  /** What the rate limiter is asked: the key made from a client's address, and the time in milliseconds. */
  datatype Check = Check(client: nat, time: nat)

  /** Calls libmicrohttpd and the timer make. `Data` is a call with upload data and the value of
      the Content-Length header; `Finish` is the last call of a POST, without data; `Other` is
      any request that does not reach the blob branches. */
  datatype Event =
    | Open(conn: Conn, check: Option<Check>)
    | Get(conn: Conn, id: Key)
    | Data(conn: Conn, id: Key, chunk: seq<byte>, declared: Option<nat>)
    | Finish(conn: Conn, id: Key, now: nat)
    | Other(conn: Conn, isPage: bool, hasBody: bool)
    | Done(conn: Conn)
    | Tick(now: nat)

  datatype Outcome =
    | Continue | Drop | TooManyRequests | NotFound | Page
    | SendBlob(bytes: seq<byte>)
    | DeferredError(error: Deferred) | BadBlob | PublishFailed | Stored
    | Quiet

  /** What the calling convention and the clock guarantee about the next event. */
  predicate Enabled(s: State, e: Event) {
    match e
    case Open(c, _) => c !in s.ctxs
    case Get(c, _) => c in s.ctxs && !s.ctxs[c].answered
    case Data(c, _, chunk, _) => c in s.ctxs && !s.ctxs[c].answered && chunk != []
    case Finish(c, _, now) => c in s.ctxs && !s.ctxs[c].answered && now + BLOB_TTL_S < NOT_PUBLISHED
    case Other(c, _, _) => c in s.ctxs && !s.ctxs[c].answered
    case Done(c) => c in s.ctxs
    case Tick(now) => now <= NOT_PUBLISHED
  }

  function BlobSize(b: Blob): nat {
    match b
    case Pending(_, size) => size
    case Published(bytes, _) => |bytes|
  }

  /** The ids whose blob lies in bucket `b`. */
  function BlobsIn(s: State, b: nat): set<Key> {
    set k | k in s.blobs && BucketOf(BlobSize(s.blobs[k])) == b
  }

  /** The requests sending a blob of bucket `b`. */
  function SendersIn(s: State, b: nat): set<Conn> {
    set c | c in s.ctxs && s.ctxs[c].sending.Some? && BucketOf(|s.ctxs[c].sending.value|) == b
  }

  /** Bucket `b` has no free item: all are held by blobs or by requests sending one. */
  predicate BucketFull(s: State, b: nat)
    requires b < BUCKETS_COUNT
  {
    |BlobsIn(s, b)| + |SendersIn(s, b)| >= Capacity(b)
  }

  function WithCtx(s: State, c: Conn, x: Ctx): State {
    s.(ctxs := s.ctxs[c := x])
  }

  /** Of two changes to one context the later one stays. */
  lemma WithCtxTwice(s: State, c: Conn, x: Ctx, y: Ctx, blobs: map<Key, Blob>)
    ensures WithCtx(WithCtx(s, c, x).(blobs := blobs), c, y) == WithCtx(s.(blobs := blobs), c, y)
  {
    assert s.ctxs[c := x][c := y] == s.ctxs[c := y];
  }

  /** The context after the id check of a POST call. */
  function Identified(x: Ctx, id: Key): Ctx {
    if x.haveId then x else x.(haveId := true, id := id)
  }

  predicate BadLength(declared: Option<nat>) {
    declared.None? || declared.value == ULONG_MAX || declared.value > BLOB_SIZE_MAX || declared.value < BLOB_SIZE_MIN
  }

  /** Appends a chunk to the body being received, unless it would overflow the declared length. */
  function Append(s: State, c: Conn, x: Ctx, chunk: seq<byte>): (State, Outcome) {
    if |x.got| + |chunk| > x.expected then (WithCtx(s, c, x.(answered := true)), Drop)
    else (WithCtx(s, c, x.(got := x.got + chunk)), Continue)
  }

  /** A POST call with data, once the length is known. */
  function Receive(s: State, c: Conn, x: Ctx, chunk: seq<byte>): (State, Outcome) {
    if x.posting then Append(s, c, x, chunk)
    else if x.id in s.blobs then (WithCtx(s, c, x.(deferred := Dup)), Continue)
    else if BucketFull(s, BucketOf(x.expected)) then (WithCtx(s, c, x.(deferred := Oom)), Continue)
    else Append(s.(blobs := s.blobs[x.id := Pending(c, x.expected)]), c, x.(posting := true), chunk)
  }

  lemma AppendCollapses(s: State, c: Conn, x: Ctx, chunk: seq<byte>)
    ensures Append(WithCtx(s, c, x), c, x, chunk) == Append(s, c, x, chunk)
  {
    WithCtxTwice(s, c, x, x.(answered := true), s.blobs);
    WithCtxTwice(s, c, x, x.(got := x.got + chunk), s.blobs);
  }

  /** The first call of a request: without a free context it is dropped, and leaves nothing behind. */
  ghost function StepOpen(s: State, c: Conn, check: Option<Check>): (State, Outcome) {
    if |s.ctxs| >= REQUESTS_MAX then (s, Drop)
    else
      var (rate, ok) := Rated(s.rate, check);
      (WithCtx(s.(rate := rate), c, FRESH.(answered := !ok)), if ok then Continue else TooManyRequests)
  }

  /** The rate limiter's table and verdict; a request for a static page is not checked. */
  ghost function Rated(rate: D.Table, check: Option<Check>): (D.Table, bool) {
    if check.None? then (rate, true) else D.Allow(rate, D.Fold, check.value.client, D.Wrap(check.value.time))
  }

  function StepData(s: State, c: Conn, id: Key, chunk: seq<byte>, declared: Option<nat>): (State, Outcome)
    requires c in s.ctxs
  {
    var x := Identified(s.ctxs[c], id);
    if IsNull(id) then (WithCtx(s, c, s.ctxs[c].(answered := true)), Drop)
    else if x.id != id then (WithCtx(s, c, x.(answered := true)), Drop)
    else if x.deferred != NoError then (WithCtx(s, c, x), Continue)
    else if x.expected == 0 && BadLength(declared) then (WithCtx(s, c, x.(answered := true)), Drop)
    else Receive(s, c, if x.expected == 0 then x.(expected := declared.value) else x, chunk)
  }

  function StepFinish(s: State, c: Conn, id: Key, now: nat): (State, Outcome)
    requires c in s.ctxs
  {
    var x := Identified(s.ctxs[c], id);
    if IsNull(id) then (WithCtx(s, c, s.ctxs[c].(answered := true)), Drop)
    else if x.id != id then (WithCtx(s, c, x.(answered := true)), Drop)
    else if x.deferred != NoError then (WithCtx(s, c, x.(answered := true)), DeferredError(x.deferred))
    else if !x.posting || |x.got| != x.expected then (WithCtx(s, c, x.(answered := true)), BadBlob)
    else if x.id !in s.blobs then (WithCtx(s, c, x.(answered := true)), PublishFailed)
    else (WithCtx(s.(blobs := s.blobs[x.id := Published(x.got, now + BLOB_TTL_S)]), c,
                  x.(posting := false, answered := true)), Stored)
  }

  function StepGet(s: State, c: Conn, id: Key): (State, Outcome)
    requires c in s.ctxs
  {
    var x := s.ctxs[c].(answered := true);
    if IsNull(id) then (WithCtx(s, c, x), Drop)
    else if id in s.blobs && s.blobs[id].Published? then
      (WithCtx(s.(blobs := s.blobs - {id}), c, x.(sending := Some(s.blobs[id].bytes))), SendBlob(s.blobs[id].bytes))
    else (WithCtx(s, c, x), NotFound)
  }

  function StepDone(s: State, c: Conn): (State, Outcome)
    requires c in s.ctxs
  {
    var x := s.ctxs[c];
    (State(if x.posting then s.blobs - {x.id} else s.blobs, s.ctxs - {c}, s.rate), Quiet)
  }

  /** The published ids a tick at `now` removes. */
  function Overdue(s: State, now: nat): set<Key> {
    set k | k in s.blobs && s.blobs[k].Published? && s.blobs[k].until < now
  }

  /** Outside the blob branches a body closes the connection, and a known path gets its page. */
  function OtherAnswer(isPage: bool, hasBody: bool): Outcome {
    if hasBody then Drop else if isPage then Page else NotFound
  }

  ghost function Step(s: State, e: Event): (State, Outcome)
    requires Enabled(s, e)
  {
    match e
    case Open(c, check) => StepOpen(s, c, check)
    case Get(c, id) => StepGet(s, c, id)
    case Data(c, id, chunk, declared) => StepData(s, c, id, chunk, declared)
    case Finish(c, id, now) => StepFinish(s, c, id, now)
    case Other(c, isPage, hasBody) => (WithCtx(s, c, s.ctxs[c].(answered := true)), OtherAnswer(isPage, hasBody))
    case Done(c) => StepDone(s, c)
    case Tick(now) => (s.(blobs := s.blobs - Overdue(s, now)), Quiet)
  }
}
