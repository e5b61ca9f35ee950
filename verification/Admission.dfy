/**
 The rate limiter inside the server's runs: what the debouncer's laws say about the requests of one
 client, over every run the calling convention allows.
 */
module Admission {
  import opened Types
  import opened Buckets
  import opened Protocol
  import opened Runs
  import D = Debouncer

  /** The last event of the run asks the rate limiter: a first call that gets a context and is not for a
      static page. */
  ghost predicate Asks(r: Run)
    requires Legal(r)
  {
    r.Then? && r.last.Open? && r.last.check.Some? && |At(r.before).ctxs| < REQUESTS_MAX
  }

  /** The calls of the rate limiter in a run. */
  ghost function Calls(r: Run): D.History
    requires Legal(r)
  {
    if r.Start? then D.Fresh
    else if Asks(r) then
      D.Then(Calls(r.before), r.last.check.value.client, r.last.check.value.time, At(r).rate, Answer(r) == Continue)
    else Calls(r.before)
  }

  /** Only a first call touches the rate limiter's table. */
  lemma OthersKeepRate(s: State, e: Event)
    requires Enabled(s, e) && !e.Open?
    ensures Step(s, e).0.rate == s.rate
  {
    hide BucketOf, BucketFull;
  }

  lemma OpenRates(s: State, c: Conn, check: Option<Check>)
    ensures |s.ctxs| >= REQUESTS_MAX ==> StepOpen(s, c, check).0.rate == s.rate
    ensures |s.ctxs| < REQUESTS_MAX ==> StepOpen(s, c, check).0.rate == Rated(s.rate, check).0
    ensures |s.ctxs| < REQUESTS_MAX ==> (StepOpen(s, c, check).1 == Continue <==> Rated(s.rate, check).1)
  {
    hide D.Allow;
  }

  /** In every run the table of the rate limiter is what its calls leave behind. */
  lemma {:induction false} CallsAreHistory(r: Run)
    requires Legal(r)
    ensures D.IsHistory(Calls(r), D.Fold) && D.TableOf(Calls(r)) == At(r).rate
  {
    if r.Then? {
      hide D.Allows, D.Inv, D.Fold, D.Wrap, D.Allow, BucketOf, BucketFull, Enabled;
      CallsAreHistory(r.before);
      var s, e := At(r.before), r.last;
      if e.Open? {
        OpenRates(s, e.conn, e.check);
        if Asks(r) {
          D.HistoryInv(Calls(r.before), D.Fold);
          D.AllowIsOutcome(s.rate, D.Fold, e.check.value.client, D.Wrap(e.check.value.time));
        }
      } else {
        OthersKeepRate(s, e);
      }
    }
  }

  /** When a request of `client` was last let through. */
  ghost function LastLetThrough(r: Run, client: nat): Option<nat>
    requires Legal(r)
  {
    if r.Start? then None
    else if Asks(r) && r.last.check.value.client == client && Answer(r) == Continue then Some(r.last.check.value.time)
    else LastLetThrough(r.before, client)
  }

  lemma {:induction false} LastLetThroughIs(r: Run, client: nat)
    requires Legal(r)
    ensures LastLetThrough(r, client) == D.LastAdmitted(Calls(r), client)
  {
    if r.Then? {
      hide Step, Enabled;
      LastLetThroughIs(r.before, client);
    }
  }

  /** The client and the time of a request that asks. */
  ghost function Client(r: Run): nat
    requires Legal(r) && Asks(r)
  {
    r.last.check.value.client
  }

  ghost function Time(r: Run): nat
    requires Legal(r) && Asks(r)
  {
    r.last.check.value.time
  }

  /** A client the rate limiter remembers. */
  ghost predicate Remembered(s: State, client: nat) {
    client != 0 && client in s.rate.keys
  }

  /** In every run, a request of a remembered client is let through exactly when the time since its last one
      that was, taken modulo 2^32 ms, is between 150 and 2^31 + 150 ms. */
  lemma LetThroughIff(r: Run)
    requires Legal(r) && Asks(r) && Remembered(At(r.before), Client(r))
    ensures LastLetThrough(r.before, Client(r)).Some?
    ensures var elapsed := Time(r) - LastLetThrough(r.before, Client(r)).value;
            Answer(r) == Continue <==> 150 <= elapsed % 0x1_0000_0000 <= 0x8000_0000 + 150
  {
    hide Step, Enabled, D.IsHistory, D.Fold;
    CallsAreHistory(r);
    CallsAreHistory(r.before);
    LastLetThroughIs(r.before, Client(r));
    D.AdmittedIff(Calls(r), D.Fold);
  }

  /** In every run, two requests of a remembered client that are both let through lie at least 150 ms apart,
      across wrap-around of the clock, when less than 2^31 ms pass between them; and the rest is refused. */
  lemma RequestsAreApart(r: Run)
    requires Legal(r) && Asks(r) && Remembered(At(r.before), Client(r))
    requires LastLetThrough(r.before, Client(r)).Some?
    requires 0 <= Time(r) - LastLetThrough(r.before, Client(r)).value < 0x8000_0000
    ensures var elapsed := Time(r) - LastLetThrough(r.before, Client(r)).value;
            if elapsed >= 150 then Answer(r) == Continue else Answer(r) == TooManyRequests
  {
    hide Step, Enabled;
    LetThroughIff(r);
    AnswerIs(r);
  }

  lemma AnswerIs(r: Run)
    requires Legal(r) && Asks(r)
    ensures Answer(r) == Continue || Answer(r) == TooManyRequests
  {
    hide D.Allow, BucketOf, BucketFull;
  }

  /** A refused request changes no blob and no other request. */
  lemma RefusedChangesNothing(r: Run)
    requires Legal(r) && Asks(r) && Answer(r) == TooManyRequests
    ensures At(r).blobs == At(r.before).blobs && At(r).ctxs - {r.last.conn} == At(r.before).ctxs
    ensures At(r).rate == At(r.before).rate
  {
    var s, q := At(r.before), r.last.check.value;
    CallsAreHistory(r.before);
    D.HistoryInv(Calls(r.before), D.Fold);
    D.AllowIsOutcome(s.rate, D.Fold, q.client, D.Wrap(q.time));
    hide D.Allow, D.Inv, D.Fold;
    assert r.last.conn !in s.ctxs;
  }
}
