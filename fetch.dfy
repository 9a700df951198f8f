/**
 * Fetching one tile from Overpass with bounded retries and a geometric
 * back-off. The HTTP round trip (form encoding, the POST, JSON decoding) is an
 * oracle `post`: `post(k)` is the outcome of the k-th attempt. Sleeping is
 * recorded, not performed: the method returns the sequence of delays it asked
 * for.
 */
module Fetch {
  import opened Base
  import opened Tiler
  import opened OverpassQuery

  const MaxRetries: nat := 5
  const HttpTimeoutSec: nat := 300
  const OverpassTimeout: int := 180
  const InitialBackoff: real := 2.0
  const BackoffFactor: real := 1.8
  const FailurePrefix: string := "Overpass failed after retries: "

  /** One POST as sent: the query text and the socket timeout. */
  datatype Request = Request(query: string, timeoutSec: nat)

  /** The outcome of one POST: a decoded response, or the exception's text. */
  datatype Reply<D> = Response(data: D) | Failure(error: string)

  /** The delay slept after the (k+1)-th failed attempt. */
  function Backoff(k: nat): (r: real)
    ensures r >= InitialBackoff
  {
    if k == 0 then InitialBackoff else Backoff(k - 1) * BackoffFactor
  }

  function Backoffs(n: nat): (r: seq<real>)
    ensures |r| == n && forall i :: 0 <= i < n ==> r[i] == Backoff(i)
  {
    seq(n, i requires 0 <= i => Backoff(i))
  }

  lemma BackoffsSnoc(n: nat)
    ensures Backoffs(n + 1) == Backoffs(n) + [Backoff(n)]
  {
  }

  /** The first attempt numbered from `k` to MaxRetries whose POST succeeds. */
  function FirstSuccess<D>(post: nat -> Reply<D>, k: nat): Option<nat>
    decreases MaxRetries + 1 - k
  {
    if k > MaxRetries then None
    else if post(k).Response? then Some(k)
    else FirstSuccess(post, k + 1)
  }

  /** `FirstSuccess` finds the earliest successful attempt, and none when every one fails. */
  lemma {:induction false} FirstSuccessSpec<D>(post: nat -> Reply<D>, k: nat)
    ensures match FirstSuccess(post, k)
      case Some(m) =>
        k <= m <= MaxRetries && post(m).Response? && forall j :: k <= j < m ==> post(j).Failure?
      case None => forall j :: k <= j <= MaxRetries ==> post(j).Failure?
    decreases MaxRetries + 1 - k
  {
    if k <= MaxRetries && post(k).Failure? {
      FirstSuccessSpec(post, k + 1);
    }
  }

  lemma {:induction false} FirstSuccessAt<D>(post: nat -> Reply<D>, k: nat, m: nat)
    requires k <= m <= MaxRetries && post(m).Response?
    requires forall j :: k <= j < m ==> post(j).Failure?
    ensures FirstSuccess(post, k) == Some(m)
    decreases m - k
  {
    if k < m {
      FirstSuccessAt(post, k + 1, m);
    }
  }

  lemma {:induction false} FirstSuccessNone<D>(post: nat -> Reply<D>, k: nat)
    requires forall j :: k <= j <= MaxRetries ==> post(j).Failure?
    ensures FirstSuccess(post, k) == None
    decreases MaxRetries + 1 - k
  {
    if k <= MaxRetries {
      FirstSuccessNone(post, k + 1);
    }
  }

  /** `fetch_tile_light`: the query is built once from the selectors `q`
      (the pipeline passes `ConfiguredQueries`) and sent with the retry loop
      of `PostWithRetries`. */
  method FetchTileLight<D>(q: TagQueries, b: BBox, num: real -> string, post: nat -> Reply<D>)
    returns (r: Result<D, string>, sent: seq<Request>, sleeps: seq<real>)
    ensures forall i :: 0 <= i < |sent| ==> sent[i] == Request(BuildQuery(q, b, OverpassTimeout, num), HttpTimeoutSec)
    ensures RetryOutcome(post, r, sent, sleeps)
  {
    var ql := BuildQuery(q, b, OverpassTimeout, num);
    r, sent, sleeps := PostWithRetries(ql, post);
  }

  /** What the retry loop promises: the first decoded response is returned as
      it is, after one POST per attempt up to it and one sleep per failure;
      when all MaxRetries attempts fail, the error carries the last failure's
      text and every failure, the last one included, was followed by a sleep. */
  ghost predicate RetryOutcome<D>(post: nat -> Reply<D>, r: Result<D, string>, sent: seq<Request>, sleeps: seq<real>)
  {
    match FirstSuccess(post, 1)
    case Some(k) => r == Ok(post(k).data) && |sent| == k && sleeps == Backoffs(k - 1)
    case None =>
      r == Err(FailurePrefix + post(MaxRetries).error) && |sent| == MaxRetries && sleeps == Backoffs(MaxRetries)
  }

  /** The retry loop of `fetch_tile_light`: POST the query up to MaxRetries
      times; after each failure sleep the current back-off, then multiply it
      by 1.8. */
  method PostWithRetries<D>(ql: string, post: nat -> Reply<D>)
    returns (r: Result<D, string>, sent: seq<Request>, sleeps: seq<real>)
    ensures forall i :: 0 <= i < |sent| ==> sent[i] == Request(ql, HttpTimeoutSec)
    ensures RetryOutcome(post, r, sent, sleeps)
  {
    var backoff := InitialBackoff;
    var lastErr := "";
    sent, sleeps := [], [];
    var attempt: nat := 1;
    while attempt <= MaxRetries
      invariant 1 <= attempt <= MaxRetries + 1
      invariant |sent| == attempt - 1 && sleeps == Backoffs(attempt - 1) && backoff == Backoff(attempt - 1)
      invariant forall i :: 0 <= i < |sent| ==> sent[i] == Request(ql, HttpTimeoutSec)
      invariant forall j :: 1 <= j < attempt ==> post(j).Failure?
      invariant attempt > 1 ==> lastErr == post(attempt - 1).error
    {
      sent := sent + [Request(ql, HttpTimeoutSec)];
      var reply := post(attempt);
      if reply.Response? {
        FirstSuccessAt(post, 1, attempt);
        r := Ok(reply.data);
        return;
      }
      lastErr := reply.error;
      BackoffsSnoc(attempt - 1);
      sleeps := sleeps + [backoff];
      backoff := backoff * BackoffFactor;
      attempt := attempt + 1;
    }
    FirstSuccessNone(post, 1);
    r := Err(FailurePrefix + lastErr);
  }

  /** The back-off grows strictly from one failure to the next. */
  lemma {:induction false} BackoffIncreasing(i: nat, j: nat)
    requires i < j
    ensures Backoff(i) < Backoff(j)
    decreases j - i
  {
    if i + 1 < j {
      BackoffIncreasing(i, j - 1);
    }
  }

  function Sum(xs: seq<real>): real
  {
    if xs == [] then 0.0 else xs[0] + Sum(xs[1..])
  }

  /** A tile whose every attempt fails costs five POSTs and 44.7392 seconds of sleep. */
  lemma WorstCaseWait()
    ensures Backoffs(MaxRetries) == [2.0, 3.6, 6.48, 11.664, 20.9952]
    ensures Sum(Backoffs(MaxRetries)) == 44.7392
  {
    var s := Backoffs(MaxRetries);
    assert Backoff(1) == 3.6;
    assert Backoff(2) == 6.48;
    assert Backoff(3) == 11.664;
    assert Backoff(4) == 20.9952;
    assert s == [2.0, 3.6, 6.48, 11.664, 20.9952];
    assert Sum(s[4..]) == 20.9952 by { assert s[4..][1..] == []; }
    assert Sum(s[3..]) == 11.664 + 20.9952 by { assert s[3..][1..] == s[4..]; }
    assert Sum(s[2..]) == 6.48 + 11.664 + 20.9952 by { assert s[2..][1..] == s[3..]; }
    assert Sum(s[1..]) == 3.6 + 6.48 + 11.664 + 20.9952 by { assert s[1..][1..] == s[2..]; }
  }
}
