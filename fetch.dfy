/**
  `fetch_rss_feed(url, retries=3, delay=5)`: up to `retries` attempts to
  download and parse the feed, a fixed pause between two attempts, and the
  end of the run when the last attempt fails. The network is not modelled:
  the outcome of the `k`-th attempt is `attempts[k - 1]`, and the pauses
  are counted rather than timed.
 */
module Fetch {
  import opened Wrappers
  import opened FeedEntry

  /** What one pass of the loop body meets. */
  datatype Attempt =
    | NetworkError                      // `requests.get` raised a `RequestException`
    | Response(status: int, parsed: Parsed)  // a response arrived and was parsed

  /** `feedparser.parse(response.text)`: the entries it found, and its
      `bozo` flag for a malformed document. */
  datatype Parsed = Parsed(bozo: bool, entries: seq<RawEntry>)

  datatype FetchResult =
    | Fetched(entries: seq<RawEntry>, attempts: nat, sleeps: nat)
      // the parsed feed, returned by attempt number `attempts`
    | Aborted(attempts: nat, sleeps: nat)
      // every attempt failed: the script exits with "Failed to fetch RSS feed."
    | NoAttempt
      // `retries` was 0: the loop never ran and the function returned None

  /** `response.raise_for_status()` raises for client and server errors,
      the status codes 400 to 599; success and redirect statuses, and
      anything outside those classes, pass. */
  predicate HttpError(status: int)
    ensures HttpError(status) ==> !(200 <= status < 400)
    ensures 400 <= status < 500 || 500 <= status < 600 ==> HttpError(status)
  {
    400 <= status < 600
  }

  /** The feed an attempt produces, if it succeeds: a network error, an
      HTTP error status and a malformed document all count as failures. */
  function Feed(a: Attempt): (r: Option<seq<RawEntry>>)
    ensures r.Some? <==> a.Response? && !HttpError(a.status) && !a.parsed.bozo
    ensures r.Some? ==> r.value == a.parsed.entries
  {
    match a
    case NetworkError => None
    case Response(status, parsed) =>
      if HttpError(status) || parsed.bozo then None else Some(parsed.entries)
  }

  /** The attempt produces a feed and ends the loop. */
  predicate Succeeds(a: Attempt) {
    Feed(a).Some?
  }

  /** The specification of the retry loop from attempt `k` on (`1 <= k`),
      all attempts before it having failed: the first attempt from `k` on
      that succeeds returns its feed, after one pause fewer than the
      attempts made; when none does, the run aborts after all `retries`. */
  function RetryFrom(attempts: seq<Attempt>, retries: nat, k: nat): (r: FetchResult)
    requires 1 <= k <= retries <= |attempts|
    ensures r.Fetched? ==> k <= r.attempts <= retries && r.sleeps == r.attempts - 1 &&
                           Feed(attempts[r.attempts - 1]) == Some(r.entries)
    ensures r.Aborted? ==> r == Aborted(retries, retries - 1) && !Succeeds(attempts[retries - 1])
    ensures !r.NoAttempt?
    decreases retries - k
  {
    match Feed(attempts[k - 1])
    case Some(feed) => Fetched(feed, k, k - 1)
    case None =>
      if k < retries then RetryFrom(attempts, retries, k + 1) else Aborted(retries, retries - 1)
  }

  /** The retry policy: nothing is attempted when `retries` is 0. */
  function Retry(attempts: seq<Attempt>, retries: nat): (r: FetchResult)
    requires retries <= |attempts|
    ensures r.NoAttempt? <==> retries == 0
    ensures r.Fetched? ==> 1 <= r.attempts <= retries && r.sleeps == r.attempts - 1 &&
                           Feed(attempts[r.attempts - 1]) == Some(r.entries)
    ensures r.Aborted? ==> r == Aborted(retries, retries - 1)
  {
    if retries == 0 then NoAttempt else RetryFrom(attempts, retries, 1)
  }

  /** The loop of `fetch_rss_feed`. */
  method FetchRssFeed(attempts: seq<Attempt>, retries: nat) returns (r: FetchResult)
    requires retries <= |attempts|
    ensures r == Retry(attempts, retries)
    ensures r.Fetched? ==> 1 <= r.attempts <= retries && r.sleeps == r.attempts - 1 &&
                           Feed(attempts[r.attempts - 1]) == Some(r.entries) &&
                           forall j :: 0 <= j < r.attempts - 1 ==> !Succeeds(attempts[j])
    ensures r.Aborted? ==> 1 <= retries && r.attempts == retries && r.sleeps == retries - 1 &&
                           forall j :: 0 <= j < retries ==> !Succeeds(attempts[j])
    ensures r.NoAttempt? <==> retries == 0
  {
    var sleeps := 0;
    for attempt := 1 to retries + 1
      invariant sleeps == attempt - 1
      invariant attempt == 1 || attempt <= retries
      invariant forall j :: 0 <= j < attempt - 1 ==> !Succeeds(attempts[j])
      invariant 1 <= attempt <= retries ==> Retry(attempts, retries) == RetryFrom(attempts, retries, attempt)
    {
      var outcome := Feed(attempts[attempt - 1]);
      if outcome.Some? {
        return Fetched(outcome.value, attempt, sleeps);
      }
      if attempt < retries {
        sleeps := sleeps + 1;
      } else {
        return Aborted(attempt, sleeps);
      }
    }
    return NoAttempt;
  }

  /** From attempt `i` on: when attempts `i` to `k` fail and attempt
      `k + 1` succeeds, the loop returns that attempt's feed. */
  lemma {:induction false} SucceedsFrom(attempts: seq<Attempt>, retries: nat, i: nat, k: nat)
    requires 1 <= i <= k + 1 <= retries <= |attempts|
    requires forall j :: i - 1 <= j < k ==> !Succeeds(attempts[j])
    requires Succeeds(attempts[k])
    ensures RetryFrom(attempts, retries, i) == Fetched(Feed(attempts[k]).value, k + 1, k)
    decreases k + 1 - i
  {
    if i <= k {
      SucceedsFrom(attempts, retries, i + 1, k);
    }
  }

  /** Success after `k` failures: when the first `k` attempts fail and
      attempt `k + 1` succeeds, within the `retries` allowed, its feed is
      returned after `k + 1` attempts and `k` pauses. */
  lemma SucceedsAfterFailures(attempts: seq<Attempt>, retries: nat, k: nat)
    requires k < retries <= |attempts|
    requires forall j :: 0 <= j < k ==> !Succeeds(attempts[j])
    requires Succeeds(attempts[k])
    ensures Retry(attempts, retries) == Fetched(Feed(attempts[k]).value, k + 1, k)
  {
    SucceedsFrom(attempts, retries, 1, k);
  }

  /** From attempt `i` on: when attempts `i` to `retries` all fail, the
      loop aborts. */
  lemma {:induction false} AbortsFrom(attempts: seq<Attempt>, retries: nat, i: nat)
    requires 1 <= i <= retries <= |attempts|
    requires forall j :: i - 1 <= j < retries ==> !Succeeds(attempts[j])
    ensures RetryFrom(attempts, retries, i) == Aborted(retries, retries - 1)
    decreases retries - i
  {
    if i < retries {
      AbortsFrom(attempts, retries, i + 1);
    }
  }

  /** Exhaustion: when all `retries` attempts fail, the run aborts after
      exactly `retries` attempts and `retries - 1` pauses, without a feed. */
  lemma AbortsAfterAllFail(attempts: seq<Attempt>, retries: nat)
    requires 1 <= retries <= |attempts|
    requires forall j :: 0 <= j < retries ==> !Succeeds(attempts[j])
    ensures Retry(attempts, retries) == Aborted(retries, retries - 1)
  {
    AbortsFrom(attempts, retries, 1);
  }

  /** From attempt `i` on, replacing the failing attempt `k` by a network
      error changes nothing. */
  lemma {:induction false} FailuresAlikeFrom(attempts: seq<Attempt>, retries: nat, k: nat, i: nat)
    requires k < retries <= |attempts|
    requires 1 <= i <= retries
    requires !Succeeds(attempts[k])
    ensures RetryFrom(attempts[k := NetworkError], retries, i) == RetryFrom(attempts, retries, i)
    decreases retries - i
  {
    if i < retries {
      FailuresAlikeFrom(attempts, retries, k, i + 1);
    }
  }

  /** A client or server error status and a malformed document are
      failures just as a network error is: any attempt that meets one of
      them can be replaced by a network error without changing the result. */
  lemma FailuresAlike(attempts: seq<Attempt>, retries: nat, k: nat)
    requires k < retries <= |attempts|
    requires !Succeeds(attempts[k])
    ensures Retry(attempts[k := NetworkError], retries) == Retry(attempts, retries)
  {
    FailuresAlikeFrom(attempts, retries, k, 1);
  }
}
