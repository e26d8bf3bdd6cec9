/**
  The script's main block: fetch the feed with the default retry policy,
  then process its entries against the table.
 */
module Script {
  import opened FeedEntry
  import opened Store
  import opened Ingest
  import opened Fetch

  /** The default of `fetch_rss_feed`'s `retries` parameter. */
  const DefaultRetries: nat := 3

  datatype RunStatus =
    | Completed(log: seq<Outcome>)  // "Script completed."
    | FetchFailed                  // exit("Failed to fetch RSS feed.")
    | NoFeed                       // no attempt was made: `process_feed(None)` raises

  /** `rss_feed = fetch_rss_feed(RSS_FEED_URL); process_feed(rss_feed)`,
      with `retries` attempts allowed. The table changes only when a feed
      was fetched, and then exactly as `process_feed` changes it. */
  method RunScript(table: Table, attempts: seq<Attempt>, retries: nat, faults: nat -> RemoteFaults)
    returns (status: RunStatus, fetched: FetchResult)
    requires retries <= |attempts|
    modifies table
    ensures fetched == Retry(attempts, retries)
    ensures fetched.Fetched? ==>
              status.Completed? &&
              State(table.rows, status.log) == Run(old(table.rows), NormalizeAll(fetched.entries), faults)
    ensures fetched.Aborted? ==> status == FetchFailed && table.rows == old(table.rows)
    ensures fetched.NoAttempt? ==> status == NoFeed && table.rows == old(table.rows)
  {
    fetched := FetchRssFeed(attempts, retries);
    match fetched
    case Fetched(entries, _, _) =>
      var log := ProcessFeed(table, entries, faults);
      status := Completed(log);
    case Aborted(_, _) =>
      status := FetchFailed;
    case NoAttempt =>
      status := NoFeed;
  }

  /** A server answering 500 to all three attempts of the default policy
      ends the run after three attempts and two pauses, before the table
      is touched. */
  lemma ServerErrorsAbort(attempts: seq<Attempt>)
    requires |attempts| >= DefaultRetries
    requires forall j :: 0 <= j < DefaultRetries ==> attempts[j].Response? && attempts[j].status == 500
    ensures Retry(attempts, DefaultRetries) == Aborted(3, 2)
  {
    AbortsAfterAllFail(attempts, DefaultRetries);
  }
}
