# rss2supabase, modelled in Dafny

`rss2supabase.py` fetches an RSS feed and copies its new entries into the
`rss_entries` table of a Supabase database. This project models the two
pieces of decision logic in that script and proves what they do.

- **Fetching with retries** (`fetch_rss_feed`). The script makes up to
  `retries` attempts. A network error, an HTTP status from 400 to 599 and a
  malformed feed (`bozo`) each count as a failed attempt. There is a fixed
  pause between two attempts and none after the last one. The first
  successful attempt returns the feed. When every attempt fails, the run
  ends.
- **Normalise, validate, dedupe, insert** (`process_feed`, `entry_exists`,
  `store_entry`). For each entry, in feed order:
  - each of `title`, `summary`, `published` and `link` is read (an absent
    field reads as `""`);
  - the field is stripped of surrounding whitespace;
  - the field is passed through `encode("utf-8", "ignore").decode("utf-8")`,
    which drops lone surrogates;
  - the entry is dropped when `title`, `link` or `published` is empty;
  - otherwise the table is queried for a row with the same `title` and
    `published`, and the entry is inserted only when none is found.

  A failed query counts as "not found". A failed insert is logged, and
  processing goes on with the next entry.

How the model is built:

- **Text.** A Python `str` is a `seq<CodePoint>`. Dafny's `char` cannot hold
  a lone surrogate, so it is not used.
- **Stripping.** `strip()` uses Python's exact set of whitespace characters.
- **The UTF-8 round trip.** It is modelled as written: an encoder that
  skips what it cannot encode, then a strict decoder (RFC 3629, section 3).
  `Utf8.DecodeEncodeIgnore` proves that the decode never fails, and that
  the round trip drops exactly the lone surrogates.
- **The table.** `Store.Table` is a class holding the rows as a `seq`.
  `entry_exists` is the filtered query `Select` on that sequence, and
  `store_entry` is an append.
- **Remote failures.** Whether the query or the insert fails for entry `i`
  is an oracle value, `faults(i)`.
- **Fetch outcomes.** The outcome of attempt `k` is `attempts[k - 1]`.
  Pauses are counted, not timed.
- **Specification against implementation.** `Ingest.Run` specifies
  `process_feed` as a fold over the normalised entries. `Ingest.ProcessFeed`
  is the loop, and it is proved to compute `Run`. In the same way,
  `Fetch.FetchRssFeed` is the retry loop, and it is proved to compute
  `Fetch.Retry`.

What the order "strip, then sanitise" implies:

- A field of whitespace only normalises to the empty string.
- In general, a field normalises to empty exactly when what `strip()`
  leaves of it is made only of lone surrogates (`FeedEntry.NormalizeFieldEmpty`).
- Whitespace enclosed by surrogates survives. So a field made only of
  whitespace and surrogates can be non-empty, and a stored value can begin
  or end with whitespace (`FeedEntry.InnerSpaceSurvives`).
- On text without surrogates, normalisation is just `strip()`.

## Model

| member | source | states |
|---|---|---|
| `Unicode.TrimLeft` | rss2supabase.py:112-115 | the result is a suffix of the input and does not begin with whitespace |
| `Unicode.TrimRight` | rss2supabase.py:112-115 | the result is a prefix of the input and does not end with whitespace |
| `Unicode.TrimLeftCutsSpace` | rss2supabase.py:112-115 | everything the left trim removes is whitespace |
| `Unicode.TrimRightCutsSpace` | rss2supabase.py:112-115 | everything the right trim removes is whitespace |
| `Unicode.Strip` | rss2supabase.py:112-115 | `strip()`: the result is no longer than the input, and is empty or has non-whitespace at both ends |
| `Unicode.StripIsSlice` | rss2supabase.py:112-115 | `strip()` keeps one contiguous slice `s[i..j]` and cuts off only whitespace on either side |
| `Unicode.StripIdempotent` | rss2supabase.py:112-115 | stripping twice equals stripping once; whitespace-only text strips to empty |
| `Unicode.DropSurrogates` | rss2supabase.py:118-121 | the result holds no lone surrogate, is no longer than the input, and equals the input when the input has none |
| `Unicode.DropSurrogatesConcat` | rss2supabase.py:118-121 | dropping surrogates distributes over concatenation, so the order of the kept code points is preserved |
| `Unicode.DropSurrogatesEmpty` | rss2supabase.py:118-123 | the result is empty exactly when the input is made only of surrogates |
| `Utf8.EncodePoint` | rss2supabase.py:118-121 | an encodable code point takes one to four bytes |
| `Utf8.EncodeIgnore` | rss2supabase.py:118-121 | `encode("utf-8", "ignore")` skips lone surrogates and spends one to four bytes on each code point it keeps |
| `Utf8.DecodePoint` | rss2supabase.py:118-121 | a successful strict decode consumes one to four bytes, no more than the input holds, and never yields a surrogate |
| `Utf8.Decode` | rss2supabase.py:118-121 | successfully decoded text never contains a lone surrogate |
| `Utf8.DecodeEncodePoint` | rss2supabase.py:118-121 | decoding an encoded code point gives back that code point and consumes exactly its encoding |
| `Utf8.DecodeEncodeIgnore` | rss2supabase.py:118-121 | `decode(encode(s, "ignore"))` always succeeds, and gives `s` without its lone surrogates |
| `Utf8.Sanitize` | rss2supabase.py:118-121 | the round trip, run as code, returns the input with its lone surrogates dropped |
| `FeedEntry.Get` | rss2supabase.py:112-115 | `entry.get(key, "")`: the field's text when present, the empty text when absent |
| `FeedEntry.NormalizeField` | rss2supabase.py:112-121 | a normalised field holds no lone surrogate and is no longer than the raw field |
| `FeedEntry.Normalize` | rss2supabase.py:112-121 | none of the four normalised fields holds a lone surrogate |
| `FeedEntry.NormalizeEntry` | rss2supabase.py:112-121 | the script's strip-then-re-encode of the four fields gives exactly the normalised record (content taken from `summary`) |
| `FeedEntry.NormalizeAll` | rss2supabase.py:111-121 | the feed's entries normalised in feed order, one record per entry |
| `FeedEntry.NormalizeAllAt` | rss2supabase.py:111-121 | record `i` is the normalisation of entry `i` alone |
| `FeedEntry.NormalizeAllClean` | rss2supabase.py:111-121 | every normalised entry of a feed is free of lone surrogates |
| `FeedEntry.MissingRequired` | rss2supabase.py:123 | an entry misses a required field exactly when its title, link or published text has length zero (Python's `not s`); the content does not take part |
| `FeedEntry.NormalizeFieldEmpty` | rss2supabase.py:112-123 | a field normalises to empty exactly when its stripped value is made only of lone surrogates |
| `FeedEntry.SpaceOnlyFieldIsEmpty` | rss2supabase.py:112-123 | an absent or whitespace-only field normalises to empty |
| `FeedEntry.InnerSpaceSurvives` | rss2supabase.py:112-121 | because stripping comes first, `[U+D800, ' ', U+DC00]` normalises to `" "` |
| `FeedEntry.NormalizeFieldOfCleanText` | rss2supabase.py:112-121 | on surrogate-free text, normalisation is `strip()` and is idempotent |
| `FeedEntry.DroppedExactly` | rss2supabase.py:112-125 | an entry fails validation exactly when the stripped `title`, `link` or `published` is made only of surrogates |
| `FeedEntry.ContentNotRequired` | rss2supabase.py:113-123 | the `summary` field, whatever it holds, never affects validation |
| `Store.Select` | rss2supabase.py:80-87 | the filtered query returns only the queried key, no more rows than the table has, and at least one row exactly when some row has the same title and published date |
| `Store.Table.EntryExists` | rss2supabase.py:77-90 | `entry_exists` is true exactly when the query succeeds and a row has this (title, published) key; a failed query reads as "absent" |
| `Store.Table.StoreEntry` | rss2supabase.py:93-106 | a successful insert appends exactly one row with the four values; a failed insert leaves the rows as they were |
| `Ingest.Decide` | rss2supabase.py:123-130 | an entry is dropped exactly when a required field is empty; otherwise it is already stored exactly when the query ran and found its key; a failed insert is `StoreFailed`, and `Stored` means the key was absent or the query failed and the insert went through |
| `Ingest.Step` | rss2supabase.py:123-130 | one pass of the loop body logs one outcome and appends the record exactly when the outcome is `Stored`; the rows are otherwise unchanged |
| `Ingest.Run` | rss2supabase.py:109-130 | every entry gets one outcome, and the rows that were there before stay in place as a prefix |
| `Ingest.ProcessFeed` | rss2supabase.py:109-130 | the loop leaves the table and the log exactly as the fold `Run` over the normalised entries specifies |
| `Ingest.RunPrefix` | rss2supabase.py:111-130 | the state after the first `i` entries does not depend on later entries; the log and the rows only extend |
| `Ingest.OutcomeAt` | rss2supabase.py:111-130 | entry `i` is decided against the table as entries `0..i-1` left it; no entry stops the ones after it |
| `Ingest.DroppedExactlyWhenMissing` | rss2supabase.py:123-125 | an entry is dropped exactly when a required field is empty, and dropping it leaves the table unchanged |
| `Ingest.DroppedEntriesMakeNoCalls` | rss2supabase.py:123-128 | the remote faults of dropped entries never matter: no query and no insert is made for them |
| `Ingest.CheckFailureMeansInsert` | rss2supabase.py:127-128 | for a valid entry whose query fails, an insert is attempted |
| `Ingest.DedupeByKey` | rss2supabase.py:127-130 | "already stored" happens exactly when the query ran and found the (title, published) key; "stored" happens only when the key was absent or the query failed |
| `Ingest.LinkAndContentDoNotMatter` | rss2supabase.py:127-130 | two valid entries with the same title and published date get the same decision, whatever their link or content |
| `Ingest.RunAppendsStored` | rss2supabase.py:93-130 | the table after a run is the old table followed by the stored entries, in feed order; nothing is updated or deleted |
| `Ingest.AddedRowsAreValid` | rss2supabase.py:123-128 | every row a run adds is one of the normalised entries, and it passed validation |
| `Ingest.StoredFieldsAreClean` | rss2supabase.py:117-128 | no field of an added row holds a lone surrogate |
| `Ingest.NoDuplicateInserts` | rss2supabase.py:109-130 | when no query fails, no added row shares its key with an earlier row, even when the feed repeats an entry |
| `Ingest.EveryValidKeyPresent` | rss2supabase.py:109-130 | when no insert fails, the key of every valid entry is in the table after the run |
| `Ingest.NothingNewToStore` | rss2supabase.py:109-130 | when no query fails and every valid key is already present, a run inserts nothing |
| `Ingest.SecondRunAddsNothing` | rss2supabase.py:109-130 | running the same feed a second time adds nothing, provided no insert failed in the first run and no query fails in the second |
| `Ingest.CheckFailureCanDuplicate` | rss2supabase.py:88-90 | because a failed query reads as "absent", a repeated valid entry can be stored twice |
| `Ingest.SingleEntryTwice` | rss2supabase.py:109-130 | one valid entry and an empty table give one insert of its fields; a second run finds it and inserts nothing |
| `Fetch.HttpError` | rss2supabase.py:63 | `raise_for_status` raises on every 4xx and 5xx status and never on a 2xx or 3xx status |
| `Fetch.Feed` | rss2supabase.py:62-67 | an attempt yields a feed exactly when a response arrived, its status does not raise and the document is well-formed; the feed is the parser's entries |
| `Fetch.RetryFrom` | rss2supabase.py:60-74 | from attempt `k` on: a fetched feed comes from an attempt between `k` and `retries` that succeeded, after one pause fewer than the attempts made; an abort comes after all `retries` attempts and `retries - 1` pauses, the last attempt having failed |
| `Fetch.Retry` | rss2supabase.py:60-74 | the retry policy: nothing is attempted exactly when `retries` is 0; a fetched feed comes from a successful attempt within `retries`, with one pause fewer than attempts; an abort takes `retries` attempts and `retries - 1` pauses |
| `Fetch.FetchRssFeed` | rss2supabase.py:58-74 | the loop computes `Retry`: a fetched feed comes from the first successful attempt, with one fewer pause than attempts; an abort comes after `retries` failed attempts and `retries - 1` pauses; with `retries = 0` nothing is attempted |
| `Fetch.SucceedsAfterFailures` | rss2supabase.py:60-67 | if the first `k < retries` attempts fail and attempt `k + 1` succeeds, its feed is returned after `k + 1` attempts and `k` pauses |
| `Fetch.AbortsAfterAllFail` | rss2supabase.py:68-74 | if all `retries` attempts fail, the run aborts after exactly `retries` attempts and `retries - 1` pauses |
| `Fetch.FailuresAlike` | rss2supabase.py:62-68 | an HTTP error status or a malformed feed affects the result exactly as a network error would |
| `Script.RunScript` | rss2supabase.py:133-137 | the table changes only when a feed was fetched, and then exactly as `process_feed` specifies; an aborted fetch touches nothing |
| `Script.ServerErrorsAbort` | rss2supabase.py:58-74 | three 500 responses under the default policy abort the run after three attempts and two pauses |

## Left out

- Loading `.env`, the credential and feed-URL checks, and creating the
  Supabase client, with their `exit` calls (rss2supabase.py:23-55). This is
  configuration and process plumbing.
- Logging. The per-entry outcome (`Ingest.Outcome`) records which log line
  an entry produces, but the messages and the log file are not modelled.
- The HTTP request, its 10-second timeout, the response body and
  feedparser's parsing. An attempt is given as its outcome: a network
  error, or a status code with the parser's `bozo` flag and entries.
- Exceptions other than `RequestException` and `ValueError` raised during a
  fetch. They are not caught by the script and would end it; the model has
  no such outcome.
- feedparser's key aliases (such as `description` for `summary`) and how it
  fills `published`. An entry is given as the map of the keys the script
  reads.
- Field values that are not strings. `entry.get` could return one and
  `.strip()` would then raise; the model's entries hold text only.
- The Supabase query builder and the network. The table is an in-memory
  sequence, and the failure of a query or an insert is an oracle. No other
  client writes to the table during a run.
- The length of `time.sleep(delay)`. Pauses are counted, not timed.
- `retries = 0`. The loop never runs and `fetch_rss_feed` returns `None`
  (`Fetch.NoAttempt`). The `AttributeError` that `process_feed(None)` then
  raises is modelled only as the status `Script.NoFeed` with the table
  unchanged.
- `raise_for_status` fails only on statuses 400 to 599
  (`Fetch.HttpError`); a 3xx response whose document parses counts as a
  success.
