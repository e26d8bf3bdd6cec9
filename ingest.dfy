/**
  `process_feed`: every entry of the feed, in order, is normalised,
  validated, checked against the table by its (title, published) key and,
  when not found, inserted. `Run` is the specification of the loop as a
  fold over the entries; `ProcessFeed` is the loop itself, proved to
  compute it; the lemmas state what a run does to the table.
 */
module Ingest {
  import opened Unicode
  import opened FeedEntry
  import opened Store

  /** Whether the remote calls made for one entry fail: the existence
      query (`checkFails`) and the insert (`insertFails`). */
  datatype RemoteFaults = RemoteFaults(checkFails: bool, insertFails: bool)

  /** What became of one entry; each outcome is one of the script's log
      lines for the entry. */
  datatype Outcome =
    | Dropped        // a required field is empty: no query, no insert
    | AlreadyStored  // the query found the key: no insert
    | Stored         // inserted
    | StoreFailed    // the insert was attempted and failed

  /** The table's rows and the outcomes of the entries handled so far. */
  datatype State = State(rows: seq<Record>, log: seq<Outcome>)

  /** The decision the loop body takes for an entry whose normalised
      fields are `n`, against `rows`: an entry missing a required field is
      dropped; otherwise it is already stored exactly when the query ran
      and found its key; otherwise its insert is attempted, and it is
      stored unless the insert fails. */
  function Decide(rows: seq<Record>, n: Record, f: RemoteFaults): (o: Outcome)
    ensures o == Dropped <==> MissingRequired(n)
    ensures o == AlreadyStored <==> !MissingRequired(n) && !f.checkFails && HasKey(rows, KeyOf(n))
    ensures o == StoreFailed ==> f.insertFails
    ensures o == Stored ==> !f.insertFails && (f.checkFails || !HasKey(rows, KeyOf(n)))
  {
    if MissingRequired(n) then Dropped
    else if !f.checkFails && HasKey(rows, KeyOf(n)) then AlreadyStored
    else if f.insertFails then StoreFailed
    else Stored
  }

  /** One pass of the loop body: one outcome is logged, and the table
      grows by the entry's record exactly when that outcome is `Stored`;
      nothing is updated or removed. */
  function Step(st: State, n: Record, f: RemoteFaults): (r: State)
    ensures r.log == st.log + [Decide(st.rows, n, f)]
    ensures r.rows == st.rows || r.rows == st.rows + [n]
    ensures r.rows != st.rows <==> Decide(st.rows, n, f) == Stored
  {
    var o := Decide(st.rows, n, f);
    State(if o == Stored then st.rows + [n] else st.rows, st.log + [o])
  }

  /** The state after the loop has handled entries whose normalised
      fields are `entries`, starting from a table holding `rows`; the
      `i`-th entry meets the faults `faults(i)`. */
  function Run(rows: seq<Record>, entries: seq<Record>, faults: nat -> RemoteFaults): (r: State)
    ensures |r.log| == |entries|
    ensures |rows| <= |r.rows| && r.rows[..|rows|] == rows
  {
    if entries == [] then State(rows, [])
    else
      var n := |entries| - 1;
      Step(Run(rows, entries[..n], faults), entries[n], faults(n))
  }

  /** Running over one more entry is one more `Step`: the step of
      `ProcessFeed`'s loop invariant. */
  lemma RunExtend(rows: seq<Record>, entries: seq<Record>, n: Record, faults: nat -> RemoteFaults)
    ensures Run(rows, entries + [n], faults) == Step(Run(rows, entries, faults), n, faults(|entries|))
  {
    assert (entries + [n])[..|entries|] == entries;
  }

  /** `process_feed(feed)` against the table. */
  method ProcessFeed(table: Table, entries: seq<RawEntry>, faults: nat -> RemoteFaults)
    returns (log: seq<Outcome>)
    modifies table
    ensures State(table.rows, log) == Run(old(table.rows), NormalizeAll(entries), faults)
  {
    ghost var start := table.rows;
    log := [];
    for i := 0 to |entries|
      invariant State(table.rows, log) == Run(start, NormalizeAll(entries[..i]), faults)
    {
      var entry := entries[i];
      var title, content, published, link := NormalizeEntry(entry);
      ghost var n := Record(title, content, published, link);
      NormalizeAllExtend(entries, i);
      RunExtend(start, NormalizeAll(entries[..i]), n, faults);
      if title == [] || link == [] || published == [] {
        log := log + [Dropped];
        continue;
      }
      var found := table.EntryExists(title, published, faults(i).checkFails);
      if !found {
        var stored := table.StoreEntry(title, content, published, link, faults(i).insertFails);
        log := log + [if stored then Stored else StoreFailed];
      } else {
        log := log + [AlreadyStored];
      }
    }
    assert entries[..|entries|] == entries;
  }

  /** The state after the first `i` entries does not depend on the
      entries that follow them: entries are handled one at a time, in
      feed order. */
  lemma {:induction false} RunPrefix(rows: seq<Record>, entries: seq<Record>,
                                     faults: nat -> RemoteFaults, i: nat)
    requires i <= |entries|
    ensures var before := Run(rows, entries[..i], faults);
            var after := Run(rows, entries, faults);
            before.log == after.log[..i] && |before.rows| <= |after.rows| &&
            after.rows[..|before.rows|] == before.rows
  {
    if i < |entries| {
      var n := |entries| - 1;
      assert entries[..n][..i] == entries[..i];
      RunPrefix(rows, entries[..n], faults, i);
    } else {
      assert entries[..i] == entries;
    }
  }

  /** Every entry gets a decision of its own, taken against the table as
      the entries before it left it; none stops the ones after it. */
  lemma {:induction false} OutcomeAt(rows: seq<Record>, entries: seq<Record>,
                                     faults: nat -> RemoteFaults, i: nat)
    requires i < |entries|
    ensures Run(rows, entries, faults).log[i] ==
            Decide(Run(rows, entries[..i], faults).rows, entries[i], faults(i))
  {
    var n := |entries| - 1;
    if i < n {
      assert entries[..n][..i] == entries[..i];
      OutcomeAt(rows, entries[..n], faults, i);
    }
  }

  /** An entry is dropped exactly when a required field is empty after
      normalisation; dropping an entry leaves the table as it was. */
  lemma DroppedExactlyWhenMissing(rows: seq<Record>, entries: seq<Record>,
                                  faults: nat -> RemoteFaults, i: nat)
    requires i < |entries|
    ensures Run(rows, entries, faults).log[i] == Dropped <==> MissingRequired(entries[i])
    ensures Run(rows, entries, faults).log[i] == Dropped ==>
            Run(rows, entries[..i + 1], faults).rows == Run(rows, entries[..i], faults).rows
  {
    OutcomeAt(rows, entries, faults, i);
    assert entries[..i + 1][..i] == entries[..i];
  }

  /** A dropped entry makes no remote call: the faults its query and insert
      would meet never matter. Two runs whose faults agree on the entries
      that pass validation are the same run. */
  lemma {:induction false} DroppedEntriesMakeNoCalls(rows: seq<Record>, entries: seq<Record>,
                                                     f: nat -> RemoteFaults, g: nat -> RemoteFaults)
    requires forall i :: 0 <= i < |entries| && !MissingRequired(entries[i]) ==> f(i) == g(i)
    ensures Run(rows, entries, f) == Run(rows, entries, g)
  {
    if entries != [] {
      var n := |entries| - 1;
      DroppedEntriesMakeNoCalls(rows, entries[..n], f, g);
    }
  }

  /** When the existence query for an entry that passes validation fails,
      the entry is treated as new: an insert is attempted. */
  lemma CheckFailureMeansInsert(rows: seq<Record>, entries: seq<Record>,
                                faults: nat -> RemoteFaults, i: nat)
    requires i < |entries|
    requires !MissingRequired(entries[i]) && faults(i).checkFails
    ensures Run(rows, entries, faults).log[i] ==
            if faults(i).insertFails then StoreFailed else Stored
  {
    OutcomeAt(rows, entries, faults, i);
  }

  /** An entry is skipped as already stored only when the query ran and the
      table, as the earlier entries left it, holds a row with the same title
      and published date; it is stored only when no such row exists or the
      query failed. */
  lemma DedupeByKey(rows: seq<Record>, entries: seq<Record>,
                    faults: nat -> RemoteFaults, i: nat)
    requires i < |entries|
    ensures var before := Run(rows, entries[..i], faults).rows;
            var o := Run(rows, entries, faults).log[i];
            var k := KeyOf(entries[i]);
            (o == AlreadyStored <==>
               !MissingRequired(entries[i]) && !faults(i).checkFails && HasKey(before, k)) &&
            (o == Stored ==> faults(i).checkFails || !HasKey(before, k))
  {
    OutcomeAt(rows, entries, faults, i);
  }

  /** Only the title and published date decide whether a valid entry is
      new: entries that differ in link or content get the same decision. */
  lemma LinkAndContentDoNotMatter(rows: seq<Record>, e1: Record, e2: Record, f: RemoteFaults)
    requires !MissingRequired(e1) && !MissingRequired(e2)
    requires KeyOf(e1) == KeyOf(e2)
    ensures Decide(rows, e1, f) == Decide(rows, e2, f)
  {
  }

  /** The records the run inserted, in feed order: the normalised entries
      whose outcome is `Stored`. */
  function StoredRecords(entries: seq<Record>, log: seq<Outcome>): (r: seq<Record>)
    requires |log| == |entries|
    ensures |r| <= |entries|
  {
    if entries == [] then []
    else
      var n := |entries| - 1;
      StoredRecords(entries[..n], log[..n]) + (if log[n] == Stored then [entries[n]] else [])
  }

  /** The table only grows: a run keeps every row it found, in place, and
      appends exactly the normalised entries it stored, in feed order. A
      failed insert appends nothing, and no row is ever changed or removed. */
  lemma {:induction false} RunAppendsStored(rows: seq<Record>, entries: seq<Record>,
                                            faults: nat -> RemoteFaults)
    ensures var r := Run(rows, entries, faults);
            r.rows == rows + StoredRecords(entries, r.log)
  {
    if entries != [] {
      var n := |entries| - 1;
      var r := Run(rows, entries, faults);
      var prev := Run(rows, entries[..n], faults);
      RunAppendsStored(rows, entries[..n], faults);
      assert r.log[..n] == prev.log;
    }
  }

  /** Every row a run adds is one of the normalised entries, and one that
      passed validation. */
  lemma {:induction false} AddedRowsAreValid(rows: seq<Record>, entries: seq<Record>,
                                             faults: nat -> RemoteFaults)
    ensures var r := Run(rows, entries, faults).rows;
            forall j :: |rows| <= j < |r| ==> !MissingRequired(r[j]) && r[j] in entries
  {
    if entries != [] {
      var n := |entries| - 1;
      var prev := Run(rows, entries[..n], faults).rows;
      AddedRowsAreValid(rows, entries[..n], faults);
      var r := Run(rows, entries, faults).rows;
      assert r == prev || (r == prev + [entries[n]] && !MissingRequired(entries[n]));
      assert var r := Run(rows, entries[..n], faults).rows;
            forall j :: |rows| <= j < |r| ==> !MissingRequired(r[j]) && r[j] in entries[..n];
      forall j | |rows| <= j < |r| ensures !MissingRequired(r[j]) && r[j] in entries {
        if j < |prev| {
          assert r[j] == prev[j] && prev[j] in entries[..n];
        }
      }
    }
  }

  /** No field of a row a run adds holds a lone surrogate. */
  lemma StoredFieldsAreClean(rows: seq<Record>, feed: seq<RawEntry>, faults: nat -> RemoteFaults)
    ensures var r := Run(rows, NormalizeAll(feed), faults).rows;
            forall j :: |rows| <= j < |r| ==> Clean(r[j])
  {
    AddedRowsAreValid(rows, NormalizeAll(feed), faults);
    NormalizeAllClean(feed);
  }

  /** Appending a row keeps every key already present. */
  lemma HasKeyAppend(rows: seq<Record>, x: Record, k: Key)
    requires HasKey(rows, k)
    ensures HasKey(rows + [x], k)
  {
    var i :| 0 <= i < |rows| && KeyOf(rows[i]) == k;
    assert KeyOf((rows + [x])[i]) == k;
  }

  /** No row from position `start` on shares its key with an earlier row. */
  predicate RowsUniqueFrom(r: seq<Record>, start: nat) {
    forall j, l :: 0 <= j < l < |r| && start <= l ==> KeyOf(r[j]) != KeyOf(r[l])
  }

  /** When no existence query fails, no row a run adds shares its
      (title, published) key with any row before it, whether found in the
      table or added earlier in the run, even when the feed repeats an
      entry. A table whose keys were unique stays so. */
  lemma {:induction false} NoDuplicateInserts(rows: seq<Record>, entries: seq<Record>,
                                              faults: nat -> RemoteFaults)
    requires forall i :: 0 <= i < |entries| ==> !faults(i).checkFails
    ensures RowsUniqueFrom(Run(rows, entries, faults).rows, |rows|)
  {
    if entries != [] {
      var n := |entries| - 1;
      var prev := Run(rows, entries[..n], faults).rows;
      var r := Run(rows, entries, faults).rows;
      NoDuplicateInserts(rows, entries[..n], faults);
      if r != prev {
        var x := entries[n];
        assert r == prev + [x] && !HasKey(prev, KeyOf(x));
        forall j, l | 0 <= j < l < |r| && |rows| <= l
          ensures KeyOf(r[j]) != KeyOf(r[l])
        {
          if l == |prev| {
            assert r[j] == prev[j];
          } else {
            assert r[j] == prev[j] && r[l] == prev[l];
          }
        }
      }
    }
  }

  /** When no insert fails, every entry that passes validation has its key
      in the table after the run. */
  lemma {:induction false} EveryValidKeyPresent(rows: seq<Record>, entries: seq<Record>,
                                                faults: nat -> RemoteFaults, i: nat)
    requires forall i :: 0 <= i < |entries| ==> !faults(i).insertFails
    requires i < |entries| && !MissingRequired(entries[i])
    ensures HasKey(Run(rows, entries, faults).rows, KeyOf(entries[i]))
  {
    var n := |entries| - 1;
    var prev := Run(rows, entries[..n], faults).rows;
    var r := Run(rows, entries, faults).rows;
    var k := KeyOf(entries[i]);
    if i < n {
      EveryValidKeyPresent(rows, entries[..n], faults, i);
      if r != prev {
        HasKeyAppend(prev, entries[n], k);
      }
    } else if r != prev {
      assert KeyOf(r[|prev|]) == k;
    }
  }

  /** When no query fails and the table already holds the key of every
      valid entry, a run inserts nothing: each entry is dropped or skipped
      as already stored. */
  lemma {:induction false} NothingNewToStore(rows: seq<Record>, entries: seq<Record>,
                                             faults: nat -> RemoteFaults)
    requires forall i :: 0 <= i < |entries| ==> !faults(i).checkFails
    requires forall i :: 0 <= i < |entries| && !MissingRequired(entries[i]) ==>
               HasKey(rows, KeyOf(entries[i]))
    ensures var r := Run(rows, entries, faults);
            r.rows == rows && forall i :: 0 <= i < |r.log| ==> r.log[i] in {Dropped, AlreadyStored}
  {
    if entries != [] {
      var n := |entries| - 1;
      NothingNewToStore(rows, entries[..n], faults);
    }
  }

  /** Idempotence: running `process_feed` a second time on the same feed
      adds nothing, provided no insert failed in the first run and no query
      fails in the second. */
  lemma SecondRunAddsNothing(rows: seq<Record>, entries: seq<Record>,
                             f: nat -> RemoteFaults, g: nat -> RemoteFaults)
    requires forall i :: 0 <= i < |entries| ==> !f(i).insertFails
    requires forall i :: 0 <= i < |entries| ==> !g(i).checkFails
    ensures var once := Run(rows, entries, f).rows;
            var twice := Run(once, entries, g);
            twice.rows == once && forall i :: 0 <= i < |twice.log| ==> twice.log[i] != Stored
  {
    var once := Run(rows, entries, f).rows;
    forall i | 0 <= i < |entries| && !MissingRequired(entries[i])
      ensures HasKey(once, KeyOf(entries[i]))
    {
      EveryValidKeyPresent(rows, entries, f, i);
    }
    NothingNewToStore(once, entries, g);
  }

  /** Treating a failed query as "not found" can store the same entry
      twice: a valid entry repeated in the feed, with every query failing,
      ends up in the table twice. */
  lemma CheckFailureCanDuplicate(e: Record, faults: nat -> RemoteFaults)
    requires !MissingRequired(e)
    requires faults(0) == faults(1) == RemoteFaults(true, false)
    ensures Run([], [e, e], faults).rows == [e, e]
  {
    var es := [e, e];
    assert es[..1] == [e] && es[..1][..0] == [];
    assert Run([], [e], faults).rows == [e];
  }

  /** A valid entry meets an empty table: one insert of its four normalised
      fields; a second run over the same entry finds it and inserts
      nothing. */
  lemma SingleEntryTwice(e: Record, f: nat -> RemoteFaults, g: nat -> RemoteFaults)
    requires !MissingRequired(e)
    requires f(0) == g(0) == RemoteFaults(false, false)
    ensures var once := Run([], [e], f);
            once.rows == [e] && once.log == [Stored] &&
            Run(once.rows, [e], g) == State(once.rows, [AlreadyStored])
  {
    var es := [e];
    assert es[..0] == [];
    assert KeyOf([e][0]) == KeyOf(e);
  }
}
