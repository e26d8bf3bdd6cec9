/**
  The remote `rss_entries` table, held in memory as the sequence of its
  rows, with the two operations the script performs on it: the filtered
  existence query and the insert. Whether a remote call fails is not
  decided here: each operation is told by a flag of its caller.
 */
module Store {
  import opened Unicode
  import opened FeedEntry

  /** The two columns the existence query selects and filters on: the
      key by which entries are deduplicated. */
  datatype Key = Key(title: Text, published: Text)

  function KeyOf(r: Record): Key {
    Key(r.title, r.published)
  }

  /** Some row of `rows` has the key `k`. */
  predicate HasKey(rows: seq<Record>, k: Key) {
    exists i :: 0 <= i < |rows| && KeyOf(rows[i]) == k
  }

  /** `.select("title, published").eq("title", ..).eq("published", ..)`:
      the key columns of the rows whose title and published date both
      equal those of `k`. The query returns at least one row exactly when
      the table holds a row with that title and published date. */
  function Select(rows: seq<Record>, k: Key): (r: seq<Key>)
    ensures |r| <= |rows|
    ensures forall j :: 0 <= j < |r| ==> r[j] == k
    ensures |r| > 0 <==> HasKey(rows, k)
  {
    if rows == [] then []
    else
      var init := rows[..|rows| - 1];
      var last := rows[|rows| - 1];
      assert forall i :: 0 <= i < |init| ==> init[i] == rows[i];
      assert HasKey(rows, k) ==> HasKey(init, k) || KeyOf(last) == k;
      Select(init, k) + (if KeyOf(last) == k then [k] else [])
  }

  class Table {
    /** The rows of `rss_entries`, in insertion order. */
    var rows: seq<Record>

    constructor (initial: seq<Record>)
      ensures rows == initial
    {
      rows := initial;
    }

    /** `entry_exists(title, pub_date)`: whether some row has this title
        and this published date. When the query fails (`checkFails`) the
        error is swallowed and the entry is reported as absent. */
    method EntryExists(title: Text, published: Text, checkFails: bool) returns (found: bool)
      ensures found <==> !checkFails && HasKey(rows, Key(title, published))
    {
      if checkFails {
        found := false;
      } else {
        var data := Select(rows, Key(title, published));
        found := |data| > 0;
      }
    }

    /** `store_entry(title, content, pub_date, link)`: appends one row with
        the four values, or, when the insert fails (`insertFails`), leaves
        the table as it was and returns normally. `stored` tells which of
        its two log lines the function writes. */
    method StoreEntry(title: Text, content: Text, published: Text, link: Text, insertFails: bool)
      returns (stored: bool)
      modifies this
      ensures stored == !insertFails
      ensures rows == if insertFails then old(rows)
                      else old(rows) + [Record(title, content, published, link)]
    {
      stored := !insertFails;
      if stored {
        rows := rows + [Record(title, content, published, link)];
      }
    }
  }
}
