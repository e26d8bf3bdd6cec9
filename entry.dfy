/**
  One feed entry, from the fields feedparser hands over to the four
  normalised values the script checks and stores.
 */
module FeedEntry {
  import opened Unicode
  import Utf8

  /** A feedparser entry: a dictionary from field names to text. A field
      the feed did not provide is absent from the map. */
  type RawEntry = map<string, Text>

  /** A row of the `rss_entries` table, and the four normalised fields of
      an entry, in the order they are stored. */
  datatype Record = Record(title: Text, content: Text, published: Text, link: Text)

  /** `entry.get(key, "")`: the field's text, or the empty text for a
      field the feed did not provide. */
  function Get(e: RawEntry, key: string): (r: Text)
    ensures key in e ==> r == e[key]
    ensures key !in e ==> r == []
  {
    if key in e then e[key] else []
  }

  /** One field as the script cleans it: `strip()` first, then the
      `encode("utf-8", "ignore").decode("utf-8")` round trip, which drops
      the lone surrogates (`Utf8.Sanitize`). */
  function NormalizeField(s: Text): (r: Text)
    ensures NoSurrogates(r)
    ensures |r| <= |s|
  {
    DropSurrogates(Strip(s))
  }

  /** None of the four fields holds a lone surrogate. */
  predicate Clean(r: Record) {
    NoSurrogates(r.title) && NoSurrogates(r.content) &&
    NoSurrogates(r.published) && NoSurrogates(r.link)
  }

  /** The four values the script derives from an entry. The stored
      `content` comes from the entry's `summary` field. */
  function Normalize(e: RawEntry): (r: Record)
    ensures Clean(r)
  {
    Record(NormalizeField(Get(e, "title")), NormalizeField(Get(e, "summary")),
           NormalizeField(Get(e, "published")), NormalizeField(Get(e, "link")))
  }

  /** The normalisation as the script writes it: each of the four fields
      read with `entry.get(key, "")`, stripped, then passed through the
      UTF-8 round trip. */
  method NormalizeEntry(entry: RawEntry) returns (title: Text, content: Text, published: Text, link: Text)
    ensures Record(title, content, published, link) == Normalize(entry)
  {
    title := Utf8.Sanitize(Strip(Get(entry, "title")));
    content := Utf8.Sanitize(Strip(Get(entry, "summary")));
    published := Utf8.Sanitize(Strip(Get(entry, "published")));
    link := Utf8.Sanitize(Strip(Get(entry, "link")));
  }

  /** The normalised fields of every entry of a feed, in feed order: the
      map that `Ingest.ProcessFeed`'s loop invariant is stated over, one
      record per entry. */
  function NormalizeAll(entries: seq<RawEntry>): (r: seq<Record>)
    ensures |r| == |entries|
  {
    if entries == [] then []
    else
      NormalizeAll(entries[..|entries| - 1]) + [Normalize(entries[|entries| - 1])]
  }

  /** The `i`-th record is the normalisation of the `i`-th entry: entries
      are normalised independently and keep their feed order. */
  lemma {:induction false} NormalizeAllAt(entries: seq<RawEntry>, i: nat)
    requires i < |entries|
    ensures NormalizeAll(entries)[i] == Normalize(entries[i])
  {
    if i < |entries| - 1 {
      var init := entries[..|entries| - 1];
      NormalizeAllAt(init, i);
      assert init[i] == entries[i];
    }
  }

  /** Every normalised entry of a feed is free of lone surrogates. */
  lemma NormalizeAllClean(entries: seq<RawEntry>)
    ensures forall i :: 0 <= i < |entries| ==> Clean(NormalizeAll(entries)[i])
  {
    forall i | 0 <= i < |entries| ensures Clean(NormalizeAll(entries)[i]) {
      NormalizeAllAt(entries, i);
    }
  }

  /** Normalising one more entry appends its record: the step of
      `Ingest.ProcessFeed`'s loop invariant. */
  lemma NormalizeAllExtend(entries: seq<RawEntry>, i: nat)
    requires i < |entries|
    ensures NormalizeAll(entries[..i + 1]) == NormalizeAll(entries[..i]) + [Normalize(entries[i])]
  {
    assert entries[..i + 1][..i] == entries[..i];
  }

  /** The validation test `not title or not link or not pub_date`: a
      Python string is false exactly when it has length zero, and the
      content takes no part in the test. */
  predicate MissingRequired(r: Record)
    ensures MissingRequired(r) <==> |r.title| == 0 || |r.link| == 0 || |r.published| == 0
  {
    r.title == [] || r.link == [] || r.published == []
  }

  predicate OnlySurrogates(s: Text) {
    forall k :: 0 <= k < |s| ==> IsSurrogate(s[k])
  }

  /** A field normalises to the empty text exactly when what `strip()`
      leaves of it is made of lone surrogates only. */
  lemma NormalizeFieldEmpty(s: Text)
    ensures NormalizeField(s) == [] <==> OnlySurrogates(Strip(s))
  {
    var t := Strip(s);
    DropSurrogatesEmpty(t);
  }

  /** An absent field, and a field of whitespace only, normalise to the
      empty text. */
  lemma SpaceOnlyFieldIsEmpty(s: Text)
    requires AllSpace(s)
    ensures NormalizeField(s) == []
  {
    StripIdempotent(s);
  }

  /** Because `strip()` runs before the surrogates are dropped, whitespace
      that sat between surrogates survives: a field made only of whitespace
      and lone surrogates need not normalise to empty, and a normalised
      field may begin or end with whitespace. */
  lemma InnerSpaceSurvives()
    ensures NormalizeField([0xD800, 0x20, 0xDC00]) == [0x20]
  {
    var s: Text := [0xD800, 0x20, 0xDC00];
    assert TrimLeft(s) == s;
    assert TrimRight(s) == s;
    assert s[1..][1..] == [0xDC00];
    assert DropSurrogates(s) == Keep(s[0]) + (Keep(s[1]) + DropSurrogates(s[1..][1..]));
  }

  /** On text without lone surrogates normalising is just `strip()`, and
      normalising it again changes nothing. */
  lemma NormalizeFieldOfCleanText(s: Text)
    requires NoSurrogates(s)
    ensures NormalizeField(s) == Strip(s)
    ensures NormalizeField(NormalizeField(s)) == NormalizeField(s)
  {
    var i, j := StripIsSlice(s);
    assert NoSurrogates(s[i..j]);
    StripIdempotent(s);
  }

  /** The exact condition, on the fields as the feed gave them, under which
      an entry is dropped; the `summary` field plays no part in it. */
  lemma DroppedExactly(e: RawEntry)
    ensures MissingRequired(Normalize(e)) <==>
      OnlySurrogates(Strip(Get(e, "title"))) ||
      OnlySurrogates(Strip(Get(e, "link"))) ||
      OnlySurrogates(Strip(Get(e, "published")))
  {
    NormalizeFieldEmpty(Get(e, "title"));
    NormalizeFieldEmpty(Get(e, "link"));
    NormalizeFieldEmpty(Get(e, "published"));
  }

  /** Whatever the `summary` field holds, even nothing, does not change
      whether an entry passes validation. */
  lemma ContentNotRequired(e: RawEntry, summary: Text)
    ensures MissingRequired(Normalize(e["summary" := summary])) == MissingRequired(Normalize(e))
  {
    var e' := e["summary" := summary];
    assert Get(e', "title") == Get(e, "title");
    assert Get(e', "link") == Get(e, "link");
    assert Get(e', "published") == Get(e, "published");
  }
}
