/** Release records and their extraction from the rows of the releases page
    (main.py, `fetch_releases_from_page`, the per-row loop).

    HTML traversal is abstracted away: a scraped row is the sequence of the
    texts of its matching column elements, in document order and already
    stripped, plus the text of the `<span>` inside the first column when the
    first column has one. */
module Releases {
  import opened Wrappers
  import opened Text

  /** One scraped row: `columns[k]` is `get_text(strip=True)` of the k-th
      matching column; `span` is the stripped text of the first column's
      span element, if it has one. */
  datatype Row = Row(columns: seq<string>, span: Option<string>)

  /** A release record as stored in the cache file and compared by key. */
  datatype Release = Release(title: string, chapter: string, group: string, key: string)

  const Delimiter: char := '|'
  const UnknownGroup: string := "Unknown"

  /** The identity key `f"{title}|{release}|{group}"`, built from the RAW
      group text (empty when the page shows no group). */
  function MakeKey(title: string, release: string, rawGroup: string): string {
    title + [Delimiter] + release + [Delimiter] + rawGroup
  }

  /** The title text: the span's text when the first column has a span,
      otherwise the first column's own text.  A span whose text is empty
      still wins, since a found tag is always truthy. */
  function TitleText(row: Row): string
    requires |row.columns| >= 1
  {
    match row.span
    case Some(t) => t
    case None => row.columns[0]
  }

  /** The group that is displayed and stored: "Unknown" stands in for an
      empty group. */
  function DisplayGroup(rawGroup: string): (g: string)
    ensures g != []
    ensures rawGroup == [] ==> g == UnknownGroup
    ensures rawGroup != [] ==> g == rawGroup
  {
    if rawGroup == [] then UnknownGroup else rawGroup
  }

  /** What every record the parser produces looks like: non-empty title,
      chapter and group, and a key made from the title, the chapter and the
      raw group, which is either the stored group or (when the stored group
      is the "Unknown" stand-in) empty. */
  predicate WellFormed(r: Release) {
    && r.title != []
    && r.chapter != []
    && r.group != []
    && (r.key == MakeKey(r.title, r.chapter, r.group)
        || (r.group == UnknownGroup && r.key == MakeKey(r.title, r.chapter, [])))
  }

  /** Turns one row into a record, or rejects it. */
  function ParseRow(row: Row): (r: Option<Release>)
    ensures r.Some? <==>
      |row.columns| >= 3 && TitleText(row) != [] && row.columns[1] != []
    ensures r.Some? ==>
      && WellFormed(r.value)
      && r.value.title == TitleText(row)
      && r.value.chapter == row.columns[1]
      && (r.value.group == UnknownGroup <==> row.columns[2] in {[], UnknownGroup})
      && r.value.key == MakeKey(r.value.title, r.value.chapter, row.columns[2])
  {
    if |row.columns| < 3 then None
    else
      var title := TitleText(row);
      var release := row.columns[1];
      var group := row.columns[2];
      if title != [] && release != [] then
        Some(Release(title, release, DisplayGroup(group), MakeKey(title, release, group)))
      else
        None
  }

  /** The records of all accepted rows, in page order. */
  function ParseRows(rows: seq<Row>): (rs: seq<Release>)
    ensures |rs| <= |rows|
    ensures forall k :: 0 <= k < |rs| ==> WellFormed(rs[k])
    decreases |rows|
  {
    if rows == [] then []
    else
      var rest := ParseRows(rows[1..]);
      match ParseRow(rows[0])
      case Some(r) => [r] + rest
      case None => rest
  }

  /** Columns past the third one never influence the record. */
  lemma ExtraColumnsIgnored(cols: seq<string>, extra: seq<string>, span: Option<string>)
    requires |cols| >= 3
    ensures ParseRow(Row(cols + extra, span)) == ParseRow(Row(cols, span))
  {
  }

  /** Parsing distributes over concatenation of row lists, so the records of
      a page are the records of its parts, in order. */
  lemma {:induction false} ParseRowsAppend(a: seq<Row>, b: seq<Row>)
    ensures ParseRows(a + b) == ParseRows(a) + ParseRows(b)
    decreases |a|
  {
    if a == [] {
      assert a + b == b;
    } else {
      assert (a + b)[0] == a[0];
      assert (a + b)[1..] == a[1..] + b;
      ParseRowsAppend(a[1..], b);
      assert a + b != [];
      match ParseRow(a[0])
      case Some(r) =>
        assert ParseRows(a) == [r] + ParseRows(a[1..]);
        assert ParseRows(a + b) == [r] + ParseRows(a[1..] + b);
      case None =>
        assert ParseRows(a) == ParseRows(a[1..]);
        assert ParseRows(a + b) == ParseRows(a[1..] + b);
    }
  }

  /** When every row is well formed, there is exactly one record per row, at
      the same position. */
  lemma {:induction false} ParseRowsAllAccepted(rows: seq<Row>)
    requires forall k :: 0 <= k < |rows| ==> ParseRow(rows[k]).Some?
    ensures |ParseRows(rows)| == |rows|
    ensures forall k :: 0 <= k < |rows| ==> ParseRows(rows)[k] == ParseRow(rows[k]).value
    decreases |rows|
  {
    if rows != [] {
      ParseRowsAllAccepted(rows[1..]);
      var rs := ParseRows(rows);
      assert rs == [ParseRow(rows[0]).value] + ParseRows(rows[1..]);
      forall k | 0 <= k < |rows|
        ensures rs[k] == ParseRow(rows[k]).value
      {
        if k > 0 {
          assert rows[1..][k - 1] == rows[k];
        }
      }
    }
  }

  /** Rows that are all rejected contribute no record at all. */
  lemma {:induction false} ParseRowsAllRejected(rows: seq<Row>)
    requires forall k :: 0 <= k < |rows| ==> ParseRow(rows[k]).None?
    ensures ParseRows(rows) == []
    decreases |rows|
  {
    if rows != [] {
      ParseRowsAllRejected(rows[1..]);
    }
  }

  /** With the other two fields fixed, a different title gives a different
      key. */
  lemma KeySeparatesTitles(t1: string, t2: string, release: string, rawGroup: string)
    requires t1 != t2
    ensures MakeKey(t1, release, rawGroup) != MakeKey(t2, release, rawGroup)
  {
    var tail := [Delimiter] + release + [Delimiter] + rawGroup;
    assert MakeKey(t1, release, rawGroup) == t1 + tail;
    assert MakeKey(t2, release, rawGroup) == t2 + tail;
    if t1 + tail == t2 + tail {
      CancelSuffix(t1, t2, tail);
    }
  }

  /** With the other two fields fixed, a different release gives a different
      key. */
  lemma KeySeparatesReleases(title: string, r1: string, r2: string, rawGroup: string)
    requires r1 != r2
    ensures MakeKey(title, r1, rawGroup) != MakeKey(title, r2, rawGroup)
  {
    var head := title + [Delimiter];
    var tail := [Delimiter] + rawGroup;
    assert MakeKey(title, r1, rawGroup) == head + (r1 + tail);
    assert MakeKey(title, r2, rawGroup) == head + (r2 + tail);
    if head + (r1 + tail) == head + (r2 + tail) {
      CancelPrefix(head, r1 + tail, r2 + tail);
      CancelSuffix(r1, r2, tail);
    }
  }

  /** With the other two fields fixed, a different raw group gives a
      different key. */
  lemma KeySeparatesGroups(title: string, release: string, g1: string, g2: string)
    requires g1 != g2
    ensures MakeKey(title, release, g1) != MakeKey(title, release, g2)
  {
    var head := title + [Delimiter] + release + [Delimiter];
    assert MakeKey(title, release, g1) == head + g1;
    assert MakeKey(title, release, g2) == head + g2;
    if head + g1 == head + g2 {
      CancelPrefix(head, g1, g2);
    }
  }

  /** Splitting a key on the delimiter gives back title, release and raw
      group, provided none of them contains the delimiter. */
  lemma KeyRoundTrip(title: string, release: string, rawGroup: string)
    requires Delimiter !in title && Delimiter !in release && Delimiter !in rawGroup
    ensures Split(MakeKey(title, release, rawGroup), Delimiter) == [title, release, rawGroup]
  {
    var rest := release + [Delimiter] + rawGroup;
    assert MakeKey(title, release, rawGroup) == title + [Delimiter] + rest;
    SplitPrefix(title, Delimiter, rest);
    SplitPrefix(release, Delimiter, rawGroup);
    SplitNoDelimiter(rawGroup, Delimiter);
  }

  /** The delimiter is not escaped, so different field triples can share a
      key once a field contains '|'. */
  lemma KeyCollision()
    ensures MakeKey("a|b", "c", "d") == MakeKey("a", "b|c", "d")
    ensures ("a|b", "c") != ("a", "b|c")
  {
  }

  /** A row without a group is stored with group "Unknown" but keyed on the
      empty raw group, so its key ends in the delimiter; a row whose group
      really reads "Unknown" is displayed identically yet keyed differently. */
  lemma RawGroupInKey(title: string, release: string, span: Option<string>)
    requires span.Some? ==> span.value != []
    requires title != [] && release != []
    ensures var blank := ParseRow(Row([title, release, []], span));
            var named := ParseRow(Row([title, release, UnknownGroup], span));
            && blank.Some? && named.Some?
            && blank.value.group == named.value.group == UnknownGroup
            && blank.value.title == named.value.title
            && blank.value.chapter == named.value.chapter
            && blank.value.key[|blank.value.key| - 1] == Delimiter
            && blank.value.key != named.value.key
  {
  }
}
