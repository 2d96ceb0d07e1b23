/** One cycle of the hourly release monitor and the `.latestrelease`
    listing (main.py, `monitor_new_releases` and `latestrelease`).

    The chat platform is abstracted away: a message is the list of its
    entries, and an entry keeps the three texts a field is built from.
    Emoji, colours, footers, timestamps and the pauses between messages are
    not modelled. */
module Monitor {
  import opened Wrappers
  import opened Text
  import opened Releases
  import opened Store
  import opened Detection
  import opened Batching

  const NotifyBatch: nat := 5
  const ListingPageSize: nat := 10
  const TitleLimit: nat := 80
  const TitleKeep: nat := 77

  /** `.latestrelease` truncates a title longer than 80 characters to its
      first 77 plus "...", so that it fits the platform's field limit. */
  function TruncateTitle(title: string): (r: string)
    ensures |r| <= TitleLimit
    ensures |title| <= TitleLimit ==> r == title
    ensures |title| > TitleLimit ==> |r| == TitleLimit && r[..TitleKeep] == title[..TitleKeep] && r[TitleKeep..] == Ellipsis
  {
    Abbreviate(title, TitleLimit, TitleKeep)
  }

  /** Truncation is idempotent: a displayed title displays unchanged. */
  lemma TruncateTitleIdempotent(title: string)
    ensures TruncateTitle(TruncateTitle(title)) == TruncateTitle(title)
  {
    AbbreviateIdempotent(title, TitleLimit, TitleKeep);
  }

  /** One field of a message: the displayed title, the release and the
      group. */
  datatype Entry = Entry(name: string, chapter: string, group: string)

  /** The fields for a list of records; the listing truncates titles, the
      new-release notifications show them in full. */
  function Render(rs: seq<Release>, truncate: bool): (es: seq<Entry>)
    ensures |es| == |rs|
    ensures forall k :: 0 <= k < |rs| ==>
      && es[k].chapter == rs[k].chapter
      && es[k].group == rs[k].group
      && es[k].name == (if truncate then TruncateTitle(rs[k].title) else rs[k].title)
  {
    seq(|rs|, k requires 0 <= k < |rs| =>
      Entry(if truncate then TruncateTitle(rs[k].title) else rs[k].title, rs[k].chapter, rs[k].group))
  }

  lemma RenderAppend(a: seq<Release>, b: seq<Release>, truncate: bool)
    ensures Render(a + b, truncate) == Render(a, truncate) + Render(b, truncate)
  {
  }

  /** One message per batch. */
  function RenderBatches(batches: seq<seq<Release>>, truncate: bool): (ms: seq<seq<Entry>>)
    ensures |ms| == |batches|
    ensures forall k :: 0 <= k < |batches| ==> ms[k] == Render(batches[k], truncate)
  {
    seq(|batches|, k requires 0 <= k < |batches| => Render(batches[k], truncate))
  }

  /** Rendering batch by batch and reading the messages in order gives the
      rendering of the whole list. */
  lemma {:induction false} RenderBatchesFlatten(batches: seq<seq<Release>>, truncate: bool)
    ensures Flatten(RenderBatches(batches, truncate)) == Render(Flatten(batches), truncate)
    decreases |batches|
  {
    if batches != [] {
      RenderBatchesFlatten(batches[1..], truncate);
      assert RenderBatches(batches, truncate)[1..] == RenderBatches(batches[1..], truncate);
      RenderAppend(batches[0], Flatten(batches[1..]), truncate);
    }
  }

  /** What one monitor cycle did: the new releases, the messages sent (one
      per batch of at most five), and which files were rewritten. */
  datatype Report = Report(
    newReleases: seq<Release>,
    messages: seq<seq<Entry>>,
    seenSaved: bool,
    cacheSaved: bool)

  /** One pass of the monitor loop body, given the outcome of the page fetch
      (`None` when it raised): fetch with fallback, diff against the
      seen-set, save the seen-set if anything is new, and post the new
      releases in batches of five. */
  function MonitorCycle(s: State, page: Option<seq<Row>>): (res: (State, Report))
    ensures res.0.seen == s.seen + Keys(FetchReleases(s.cache, page).releases)
    ensures res.1.seenSaved <==> res.1.newReleases != []
    ensures res.1.seenSaved <==> res.0.seen != s.seen
    ensures !res.1.seenSaved ==> res.0.disk.seenFile == s.disk.seenFile
    ensures Synced(s) ==> Synced(res.0)
    ensures res.0.cache == FetchReleases(s.cache, page).cache
    ensures res.1.cacheSaved == FetchReleases(s.cache, page).saved
    ensures res.0.disk.cacheFile == (if res.1.cacheSaved then Some(res.0.cache) else s.disk.cacheFile)
    ensures Shaped(res.1.messages, NotifyBatch)
    ensures Flatten(res.1.messages) == Render(res.1.newReleases, false)
  {
    var fetch := FetchInto(s, page);
    var fetched, f := fetch.0, fetch.1;
    var c := Detect(s.seen, f.releases);
    SeenChangesIffNew(s.seen, f.releases);
    var saved := c.newReleases != [];
    var disk := if saved then fetched.disk.(seenFile := Some(c.seen)) else fetched.disk;
    var batches := Chunks(c.newReleases, NotifyBatch);
    ChunksFlatten(c.newReleases, NotifyBatch);
    RenderBatchesFlatten(batches, false);
    (State(c.seen, fetched.cache, disk), Report(c.newReleases, RenderBatches(batches, false), saved, f.saved))
  }

  /** The new releases of a cycle are the first sightings of unseen keys in
      the served listing, in page order, and are posted in ceil(n / 5)
      messages. */
  lemma MonitorCycleReports(s: State, page: Option<seq<Row>>)
    ensures var report := MonitorCycle(s, page).1;
            var served := FetchReleases(s.cache, page).releases;
            && report.newReleases == FirstSightings(s.seen, served)
            && |report.messages| == (|report.newReleases| + NotifyBatch - 1) / NotifyBatch
  {
    var served := FetchReleases(s.cache, page).releases;
    DetectIsFirstSightings(s.seen, served);
    ChunkCount(Detect(s.seen, served).newReleases, NotifyBatch);
  }

  /** A second cycle that sees the same page again, or whose fetch fails and
      falls back to the cache, finds nothing new, sends nothing and does not
      rewrite the seen-set file. */
  lemma SecondCycleIsQuiet(s: State, page: Option<seq<Row>>, again: Option<seq<Row>>)
    requires again == page || again.None?
    ensures var s1 := MonitorCycle(s, page).0;
            var s2 := MonitorCycle(s1, again).0;
            var report := MonitorCycle(s1, again).1;
            && report.newReleases == []
            && report.messages == []
            && !report.seenSaved
            && s2.seen == s1.seen
            && s2.disk.seenFile == s1.disk.seenFile
  {
  }

  /** One screen of the `.latestrelease` listing: the label "Showing
      first-last of total" and its entries. */
  datatype Page = Page(first: nat, last: nat, total: nat, entries: seq<Entry>)

  /** The pages for the batches of the listing, the first one starting at
      offset `start`; as in the source, the label of the page at offset `i`
      reads `i + 1` to `min(i + 10, total)`. */
  function PagesFrom(batches: seq<seq<Release>>, start: nat, total: nat): seq<Page>
    decreases |batches|
  {
    if batches == [] then []
    else
      [Page(start + 1, Min(start + ListingPageSize, total), total, Render(batches[0], true))]
      + PagesFrom(batches[1..], start + ListingPageSize, total)
  }

  function ListingPages(rs: seq<Release>): seq<Page> {
    PagesFrom(Chunks(rs, ListingPageSize), 0, |rs|)
  }

  /** The page at position `k` starts at offset `start + 10k` and shows the
      `k`-th batch. */
  lemma {:induction false} PagesFromAt(batches: seq<seq<Release>>, start: nat, total: nat)
    ensures var ps := PagesFrom(batches, start, total);
      && |ps| == |batches|
      && forall k :: 0 <= k < |ps| ==>
           ps[k] == Page(start + k * ListingPageSize + 1,
                         Min(start + k * ListingPageSize + ListingPageSize, total),
                         total, Render(batches[k], true))
    decreases |batches|
  {
    if batches != [] {
      var tail := PagesFrom(batches[1..], start + ListingPageSize, total);
      PagesFromAt(batches[1..], start + ListingPageSize, total);
      var ps := PagesFrom(batches, start, total);
      assert ps == [ps[0]] + tail;
      forall k | 0 < k < |ps|
        ensures ps[k] == Page(start + k * ListingPageSize + 1,
                              Min(start + k * ListingPageSize + ListingPageSize, total),
                              total, Render(batches[k], true))
      {
        assert ps[k] == tail[k - 1];
        assert batches[k] == batches[1..][k - 1];
      }
    }
  }

  /** The labels of consecutive pages cover `start + 1 .. total` without gap
      or overlap, and each page's label counts exactly its entries. */
  lemma PagesFromLabels(batches: seq<seq<Release>>, start: nat, total: nat)
    requires Shaped(batches, ListingPageSize)
    requires start + |Flatten(batches)| == total
    ensures var ps := PagesFrom(batches, start, total);
      && |ps| == |batches|
      && (forall k :: 0 <= k < |ps| ==>
            && ps[k].total == total
            && ps[k].entries == Render(batches[k], true)
            && ps[k].last == ps[k].first + |batches[k]| - 1)
      && (forall k :: 0 <= k < |ps| - 1 ==> ps[k + 1].first == ps[k].last + 1)
      && (ps != [] ==> ps[0].first == start + 1 && ps[|ps| - 1].last == total)
  {
    PagesFromAt(batches, start, total);
    if batches != [] {
      var n := |batches|;
      ShapedLength(batches, ListingPageSize);
      OffsetIsProduct(n - 1, ListingPageSize);
      assert total == start + (n - 1) * ListingPageSize + |batches[n - 1]|;
    }
  }

  /** Reading the listing's pages in order shows every record once, in page
      order, with its title truncated; page labels run from 1 to the number
      of records without gap, and there are ceil(n / 10) pages. */
  lemma ListingPagesPartition(rs: seq<Release>)
    requires rs != []
    ensures var ps := ListingPages(rs);
      && |ps| == (|rs| + ListingPageSize - 1) / ListingPageSize
      && ps[0].first == 1
      && ps[|ps| - 1].last == |rs|
      && (forall k :: 0 <= k < |ps| - 1 ==> ps[k + 1].first == ps[k].last + 1)
      && (forall k :: 0 <= k < |ps| ==>
            && ps[k].total == |rs|
            && 0 < |ps[k].entries| <= ListingPageSize
            && ps[k].last - ps[k].first + 1 == |ps[k].entries|)
      && Flatten(seq(|ps|, k requires 0 <= k < |ps| => ps[k].entries)) == Render(rs, true)
  {
    var batches := Chunks(rs, ListingPageSize);
    ChunksFlatten(rs, ListingPageSize);
    ChunkCount(rs, ListingPageSize);
    PagesFromLabels(batches, 0, |rs|);
    var ps := ListingPages(rs);
    var entries := seq(|ps|, k requires 0 <= k < |ps| => ps[k].entries);
    assert entries == RenderBatches(batches, true);
    RenderBatchesFlatten(batches, true);
  }

  /** The reply to `.latestrelease`: the listing pages, or the "no release
      data" message when nothing is available. */
  datatype Reply = Listing(pages: seq<Page>) | NoData

  /** `.latestrelease`: fetch with fallback (which may refresh the cache)
      and show the whole listing ten records at a time. */
  function LatestRelease(s: State, page: Option<seq<Row>>): (res: (State, Reply))
    ensures var served := FetchReleases(s.cache, page).releases;
      && (res.1.NoData? <==> served == [])
      && (res.1.NoData? ==> s.cache == [])
      && (served != [] ==> res.1 == Listing(ListingPages(served)))
      && res.0.cache == FetchReleases(s.cache, page).cache
      && res.0.disk.cacheFile ==
           (if FetchReleases(s.cache, page).saved then Some(res.0.cache) else s.disk.cacheFile)
      && res.0.seen == s.seen
      && res.0.disk.seenFile == s.disk.seenFile
      && (Synced(s) ==> Synced(res.0))
  {
    var fetch := FetchInto(s, page);
    var s', f := fetch.0, fetch.1;
    if f.releases != [] then (s', Listing(ListingPages(f.releases))) else (s', NoData)
  }

  /** Whenever `.latestrelease` has data, its reply shows every served
      record once, in order, with its title truncated, on pages labelled
      from 1 to the number of records. */
  lemma LatestReleaseShowsAll(s: State, page: Option<seq<Row>>)
    ensures var served := FetchReleases(s.cache, page).releases;
      var reply := LatestRelease(s, page).1;
      served != [] ==>
        && reply.Listing?
        && |reply.pages| == (|served| + ListingPageSize - 1) / ListingPageSize
        && reply.pages[0].first == 1
        && reply.pages[|reply.pages| - 1].last == |served|
        && Flatten(seq(|reply.pages|, k requires 0 <= k < |reply.pages| => reply.pages[k].entries))
           == Render(served, true)
  {
    var served := FetchReleases(s.cache, page).releases;
    if served != [] {
      ListingPagesPartition(served);
    }
  }
}
