/** The two persisted stores and the cache fallback around a fetch (main.py,
    the load/save helpers and the end of `fetch_releases_from_page`).

    File I/O is replaced by a `Disk` value: what the seen-set file and the
    cache file currently hold, `None` for a file that does not exist.  The
    seen-set file is a JSON array whose order does not matter, so it is
    modelled by the set it denotes. */
module Store {
  import opened Wrappers
  import opened Releases

  datatype Disk = Disk(seenFile: Option<set<string>>, cacheFile: Option<seq<Release>>)

  /** The process-wide state: the in-memory seen-set and cache, and the
      files behind them. */
  datatype State = State(seen: set<string>, cache: seq<Release>, disk: Disk)

  /** Memory agrees with what a restart would load from disk. */
  predicate Synced(s: State) {
    s.disk.seenFile.GetOr({}) == s.seen && s.disk.cacheFile.GetOr([]) == s.cache
  }

  /** Start-up: each store is loaded from its file, or starts empty when the
      file does not exist. */
  function Startup(disk: Disk): (s: State)
    ensures Synced(s)
    ensures disk.seenFile.None? ==> s.seen == {}
    ensures disk.cacheFile.None? ==> s.cache == []
    ensures s.disk == disk
  {
    State(disk.seenFile.GetOr({}), disk.cacheFile.GetOr([]), disk)
  }

  /** The result of a fetch with fallback: the records handed to the caller,
      the cache afterwards, and whether the cache file was rewritten. */
  datatype Fetched = Fetched(releases: seq<Release>, cache: seq<Release>, saved: bool)

  /** `page` is the parsed page's rows, or `None` when the request or the
      parse raised.  A non-empty parse replaces the cache (and its file) and
      is returned; anything else returns the old cache untouched. */
  function FetchReleases(cache: seq<Release>, page: Option<seq<Row>>): (f: Fetched)
    ensures f.saved <==> page.Some? && ParseRows(page.value) != []
    ensures f.saved ==> f.releases == ParseRows(page.value)
    ensures !f.saved ==> f.releases == cache
    ensures f.cache == f.releases
    ensures cache != [] ==> f.releases != []
  {
    match page
    case Some(rows) =>
      var parsed := ParseRows(rows);
      if parsed != [] then Fetched(parsed, parsed, true) else Fetched(cache, cache, false)
    case None =>
      Fetched(cache, cache, false)
  }

  /** Fetching through the state: the cache file is rewritten exactly when
      the cache is replaced, so memory and disk stay in step. */
  function FetchInto(s: State, page: Option<seq<Row>>): (res: (State, Fetched))
    ensures res.1 == FetchReleases(s.cache, page)
    ensures Synced(s) ==> Synced(res.0)
    ensures res.0.seen == s.seen && res.0.disk.seenFile == s.disk.seenFile
    ensures res.0.cache == res.1.releases
    ensures !res.1.saved ==> res.0 == s
  {
    var f := FetchReleases(s.cache, page);
    var disk := if f.saved then s.disk.(cacheFile := Some(f.cache)) else s.disk;
    (State(s.seen, f.cache, disk), f)
  }

  /** After a successful fetch, a failed one serves that same listing. */
  lemma FallbackServesLastGood(cache: seq<Release>, rows: seq<Row>, later: Option<seq<Row>>)
    requires ParseRows(rows) != []
    requires later.None? || ParseRows(later.value) == []
    ensures FetchReleases(FetchReleases(cache, Some(rows)).cache, later).releases == ParseRows(rows)
  {
  }

  /** Every record served is one the parser produced, now or earlier, so
      a well-formed cache stays well formed. */
  lemma FetchKeepsWellFormed(cache: seq<Release>, page: Option<seq<Row>>)
    requires forall k :: 0 <= k < |cache| ==> WellFormed(cache[k])
    ensures var f := FetchReleases(cache, page);
            forall k :: 0 <= k < |f.releases| ==> WellFormed(f.releases[k])
  {
  }
}
