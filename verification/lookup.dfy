/** The pure parts of the on-demand commands `.lookup` and `.randomseries`
    (main.py): turning scraped links and texts into results, making links
    absolute, the length limits on displayed text, and the bounded retry
    over other letters when the first browse page lists nothing. */
module Lookup {
  import opened Wrappers
  import opened Text

  const Site: string := "https://www.mangaupdates.com"
  const Scheme: string := "http"

  /** A series link as used by `.randomseries`: relative links get the
      site prefixed, absolute ones are kept. */
  function SeriesLink(href: string): (url: string)
    ensures StartsWith(url, Scheme)
    ensures StartsWith(href, Scheme) ==> url == href
    ensures !StartsWith(href, Scheme) ==> url == Site + href
  {
    if StartsWith(href, Scheme) then href
    else
      assert (Site + href)[..|Scheme|] == Site[..|Scheme|];
      Site + href
  }

  /** A result link as used by `.lookup`: the same, except that a missing
      (empty) link stays empty. */
  function SearchLink(href: string): (url: string)
    ensures url == [] <==> href == []
    ensures url == [] || StartsWith(url, Scheme)
    ensures href != [] ==> url == SeriesLink(href)
  {
    if href != [] then SeriesLink(href) else href
  }

  /** Making a link absolute twice is the same as doing it once. */
  lemma LinksIdempotent(href: string)
    ensures SeriesLink(SeriesLink(href)) == SeriesLink(href)
    ensures SearchLink(SearchLink(href)) == SearchLink(href)
  {
  }

  /** An `<a>` element: its stripped text and its `href` ("" when absent). */
  datatype Anchor = Anchor(text: string, href: string)

  /** A search-result container: its first `<a>`, the text of its first
      `<span>`, and its own stripped text. */
  datatype SearchItem = SearchItem(anchor: Option<Anchor>, spanText: Option<string>, text: string)

  datatype SearchResult = SearchResult(title: string, link: string, info: string)

  const MinTitle: nat := 2
  const MaxItems: nat := 10
  const MaxShown: nat := 8
  const InfoLimit: nat := 200
  const ShownTitleLimit: nat := 100
  const DescriptionLimit: nat := 300

  /** The info text is kept, cut to 200 characters, only when it says more
      than the title. */
  function InfoSnippet(info: string, title: string): (r: string)
    ensures |r| <= InfoLimit
    ensures |info| <= |title| ==> r == []
    ensures |info| > |title| ==> StartsWith(info, r) && |r| == Min(InfoLimit, |info|)
  {
    if |info| > |title| then Clip(info, InfoLimit) else []
  }

  /** The title element's text: the link's if the container has a link,
      otherwise the span's, if any. */
  function TitleOf(item: SearchItem): Option<string> {
    match item.anchor
    case Some(a) => Some(a.text)
    case None => item.spanText
  }

  /** One container to one result: the title comes from the link if there is
      one, otherwise from the span; titles of two characters or fewer are
      dropped. */
  function SearchResultOf(item: SearchItem): (r: Option<SearchResult>)
    ensures r.Some? <==> |TitleOf(item).GetOr([])| > MinTitle
    ensures r.Some? ==> |r.value.title| > MinTitle && |r.value.info| <= InfoLimit
    ensures r.Some? ==> r.value.link == [] || StartsWith(r.value.link, Scheme)
    ensures item.anchor.Some? && r.Some? ==>
      r.value == SearchResult(item.anchor.value.text, SearchLink(item.anchor.value.href),
                              InfoSnippet(item.text, item.anchor.value.text))
    ensures item.anchor.None? && r.Some? ==>
      r.value == SearchResult(item.spanText.value, [], InfoSnippet(item.text, item.spanText.value))
  {
    var titled: Option<(string, string)> :=
      match item.anchor
      case Some(a) => Some((a.text, a.href))
      case None =>
        match item.spanText
        case Some(t) => Some((t, []))
        case None => None;
    match titled
    case None => None
    case Some((title, href)) =>
      if |title| > MinTitle then Some(SearchResult(title, SearchLink(href), InfoSnippet(item.text, title)))
      else None
  }

  /** The results of the first ten containers, in page order. */
  function SearchResults(items: seq<SearchItem>): (rs: seq<SearchResult>)
    ensures |rs| <= MaxItems
    ensures forall k :: 0 <= k < |rs| ==> |rs[k].title| > MinTitle
    ensures |items| <= MaxItems ==> rs == CollectResults(items)
  {
    var shown := items[..Min(MaxItems, |items|)];
    assert |items| <= MaxItems ==> shown == items;
    CollectResults(shown)
  }

  /** Containers after the tenth are never looked at. */
  lemma SearchResultsIgnoresRest(items: seq<SearchItem>, more: seq<SearchItem>)
    requires |items| >= MaxItems
    ensures SearchResults(items + more) == SearchResults(items)
  {
    assert (items + more)[..MaxItems] == items[..MaxItems];
  }

  /** Results are collected container by container, in page order. */
  lemma {:induction false} CollectResultsAppend(a: seq<SearchItem>, b: seq<SearchItem>)
    ensures CollectResults(a + b) == CollectResults(a) + CollectResults(b)
    decreases |a|
  {
    if a == [] {
      assert a + b == b;
    } else {
      assert (a + b)[0] == a[0];
      assert (a + b)[1..] == a[1..] + b;
      CollectResultsAppend(a[1..], b);
    }
  }

  /** One container contributes its result, if it has one. */
  lemma CollectResultsOne(item: SearchItem)
    ensures CollectResults([item]) == if SearchResultOf(item).Some? then [SearchResultOf(item).value] else []
  {
    assert [item][1..] == [];
  }

  function CollectResults(items: seq<SearchItem>): (rs: seq<SearchResult>)
    ensures |rs| <= |items|
    ensures forall k :: 0 <= k < |rs| ==> |rs[k].title| > MinTitle
    decreases |items|
  {
    if items == [] then []
    else
      var rest := CollectResults(items[1..]);
      match SearchResultOf(items[0])
      case Some(r) => [r] + rest
      case None => rest
  }

  /** A displayed search field: title cut to 100 characters, and the link or
      a "no link" note. */
  datatype Field = Field(name: string, value: string)

  const NoLink: string := "No link available"

  /** The fields of the reply: at most eight, one per result in order. */
  function SearchFields(rs: seq<SearchResult>): (fs: seq<Field>)
    ensures |fs| == Min(MaxShown, |rs|)
    ensures forall k :: 0 <= k < |fs| ==>
      && fs[k].name == Clip(rs[k].title, ShownTitleLimit)
      && |fs[k].name| == Min(ShownTitleLimit, |rs[k].title|)
      && StartsWith(rs[k].title, fs[k].name)
      && (rs[k].link != [] ==> fs[k].value == rs[k].link)
      && (rs[k].link == [] ==> fs[k].value == NoLink)
  {
    var shown := rs[..Min(MaxShown, |rs|)];
    seq(|shown|, k requires 0 <= k < |shown| =>
      Field(Clip(shown[k].title, ShownTitleLimit), if shown[k].link != [] then shown[k].link else NoLink))
  }

  /** The detail description: longer than 300 characters becomes its first
      300 plus "..." (303 characters in all). */
  function DetailDescription(desc: string): (r: string)
    ensures |r| <= DescriptionLimit + 3
    ensures |desc| <= DescriptionLimit ==> r == desc
    ensures |desc| > DescriptionLimit ==> |r| == DescriptionLimit + 3 && StartsWith(desc, r[..DescriptionLimit]) && r[DescriptionLimit..] == Ellipsis
  {
    Abbreviate(desc, DescriptionLimit, DescriptionLimit)
  }

  /** A series picked up from a browse page. */
  datatype Series = Series(title: string, url: string)

  /** The series of a browse page: links with a title longer than two
      characters, made absolute. */
  function ExtractSeries(links: seq<Anchor>): (ss: seq<Series>)
    ensures |ss| <= |links|
    ensures forall k :: 0 <= k < |ss| ==> |ss[k].title| > MinTitle && StartsWith(ss[k].url, Scheme)
    decreases |links|
  {
    if links == [] then []
    else
      var rest := ExtractSeries(links[1..]);
      if |links[0].text| > MinTitle then [Series(links[0].text, SeriesLink(links[0].href))] + rest else rest
  }

  /** The series of two runs of links are those of each run, in order. */
  lemma {:induction false} ExtractSeriesAppend(a: seq<Anchor>, b: seq<Anchor>)
    ensures ExtractSeries(a + b) == ExtractSeries(a) + ExtractSeries(b)
    decreases |a|
  {
    if a == [] {
      assert a + b == b;
    } else {
      assert (a + b)[0] == a[0];
      assert (a + b)[1..] == a[1..] + b;
      ExtractSeriesAppend(a[1..], b);
    }
  }

  /** One link gives one series, with an absolute url, exactly when its text
      is longer than two characters. */
  lemma ExtractSeriesOne(link: Anchor)
    ensures ExtractSeries([link]) ==
      if |link.text| > MinTitle then [Series(link.text, SeriesLink(link.href))] else []
  {
    assert [link][1..] == [];
  }

  const MaxRetries: nat := 3

  /** The retry loop of `.randomseries`.  `first` is the series of the
      first browse page; `retry(k)` is the link list of the page fetched on
      attempt `k` (for a letter chosen at random), or `None` when that
      request raised, which aborts the command.  The loop stops as soon as
      the list is non-empty, or after three attempts. */
  method FillSeriesList(first: seq<Series>, retry: nat -> Option<seq<Anchor>>)
    returns (list: seq<Series>, attempts: nat, failed: bool)
    ensures attempts <= MaxRetries
    ensures first != [] ==> list == first && attempts == 0 && !failed
    ensures forall k :: 0 <= k < attempts ==> retry(k).Some?
    ensures forall k :: 0 <= k < attempts - 1 ==> ExtractSeries(retry(k).value) == []
    ensures failed ==> first == [] && attempts < MaxRetries && retry(attempts).None?
    ensures failed ==> forall k :: 0 <= k < attempts ==> ExtractSeries(retry(k).value) == []
    ensures !failed ==> list != [] || attempts == MaxRetries
    ensures first == [] && !failed ==> attempts > 0
    ensures !failed && first == [] && attempts > 0 ==> list == ExtractSeries(retry(attempts - 1).value)
  {
    list := first;
    attempts := 0;
    failed := false;
    while |list| == 0 && attempts < MaxRetries
      invariant attempts <= MaxRetries
      invariant first != [] ==> list == first && attempts == 0
      invariant forall k :: 0 <= k < attempts ==> retry(k).Some?
      invariant forall k :: 0 <= k < attempts - 1 ==> ExtractSeries(retry(k).value) == []
      invariant first == [] && attempts > 0 ==> list == ExtractSeries(retry(attempts - 1).value)
      invariant first == [] && attempts == 0 ==> list == []
      decreases MaxRetries - attempts
    {
      match retry(attempts)
      case None =>
        assert first == [] && attempts > 0 ==> ExtractSeries(retry(attempts - 1).value) == [];
        failed := true;
        return;
      case Some(links) =>
        list := list + ExtractSeries(links);
        attempts := attempts + 1;
    }
  }
}
