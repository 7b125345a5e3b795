/**
 * The news route (server/routes/news.js): category coercion, the query it leads to, and
 * the shaping of search results into news items.
 */
module NewsRoute {
  import opened Wrappers
  import opened JsText
  import Tavily

  /** The three categories the route serves. */
  predicate IsCategory(c: string)
  {
    c == "national" || c == "world" || c == "local"
  }

  /**
   * `coerceCategory(cat)`: `None` stands for a missing value. The lower-cased category is
   * kept when it is one of the three, and anything else becomes "national".
   */
  function CoerceCategory(cat: Option<string>): (r: string)
    ensures IsCategory(r)
    ensures IsCategory(Lower(cat.GetOr(""))) ==> r == Lower(cat.GetOr(""))
    ensures !IsCategory(Lower(cat.GetOr(""))) ==> r == "national"
  {
    var c := Lower(cat.GetOr(""));
    if IsCategory(c) then c else "national"
  }

  /** Coercing a coerced category changes nothing. */
  lemma CoerceCategoryIdempotent(cat: Option<string>)
    ensures CoerceCategory(Some(CoerceCategory(cat))) == CoerceCategory(cat)
  {
    LowerOfIsLower(CoerceCategory(cat));
  }

  /** Matching ignores case: an upper-cased category coerces as the category itself. */
  lemma CoerceCategoryIgnoresCase(cat: string)
    ensures CoerceCategory(Some(Upper(cat))) == CoerceCategory(Some(cat))
  {
    LowerOfUpper(cat);
  }

  /** "WORLD" is the world category; a missing category is the national one. */
  lemma CoerceCategoryExamples()
    ensures CoerceCategory(Some("WORLD")) == "world"
    ensures CoerceCategory(None) == "national"
  {
    assert Lower("WORLD") == "world";
  }

  /**
   * The query the route leads to. The route hands the city and state to `fetchNews`,
   * which reads only a latitude and longitude, so no locality reaches the query.
   */
  function RouteQuery(cat: Option<string>, city: Option<string>, state: Option<string>): string
  {
    Tavily.FetchNewsQuery(CoerceCategory(cat), false, None)
  }

  /** A local request asks for news near "your area", whatever city and state it names. */
  lemma RouteQueryIgnoresPlace(cat: Option<string>, city: Option<string>, state: Option<string>)
    requires CoerceCategory(cat) == "local"
    ensures RouteQuery(cat, city, state) == "Local news near your area today"
  {
    Tavily.QueryWithOthers("local", None, Tavily.SiteFilterClause(Some(Tavily.NewsSources)));
  }

  // ---------------------------------------------------------------------------
  // Items
  // ---------------------------------------------------------------------------

  /**
   * A search result as the search client returns it: a missing title or url is already
   * the empty string there.
   */
  datatype SearchResult = SearchResult(title: string, url: string)

  /**
   * A news item. The source also copies `favicon`, which the search client never sets, so
   * it is always absent and has no field here.
   */
  datatype NewsItem = NewsItem(title: string, url: string, source: string)

  /**
   * The end index `slice(0, end)` uses on a list of length `len`: `None` stands for NaN,
   * which reads as 0; a negative end counts from the back.
   */
  function SliceEnd(len: nat, end: Option<int>): (k: nat)
    ensures k <= len
    ensures end.None? ==> k == 0
    ensures end.Some? && 0 <= end.value ==> k == (if end.value < len then end.value else len)
    ensures end.Some? && end.value < 0 ==> k == (if len + end.value > 0 then len + end.value else 0)
  {
    match end
    case None => 0
    case Some(e) =>
      if e < 0 then (if len + e > 0 then len + e else 0)
      else if e < len then e
      else len
  }

  /** One result as an item; `host` is the URL-to-host helper. */
  function ItemOf(r: SearchResult, host: string -> string): (item: NewsItem)
    ensures item.title != ""
    ensures item.url == r.url && item.source == host(r.url)
  {
    var h := host(r.url);
    NewsItem(if r.title != "" then r.title else if h != "" then h else "Untitled", r.url, h)
  }

  /**
   * The items of the response: `None` stands for missing results. The results are cut at
   * `maxItems` (a parsed integer, `None` when it did not parse) and mapped in order.
   */
  function NewsItems(results: Option<seq<SearchResult>>, maxItems: Option<int>, host: string -> string): (items: seq<NewsItem>)
    ensures var rs := results.GetOr([]);
      |items| == SliceEnd(|rs|, maxItems) &&
      forall i :: 0 <= i < |items| ==> items[i] == ItemOf(rs[i], host)
  {
    var rs := results.GetOr([]);
    seq(SliceEnd(|rs|, maxItems), i requires 0 <= i < SliceEnd(|rs|, maxItems) => ItemOf(rs[i], host))
  }

  /** At most `maxItems` items, all of them when there are fewer results, none when it did not parse. */
  lemma NewsItemsCapped(results: seq<SearchResult>, maxItems: Option<int>, host: string -> string)
    ensures |NewsItems(Some(results), maxItems, host)| <= |results|
    ensures maxItems.Some? && maxItems.value >= 0 ==> |NewsItems(Some(results), maxItems, host)| <= maxItems.value
    ensures maxItems.Some? && maxItems.value >= |results| ==> |NewsItems(Some(results), maxItems, host)| == |results|
    ensures maxItems.None? ==> NewsItems(Some(results), maxItems, host) == []
    ensures NewsItems(None, maxItems, host) == []
  {
  }

  /** The title falls back to the host of the url, then to "Untitled". */
  lemma ItemTitle(r: SearchResult, host: string -> string)
    ensures r.title != "" ==> ItemOf(r, host).title == r.title
    ensures r.title == "" && host(r.url) != "" ==> ItemOf(r, host).title == host(r.url)
    ensures r.title == "" && host(r.url) == "" ==> ItemOf(r, host).title == "Untitled"
  {
  }

  datatype NewsResponse = NewsResponse(category: string, answer: string, items: seq<NewsItem>)

  /** The response body: `answer` is `None` when the search gave none, and reads as the empty string. */
  function Respond(cat: Option<string>, answer: Option<string>, results: Option<seq<SearchResult>>,
                   maxItems: Option<int>, host: string -> string): (r: NewsResponse)
    ensures IsCategory(r.category)
    ensures answer.None? ==> r.answer == ""
    ensures answer.Some? ==> r.answer == answer.value
  {
    NewsResponse(CoerceCategory(cat), answer.GetOr(""), NewsItems(results, maxItems, host))
  }
}
