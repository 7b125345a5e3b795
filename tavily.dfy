/**
 * The query and host helpers of the search client (server/lib/search/tavily.js): the
 * `site:` filter clause, host normalisation and allowlisting, the news query for a
 * category, and the place name composed from a reverse-geocoded address.
 */
module Tavily {
  import opened Wrappers
  import opened JsText

  /** `NEWS_SOURCES`. */
  const NewsSources: seq<string> := ["apnews.com", "cnn.com", "foxnews.com", "meidastouch.com", "msnbc.com"]

  // ---------------------------------------------------------------------------
  // buildSiteFilterClause
  // ---------------------------------------------------------------------------

  /** `domains.map(d => 'site:' + d).join(' OR ')`, built left to right. */
  function SiteTerms(domains: seq<string>): (r: string)
    requires domains != []
    ensures r == Join(seq(|domains|, i requires 0 <= i < |domains| => "site:" + domains[i]), " OR ")
  {
    if |domains| == 1 then "site:" + domains[0]
    else
      var init := domains[..|domains| - 1];
      var terms := seq(|domains|, i requires 0 <= i < |domains| => "site:" + domains[i]);
      assert terms[..|terms| - 1] == seq(|init|, i requires 0 <= i < |init| => "site:" + init[i]);
      SiteTerms(init) + " OR " + "site:" + domains[|domains| - 1]
  }

  /**
   * `buildSiteFilterClause(domains)`: `None` stands for a value that is not an array.
   * No domains give the empty string; otherwise the `site:` terms, joined with " OR ",
   * in parentheses.
   */
  function SiteFilterClause(domains: Option<seq<string>>): (r: string)
    ensures domains.None? || domains.value == [] ==> r == ""
    ensures domains.Some? && domains.value != [] ==>
      var ds := domains.value;
      r == "(" + Join(seq(|ds|, i requires 0 <= i < |ds| => "site:" + ds[i]), " OR ") + ")"
  {
    if domains.None? || domains.value == [] then ""
    else "(" + SiteTerms(domains.value) + ")"
  }

  /** The clause for one domain, and for one more domain after a list. */
  lemma SiteFilterClauseGrows(ds: seq<string>, d: string)
    ensures SiteFilterClause(Some([d])) == "(site:" + d + ")"
    ensures ds != [] ==>
      SiteFilterClause(Some(ds + [d])) == "(" + SiteTerms(ds) + " OR site:" + d + ")"
  {
    assert "(" + ("site:" + d) + ")" == "(site:" + d + ")";
    if ds != [] {
      var e := ds + [d];
      assert e[..|e| - 1] == ds;
      assert SiteTerms(e) == SiteTerms(ds) + " OR " + "site:" + d;
      assert "(" + (SiteTerms(ds) + " OR " + "site:" + d) + ")" == "(" + SiteTerms(ds) + " OR site:" + d + ")";
    }
  }

  // ---------------------------------------------------------------------------
  // normalizeHost and hostAllowed
  // ---------------------------------------------------------------------------

  /** Whether `s` starts with "www." in any case (the regular expression `/^www\./i`). */
  predicate HasWwwPrefix(s: string)
  {
    |s| >= 4 && Lower(s[..4]) == "www."
  }

  /** `normalizeHost(host)`: one leading "www." (in any case) removed, the rest lower-cased. */
  function NormalizeHost(host: string): (r: string)
    ensures IsLower(r)
    ensures HasWwwPrefix(host) ==> |r| == |host| - 4 && r == Lower(host[4..])
    ensures !HasWwwPrefix(host) ==> r == Lower(host)
  {
    Lower(if HasWwwPrefix(host) then host[4..] else host)
  }

  /** Only one prefix goes: "www.www.x" becomes "www.x", so normalising is not idempotent. */
  lemma NormalizeHostOnce(x: string)
    ensures NormalizeHost("www.www." + x) == "www." + Lower(x)
  {
    var h := "www.www." + x;
    assert h[..4] == "www.";
    assert Lower("www.") == "www.";
    assert h[4..] == "www." + x;
    LowerAppend("www.", x);
  }

  /** "www.", "WWW." or any mix of cases in front of a host is dropped, and the rest lower-cased. */
  lemma NormalizeHostStrips(prefix: string, x: string)
    requires |prefix| == 4 && Lower(prefix) == "www."
    ensures NormalizeHost(prefix + x) == Lower(x)
  {
    var h := prefix + x;
    assert h[..4] == prefix;
    assert h[4..] == x;
  }

  lemma LowerAppend(a: string, b: string)
    ensures Lower(a + b) == Lower(a) + Lower(b)
  {
  }

  /** `host === d || host.endsWith('.' + d)` for the lower-cased domain `d`. */
  predicate Matches(host: string, domain: string)
  {
    var d := Lower(domain);
    host == d || EndsWith(host, "." + d)
  }

  /** `allowlist.some(...)`, left to right. */
  function AnyMatches(host: string, allowlist: seq<string>): (r: bool)
    ensures r <==> exists i :: 0 <= i < |allowlist| && Matches(host, allowlist[i])
  {
    if allowlist == [] then false
    else
      var init := allowlist[..|allowlist| - 1];
      assert forall i :: 0 <= i < |init| ==> init[i] == allowlist[i];
      AnyMatches(host, init) || Matches(host, allowlist[|allowlist| - 1])
  }

  /**
   * `hostAllowed` for an already extracted and normalised host: `None` stands for a value
   * that is not an array. No allowlist allows every host; otherwise the host must be one
   * of the domains or a subdomain of one.
   */
  function HostAllowed(host: string, allowlist: Option<seq<string>>): (r: bool)
    ensures allowlist.None? || allowlist.value == [] ==> r
    ensures allowlist.Some? && allowlist.value != [] ==>
      (r <==> exists i :: 0 <= i < |allowlist.value| && Matches(host, allowlist.value[i]))
  {
    if allowlist.None? || allowlist.value == [] then true
    else AnyMatches(host, allowlist.value)
  }

  /** A subdomain of an allowed domain is allowed. */
  lemma HostAllowedSubdomain()
    ensures HostAllowed("edition.cnn.com", Some(["cnn.com"]))
  {
    LowerOfIsLower("cnn.com");
    assert Matches("edition.cnn.com", "cnn.com") by {
      assert "edition.cnn.com" == "edition" + ("." + "cnn.com");
    }
  }

  /** A host that merely ends with the same letters as an allowed domain is not allowed. */
  lemma HostAllowedNotSuffix()
    ensures !HostAllowed("notcnn.com", Some(["cnn.com"]))
  {
    LowerOfIsLower("cnn.com");
    var h := "notcnn.com";
    assert h[2] == 't';
    assert !EndsWith(h, ".cnn.com");
  }

  // ---------------------------------------------------------------------------
  // buildNewsQuery
  // ---------------------------------------------------------------------------

  /**
   * `buildNewsQuery(category, locality)`: `None` and the empty string both stand for a
   * missing locality. National and world queries end with the `NEWS_SOURCES` clause.
   */
  function NewsQuery(category: string, locality: Option<string>): string
  {
    QueryWith(category, locality, SiteFilterClause(Some(NewsSources)))
  }

  /** The query for a category, with `clause` appended to national and world queries. */
  function QueryWith(category: string, locality: Option<string>, clause: string): string
  {
    var place := if locality.None? || locality.value == "" then "your area" else locality.value;
    var base :=
      if category == "national" then "Top trending U.S. news today"
      else if category == "world" then "Top global news today"
      else if category == "local" then "Local news near " + place + " today"
      else "Top news today";
    if category == "national" || category == "world" then WithClause(base, clause)
    else base
  }

  /** `` `${base} ${clause}`.trim() ``. */
  function WithClause(base: string, clause: string): string
  {
    Trim(base + " " + clause)
  }

  /**
   * A national query is its headline followed by the clause, untouched by the final trim
   * when the clause is a parenthesised one such as the news-sources clause.
   */
  lemma QueryWithNational(locality: Option<string>, clause: string)
    requires |clause| > 1 && clause[|clause| - 1] == ')'
    ensures QueryWith("national", locality, clause) == "Top trending U.S. news today" + " " + clause
  {
    assert QueryWith("national", locality, clause) == WithClause("Top trending U.S. news today", clause);
    TrimJoined("Top trending U.S. news today", clause);
  }

  /** A world query is its headline followed by the clause, in the same way. */
  lemma QueryWithWorld(locality: Option<string>, clause: string)
    requires |clause| > 1 && clause[|clause| - 1] == ')'
    ensures QueryWith("world", locality, clause) == "Top global news today" + " " + clause
  {
    assert QueryWith("world", locality, clause) == WithClause("Top global news today", clause);
    TrimJoined("Top global news today", clause);
  }

  /** The national and world news queries end with the news-sources clause. */
  lemma NewsQuerySources(locality: Option<string>)
    ensures var clause := SiteFilterClause(Some(NewsSources));
      && NewsQuery("national", locality) == "Top trending U.S. news today" + " " + clause
      && NewsQuery("world", locality) == "Top global news today" + " " + clause
  {
    ClauseEnds();
    QueryWithNational(locality, SiteFilterClause(Some(NewsSources)));
    QueryWithWorld(locality, SiteFilterClause(Some(NewsSources)));
  }

  /** A text starting with a non-space, a space and a parenthesised clause need no trimming. */
  lemma TrimJoined(base: string, clause: string)
    requires base != [] && !IsSpace(base[0])
    requires |clause| > 1 && clause[|clause| - 1] == ')'
    ensures WithClause(base, clause) == base + " " + clause
  {
    var s := base + " " + clause;
    assert s[0] == base[0] && s[|s| - 1] == ')';
    TrimmedAlready(s);
  }

  /** A local query names the locality, or "your area" when there is none; other categories get the plain query. */
  lemma QueryWithOthers(category: string, locality: Option<string>, clause: string)
    ensures locality.Some? && locality.value != "" ==>
      QueryWith("local", locality, clause) == "Local news near " + locality.value + " today"
    ensures QueryWith("local", None, clause) == QueryWith("local", Some(""), clause) == "Local news near your area today"
    ensures category != "national" && category != "world" && category != "local" ==>
      QueryWith(category, locality, clause) == "Top news today"
  {
  }

  /** The clause for the news sources is a non-empty parenthesised text. */
  lemma ClauseEnds()
    ensures var clause := SiteFilterClause(Some(NewsSources));
      |clause| > 1 && clause[|clause| - 1] == ')'
  {
  }

  // ---------------------------------------------------------------------------
  // reverseGeocode's place name
  // ---------------------------------------------------------------------------

  /** The address fields `reverseGeocode` reads; the empty string stands for a missing field. */
  datatype Address = Address(
    city: string, town: string, village: string, hamlet: string,
    state: string, region: string, country: string)

  datatype Place = Place(city: string, state: string, country: string, display: string)

  /** `a || b`, on strings. */
  function Or(a: string, b: string): string
  {
    if a != "" then a else b
  }

  /** `[city, state].filter(Boolean).join(', ')`. */
  function CityState(city: string, state: string): (r: string)
    ensures r == Join(if city == "" then (if state == "" then [] else [state])
                      else (if state == "" then [city] else [city, state]), ", ")
  {
    if city == "" then state
    else if state == "" then city
    else city + ", " + state
  }

  /**
   * `reverseGeocode`: `None` stands for a request that failed. The display is the city and
   * state that are present, else the country, else "your area".
   */
  function ReverseGeocode(reply: Option<Address>): (p: Place)
    ensures p.display != ""
    ensures p.city != "" || p.state != "" ==> p.display == CityState(p.city, p.state)
    ensures p.city == "" && p.state == "" ==> p.display == Or(p.country, "your area")
  {
    if reply.None? then Place("", "", "", "your area")
    else
      var a := reply.value;
      var city := Or(a.city, Or(a.town, Or(a.village, a.hamlet)));
      var state := Or(a.state, a.region);
      Place(city, state, a.country, Or(Or(CityState(city, state), a.country), "your area"))
  }

  /**
   * The query `fetchNews(category, {lat, lon})` sends. `hasCoordinates` says whether both
   * a numeric latitude and longitude were given; `reply` is what the geocoding service
   * answered (`None` when the request failed). Only a local request with coordinates
   * asks the geocoder, and then names the place it found.
   */
  function FetchNewsQuery(category: string, hasCoordinates: bool, reply: Option<Address>): (q: string)
    ensures category == "local" && hasCoordinates ==>
      q == "Local news near " + ReverseGeocode(reply).display + " today"
    ensures !(category == "local" && hasCoordinates) ==> q == NewsQuery(category, None)
  {
    var locality := if category == "local" && hasCoordinates then Some(ReverseGeocode(reply).display) else None;
    var q := NewsQuery(category, locality);
    QueryWithOthers(category, locality, SiteFilterClause(Some(NewsSources)));
    q
  }

  /** A failed request reads as an address with nothing in it. */
  lemma ReverseGeocodeFailure()
    ensures ReverseGeocode(None) == ReverseGeocode(Some(Address("", "", "", "", "", "", "")))
  {
  }

  /** The city is the first of city, town, village and hamlet that is present. */
  lemma ReverseGeocodeCity(a: Address)
    ensures var p := ReverseGeocode(Some(a));
      && (a.city != "" ==> p.city == a.city)
      && (a.city == "" && a.town != "" ==> p.city == a.town)
      && (a.city == "" && a.town == "" && a.village != "" ==> p.city == a.village)
      && (a.city == "" && a.town == "" && a.village == "" ==> p.city == a.hamlet)
      && p.state == (if a.state != "" then a.state else a.region)
  {
  }
}
