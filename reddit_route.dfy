/**
 * The Reddit route (server/routes/reddit.js): subreddit and limit coercion, the 400 error
 * for a missing subreddit, and the shaping of the listing's children into items.
 */
module RedditRoute {
  import opened Wrappers
  import opened JsText

  // ---------------------------------------------------------------------------
  // normalizeSubreddit and coerceLimit
  // ---------------------------------------------------------------------------

  predicate IsR(c: char)
  {
    c == 'r' || c == 'R'
  }

  /** The regular expression replace `/^\/?r\//i` with the empty string: at most one prefix goes. */
  function StripPrefix(s: string): (r: string)
    ensures |s| >= 3 && s[0] == '/' && IsR(s[1]) && s[2] == '/' ==> r == s[3..]
    ensures |s| >= 2 && IsR(s[0]) && s[1] == '/' ==> r == s[2..]
    ensures !(|s| >= 3 && s[0] == '/' && IsR(s[1]) && s[2] == '/') && !(|s| >= 2 && IsR(s[0]) && s[1] == '/') ==> r == s
  {
    if |s| >= 3 && s[0] == '/' && IsR(s[1]) && s[2] == '/' then s[3..]
    else if |s| >= 2 && IsR(s[0]) && s[1] == '/' then s[2..]
    else s
  }

  /** `normalizeSubreddit(name)`: `None` stands for a missing name. */
  function NormalizeSubreddit(name: Option<string>): (r: string)
    ensures r == [] || (!IsSpace(r[0]) && !IsSpace(r[|r| - 1]))
  {
    Trim(StripPrefix(name.GetOr("")))
  }

  /** "/r/x", "r/x", "R/x" and "/R/x" all name the subreddit x, trimmed. */
  lemma NormalizeSubredditPrefixes(x: string)
    ensures NormalizeSubreddit(Some("/r/" + x)) == Trim(x)
    ensures NormalizeSubreddit(Some("r/" + x)) == Trim(x)
    ensures NormalizeSubreddit(Some("R/" + x)) == Trim(x)
    ensures NormalizeSubreddit(Some("/R/" + x)) == Trim(x)
  {
    StripOne("/r/", x);
    StripOne("r/", x);
    StripOne("R/", x);
    StripOne("/R/", x);
  }

  /** A name without a prefix is only trimmed. */
  lemma NormalizeSubredditPlain(x: string)
    requires !(|x| >= 2 && IsR(x[0]) && x[1] == '/')
    requires !(|x| >= 3 && x[0] == '/' && IsR(x[1]) && x[2] == '/')
    ensures NormalizeSubreddit(Some(x)) == Trim(x)
  {
  }

  /** Only one prefix is removed: "r/r/x" names "r/x". */
  lemma NormalizeSubredditOnce(x: string)
    ensures NormalizeSubreddit(Some("r/r/" + x)) == Trim("r/" + x)
  {
    StripOne("r/", "r/" + x);
    assert "r/" + ("r/" + x) == "r/r/" + x;
  }

  lemma StripOne(prefix: string, x: string)
    requires prefix == "/r/" || prefix == "r/" || prefix == "R/" || prefix == "/R/"
    ensures StripPrefix(prefix + x) == x
  {
    var s := prefix + x;
    assert s[|prefix|..] == x;
    assert s[0] == prefix[0] && s[1] == prefix[1];
    if prefix == "/r/" || prefix == "/R/" {
      assert s[2] == '/';
    } else {
      assert s[0] != '/';
    }
  }

  /** A missing name normalises to the empty name. */
  lemma NormalizeSubredditMissing()
    ensures NormalizeSubreddit(None) == ""
  {
  }

  /** The default limit. */
  const DefaultLimit := 6

  /** The largest limit. */
  const MaxLimit := 25

  /**
   * `coerceLimit(v)`: `None` stands for a value `parseInt` does not read as a number.
   * Anything below 1 gives the default, anything above 25 is clamped.
   */
  function CoerceLimit(v: Option<int>): (r: int)
    ensures 1 <= r <= MaxLimit
    ensures v.None? || v.value < 1 ==> r == DefaultLimit
    ensures v.Some? && 1 <= v.value <= MaxLimit ==> r == v.value
    ensures v.Some? && v.value > MaxLimit ==> r == MaxLimit
  {
    if v.None? || v.value < 1 then DefaultLimit
    else if v.value < MaxLimit then v.value
    else MaxLimit
  }

  /** A coerced limit is its own coercion. */
  lemma CoerceLimitIdempotent(v: Option<int>)
    ensures CoerceLimit(Some(CoerceLimit(v))) == CoerceLimit(v)
  {
  }

  // ---------------------------------------------------------------------------
  // The request
  // ---------------------------------------------------------------------------

  datatype HttpError = HttpError(status: int, message: string)

  datatype Request = Request(subreddit: string, limit: int)

  /** The checked request: an empty subreddit after normalisation fails with status 400. */
  function CheckRequest(subreddit: Option<string>, limit: Option<int>): (r: Result<Request, HttpError>)
    ensures r.Failure? <==> NormalizeSubreddit(subreddit) == ""
    ensures r.Failure? ==> r.error == HttpError(400, "Subreddit required")
    ensures r.Success? ==> r.value.subreddit == NormalizeSubreddit(subreddit) && r.value.limit == CoerceLimit(limit)
  {
    var name := NormalizeSubreddit(subreddit);
    if name == "" then Failure(HttpError(400, "Subreddit required"))
    else Success(Request(name, CoerceLimit(limit)))
  }

  /** A name of white space only, or a bare prefix, is refused. */
  lemma CheckRequestRefusesBlank()
    ensures CheckRequest(Some("/r/"), None).Failure?
    ensures CheckRequest(None, Some(10)).Failure?
  {
    assert "/r/"[3..] == "";
  }

  // ---------------------------------------------------------------------------
  // Items
  // ---------------------------------------------------------------------------

  /**
   * The fields of one post the route reads; the empty string stands for a missing or
   * falsy field.
   */
  datatype Post = Post(permalink: string, urlOverriddenByDest: string, url: string, title: string, selftext: string)

  datatype Item = Item(title: string, url: string, body: string)

  /**
   * `children.map(c => c && c.data).filter(Boolean)`: a child is `None` when it is null
   * or has no data.
   */
  function Present(children: seq<Option<Post>>): (ps: seq<Post>)
    ensures |ps| <= |children|
    ensures forall p :: p in ps ==> Some(p) in children
  {
    if children == [] then []
    else
      var init := children[..|children| - 1];
      var rest := Present(init);
      assert forall p :: Some(p) in init ==> Some(p) in children;
      match children[|children| - 1]
      case None => rest
      case Some(p) => rest + [p]
  }

  /** Filtering distributes over concatenation, so the order of the children is kept. */
  lemma {:induction false} PresentAppend(a: seq<Option<Post>>, b: seq<Option<Post>>)
    ensures Present(a + b) == Present(a) + Present(b)
    decreases |b|
  {
    if b == [] {
      assert a + b == a;
    } else {
      var b' := b[..|b| - 1];
      assert (a + b)[..|a + b| - 1] == a + b';
      PresentAppend(a, b');
    }
  }

  /** Children that are all present are kept one for one. */
  lemma {:induction false} PresentAll(ps: seq<Post>)
    ensures Present(seq(|ps|, i requires 0 <= i < |ps| => Some(ps[i]))) == ps
  {
    if ps != [] {
      var cs := seq(|ps|, i requires 0 <= i < |ps| => Some(ps[i]));
      var init := ps[..|ps| - 1];
      assert cs[..|cs| - 1] == seq(|init|, i requires 0 <= i < |init| => Some(init[i]));
      PresentAll(init);
    }
  }

  /** `'https://www.reddit.com' + permalink`, else the overriding url, else the url. */
  function LinkOf(p: Post): (u: string)
    ensures p.permalink != "" ==> u == "https://www.reddit.com" + p.permalink
    ensures p.permalink == "" && p.urlOverriddenByDest != "" ==> u == p.urlOverriddenByDest
    ensures p.permalink == "" && p.urlOverriddenByDest == "" ==> u == p.url
  {
    if p.permalink != "" then "https://www.reddit.com" + p.permalink
    else if p.urlOverriddenByDest != "" then p.urlOverriddenByDest
    else p.url
  }

  /** One post as an item. */
  function ItemOf(p: Post): (item: Item)
    ensures item.title != ""
    ensures p.title != "" ==> item.title == p.title
    ensures item.body == Trim(p.selftext) && item.url == LinkOf(p)
  {
    Item(if p.title != "" then p.title else "Untitled", LinkOf(p), Trim(p.selftext))
  }

  /**
   * The items of the response: `None` stands for a listing whose children are not an
   * array. The present children are cut at `limit` and shaped in order.
   */
  function Items(children: Option<seq<Option<Post>>>, limit: int): (items: seq<Item>)
    requires 1 <= limit
    ensures var ps := Present(children.GetOr([]));
      |items| == (if |ps| < limit then |ps| else limit) &&
      forall i :: 0 <= i < |items| ==> items[i] == ItemOf(ps[i])
  {
    var ps := Present(children.GetOr([]));
    var k := if |ps| < limit then |ps| else limit;
    seq(k, i requires 0 <= i < k => ItemOf(ps[i]))
  }

  /** A checked request never asks for more than 25 items, and missing children give none. */
  lemma ItemsBound(children: Option<seq<Option<Post>>>, subreddit: Option<string>, limit: Option<int>)
    requires CheckRequest(subreddit, limit).Success?
    ensures |Items(children, CheckRequest(subreddit, limit).value.limit)| <= MaxLimit
    ensures Items(None, CheckRequest(subreddit, limit).value.limit) == []
  {
  }

  /** Null children are skipped: the items after one are those of the listing without it. */
  lemma ItemsSkipNull(before: seq<Option<Post>>, after: seq<Option<Post>>, limit: int)
    requires 1 <= limit
    ensures Items(Some(before + [None] + after), limit) == Items(Some(before + after), limit)
  {
    PresentAppend(before + [None], after);
    PresentAppend(before, [None]);
    PresentAppend(before, after);
    assert Present([None]) == [];
    assert Present(before + [None]) == Present(before);
  }
}
