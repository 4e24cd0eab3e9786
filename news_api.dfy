/** The news query service: an immutable, ordered sequence of articles and the
    seven GET routes over it. Each route is a pure function from the dataset and
    the request's parameter to the response it sends. */
module NewsApi {
  import opened JsString

  /** One news record. Identity is positional: the article at index i has id i + 1. */
  datatype Article = Article(
    category: string,
    headline: string,
    authors: string,
    link: string,
    shortDescription: string,  // the JSON key short_description
    date: string)

  /** What a route sends back. */
  datatype Response =
    | OkOne(article: Article)          // 200, one JSON object
    | OkMany(articles: seq<Article>)   // 200, a JSON array
    | OkUndefined                      // 200 from res.json(undefined): no body
    | NotFound                         // 404, plain-text message

  /** The predicate a filtering route hands to `news.filter`. */
  datatype Query =
    | DateIs(date: string)
    | CategoryIs(category: string)
    | AuthorIs(author: string)
    | AuthorContains(loweredPart: string)  // already lower-cased, as at the route

  predicate Matches(q: Query, a: Article) {
    match q
    case DateIs(d) => a.date == d
    case CategoryIs(c) => a.category == c
    case AuthorIs(n) => a.authors == n
    case AuthorContains(p) => Contains(Lower(a.authors), p)
  }

  // ---------------------------------------------------------------------------
  // Array.prototype.filter
  // ---------------------------------------------------------------------------

  /** `s.filter(a => Matches(q, a))`: the result over a prefix, extended by the
      last element when it matches. */
  function Filter(s: seq<Article>, q: Query): (r: seq<Article>)
    ensures |r| <= |s|
  {
    if s == [] then []
    else Filter(s[..|s| - 1], q) + (if Matches(q, s[|s| - 1]) then [s[|s| - 1]] else [])
  }

  /** Filter keeps only matching articles of its input, and every one of them. */
  lemma {:induction false} FilterMembership(s: seq<Article>, q: Query)
    ensures forall a :: a in Filter(s, q) ==> a in s && Matches(q, a)
    ensures forall i :: 0 <= i < |s| && Matches(q, s[i]) ==> s[i] in Filter(s, q)
  {
    if s != [] {
      var init := s[..|s| - 1];
      FilterMembership(init, q);
      forall i | 0 <= i < |init|
        ensures init[i] == s[i]
      {
      }
    }
  }

  /** The positions of the matching articles, in increasing order. */
  function MatchPositions(s: seq<Article>, q: Query): (ix: seq<nat>)
    ensures forall j :: 0 <= j < |ix| ==> ix[j] < |s|
    ensures forall j, k :: 0 <= j < k < |ix| ==> ix[j] < ix[k]
  {
    if s == [] then []
    else
      MatchPositions(s[..|s| - 1], q) + (if Matches(q, s[|s| - 1]) then [|s| - 1] else [])
  }

  /** A position is listed exactly when its article matches. */
  lemma {:induction false} MatchPositionsMembership(s: seq<Article>, q: Query)
    ensures forall i :: 0 <= i < |s| ==> (i in MatchPositions(s, q) <==> Matches(q, s[i]))
  {
    if s != [] {
      var init := s[..|s| - 1];
      MatchPositionsMembership(init, q);
      forall i | 0 <= i < |init|
        ensures init[i] == s[i]
      {
      }
    }
  }

  /** `r` lists the articles of `s` that match `q`, every one of them, each once,
      in their order in `s`. */
  predicate SelectsMatches(r: seq<Article>, s: seq<Article>, q: Query) {
    var ix := MatchPositions(s, q);
    |r| == |ix| && forall j :: 0 <= j < |r| ==> r[j] == s[ix[j]]
  }

  lemma {:induction false} FilterSelectsMatches(s: seq<Article>, q: Query)
    ensures SelectsMatches(Filter(s, q), s, q)
  {
    if s != [] {
      var init := s[..|s| - 1];
      FilterSelectsMatches(init, q);
      var f, ix := Filter(init, q), MatchPositions(init, q);
      var tail := if Matches(q, s[|s| - 1]) then [s[|s| - 1]] else [];
      var tailIx := if Matches(q, s[|s| - 1]) then [|s| - 1] else [];
      assert Filter(s, q) == f + tail;
      assert MatchPositions(s, q) == ix + tailIx;
      forall j | 0 <= j < |f + tail|
        ensures (f + tail)[j] == s[(ix + tailIx)[j]]
      {
        if j < |f| {
          assert (f + tail)[j] == f[j] == init[ix[j]];
          assert (ix + tailIx)[j] == ix[j];
        }
      }
    }
  }

  /** A filtering route: 200 with the non-empty array of matches, or 404. */
  function FilterRoute(news: seq<Article>, q: Query): (r: Response)
    ensures r.OkMany? || r.NotFound?
    ensures r.NotFound? <==> forall i :: 0 <= i < |news| ==> !Matches(q, news[i])
    ensures r.OkMany? ==> |r.articles| > 0 && SelectsMatches(r.articles, news, q)
    ensures r.OkMany? ==> forall a :: a in r.articles ==> a in news && Matches(q, a)
  {
    var matches := Filter(news, q);
    FilterSelectsMatches(news, q);
    FilterMembership(news, q);
    MatchPositionsMembership(news, q);
    if |matches| > 0 then
      assert matches[0] in news && Matches(q, matches[0]);
      OkMany(matches)
    else NotFound
  }

  // ---------------------------------------------------------------------------
  // The routes
  // ---------------------------------------------------------------------------

  /** GET /news */
  function ListAll(news: seq<Article>): (r: Response)
    ensures r.OkMany? && |r.articles| == |news|
    ensures forall i :: 0 <= i < |news| ==> r.articles[i] == news[i]
  {
    OkMany(news)
  }

  /** `Math.floor(draw * n)`, over exact reals. */
  function RandomIndex(n: nat, draw: real): (k: int)
    requires 0.0 <= draw < 1.0
    ensures n > 0 ==> 0 <= k < n
    ensures n == 0 ==> k == 0
  {
    var x := draw * n as real;
    assert 0.0 <= x;
    assert n > 0 ==> x < n as real;
    x.Floor
  }

  /** GET /news/random, where `draw` is the value of Math.random(). Indexing an
      empty array gives undefined, which res.json sends as an empty 200. */
  function RandomNews(news: seq<Article>, draw: real): (r: Response)
    requires 0.0 <= draw < 1.0
    ensures |news| > 0 ==> r.OkOne? && r.article in news
    ensures |news| == 0 ==> r == OkUndefined
  {
    var k := RandomIndex(|news|, draw);
    if 0 <= k < |news| then OkOne(news[k]) else OkUndefined
  }

  /** GET /news/by-id/:id. NaN - 1 is NaN, which fails both comparisons. */
  function ById(news: seq<Article>, id: string): (r: Response)
    ensures r.OkOne? || r.NotFound?
    ensures r.OkOne? <==> ParseInt(id).Some? && 1 <= ParseInt(id).value <= |news|
    ensures r.OkOne? ==> r.article == news[ParseInt(id).value - 1]
  {
    match ParseInt(id)
    case None => NotFound
    case Some(k) =>
      var index := k - 1;
      if index >= 0 && index < |news| then OkOne(news[index]) else NotFound
  }

  /** GET /news/by-date/:date */
  function ByDate(news: seq<Article>, date: string): (r: Response)
    ensures r.OkMany? || r.NotFound?
    ensures r.NotFound? <==> forall i :: 0 <= i < |news| ==> news[i].date != date
    ensures r.OkMany? ==> |r.articles| > 0 && forall a :: a in r.articles ==> a.date == date
    ensures r.OkMany? ==> SelectsMatches(r.articles, news, DateIs(date))
  {
    var r := FilterRoute(news, DateIs(date));
    assert r.OkMany? ==> forall a :: a in r.articles ==> Matches(DateIs(date), a);
    r
  }

  /** GET /news/by-category/:category */
  function ByCategory(news: seq<Article>, category: string): (r: Response)
    ensures r.OkMany? || r.NotFound?
    ensures r.NotFound? <==> forall i :: 0 <= i < |news| ==> news[i].category != category
    ensures r.OkMany? ==> |r.articles| > 0 && forall a :: a in r.articles ==> a.category == category
    ensures r.OkMany? ==> SelectsMatches(r.articles, news, CategoryIs(category))
  {
    var r := FilterRoute(news, CategoryIs(category));
    assert r.OkMany? ==> forall a :: a in r.articles ==> Matches(CategoryIs(category), a);
    r
  }

  /** GET /news/by-author/:author, case-sensitive equality with `authors`. */
  function ByAuthor(news: seq<Article>, author: string): (r: Response)
    ensures r.OkMany? || r.NotFound?
    ensures r.NotFound? <==> forall i :: 0 <= i < |news| ==> news[i].authors != author
    ensures r.OkMany? ==> |r.articles| > 0 && forall a :: a in r.articles ==> a.authors == author
    ensures r.OkMany? ==> SelectsMatches(r.articles, news, AuthorIs(author))
  {
    var r := FilterRoute(news, AuthorIs(author));
    assert r.OkMany? ==> forall a :: a in r.articles ==> Matches(AuthorIs(author), a);
    r
  }

  /** GET /news/by-author-partial/:partialAuthor: the lower-cased query is
      searched for in each article's lower-cased `authors`. */
  function ByAuthorPartial(news: seq<Article>, partialAuthor: string): (r: Response)
    ensures r.OkMany? || r.NotFound?
    ensures r.NotFound? <==>
      forall i :: 0 <= i < |news| ==> !Contains(Lower(news[i].authors), Lower(partialAuthor))
    ensures r.OkMany? ==> |r.articles| > 0
    ensures r.OkMany? ==> forall a :: a in r.articles ==> Contains(Lower(a.authors), Lower(partialAuthor))
    ensures r.OkMany? ==> SelectsMatches(r.articles, news, AuthorContains(Lower(partialAuthor)))
  {
    var q := AuthorContains(Lower(partialAuthor));
    var r := FilterRoute(news, q);
    assert r.OkMany? ==> forall a :: a in r.articles ==> Matches(q, a);
    r
  }
}
