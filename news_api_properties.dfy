/** Properties of the news routes that relate several calls, several routes, or
    a route and the way a client writes its parameter. */
module NewsApiProperties {
  import opened JsString
  import opened NewsApi

  // ---------------------------------------------------------------------------
  // GET /news/by-id/:id
  // ---------------------------------------------------------------------------

  /** The route's answer once the id has been parsed to an integer k. */
  lemma ByIdParsed(news: seq<Article>, id: string, k: int)
    requires ParseInt(id) == Some(k)
    ensures ById(news, id) == if 1 <= k <= |news| then OkOne(news[k - 1]) else NotFound
  {
  }

  /** An id written as the decimal numeral of n finds the article at position
      n - 1 when 1 <= n <= |news|; every other n, 0 and |news| + 1 among them,
      is not found. */
  lemma ByIdDecimal(news: seq<Article>, n: nat)
    ensures ById(news, ToDecimal(n)) ==
      if 1 <= n <= |news| then OkOne(news[n - 1]) else NotFound
  {
    ParseIntToDecimal(n);
    ByIdParsed(news, ToDecimal(n), n);
  }

  /** A negative id, "-0" included, is never found. */
  lemma ByIdNegative(news: seq<Article>, u: string)
    requires u != [] && IsDigit(u[0])
    ensures ById(news, ['-'] + u) == NotFound
  {
    ParseIntNegative(u);
    ByIdParsed(news, ['-'] + u, -(ParseDigits(u).value as int));
  }

  /** An id with no digit in it parses to NaN and takes the 404 branch. */
  lemma ByIdNonNumeric(news: seq<Article>, id: string)
    requires forall i :: 0 <= i < |id| ==> !IsDigit(id[i])
    ensures ById(news, id) == NotFound
  {
    ParseIntNoDigits(id);
  }

  // ---------------------------------------------------------------------------
  // GET /news/random
  // ---------------------------------------------------------------------------

  /** Every article is picked by some draw: the draw k / |news| picks index k. */
  lemma RandomNewsReachesEveryArticle(news: seq<Article>, k: nat)
    requires k < |news|
    ensures 0.0 <= k as real / |news| as real < 1.0
    ensures RandomNews(news, k as real / |news| as real) == OkOne(news[k])
  {
    var n := |news| as real;
    var draw := k as real / n;
    assert draw * n == k as real;
    assert RandomIndex(|news|, draw) == k;
  }

  // ---------------------------------------------------------------------------
  // The filtering routes
  // ---------------------------------------------------------------------------

  /** Filtering with a query every article matches gives the sequence back. */
  lemma {:induction false} FilterAll(s: seq<Article>, q: Query)
    requires forall i :: 0 <= i < |s| ==> Matches(q, s[i])
    ensures Filter(s, q) == s
  {
    if s != [] {
      var init := s[..|s| - 1];
      forall i | 0 <= i < |init|
        ensures Matches(q, init[i])
      {
        assert init[i] == s[i];
      }
      FilterAll(init, q);
      var last := s[|s| - 1];
      assert Matches(q, last);
      assert Filter(s, q) == Filter(init, q) + [last];
      assert init + [last] == s;
    }
  }

  /** The empty partial-author query matches every article: it lists the whole
      dataset, or is not found when there is no article at all. This is a fact
      about the handler only: no request reaches it with an empty parameter,
      because a route segment needs at least one character and decoding a
      non-empty segment never gives the empty string. */
  lemma PartialEmptyQueryListsAll(news: seq<Article>)
    ensures ByAuthorPartial(news, "") == if |news| == 0 then NotFound else ListAll(news)
  {
    assert Lower("") == "";
    forall i | 0 <= i < |news|
      ensures Matches(AuthorContains(""), news[i])
    {
      ContainsEmpty(Lower(news[i].authors));
    }
    FilterAll(news, AuthorContains(""));
  }

  /** The partial-author route ignores the case of its query. */
  lemma PartialIgnoresQueryCase(news: seq<Article>, part: string)
    ensures ByAuthorPartial(news, Upper(part)) == ByAuthorPartial(news, part)
    ensures ByAuthorPartial(news, Lower(part)) == ByAuthorPartial(news, part)
  {
    LowerOfUpper(part);
    LowerIdempotent(part);
  }

  /** Every position the exact-author query matches, the partial-author query
      made from the same parameter matches too. */
  lemma ExactAuthorWithinPartial(news: seq<Article>, author: string)
    ensures forall i :: 0 <= i < |news| && i in MatchPositions(news, AuthorIs(author)) ==>
      i in MatchPositions(news, AuthorContains(Lower(author)))
  {
    MatchPositionsMembership(news, AuthorIs(author));
    MatchPositionsMembership(news, AuthorContains(Lower(author)));
    forall i | 0 <= i < |news| && news[i].authors == author
      ensures Contains(Lower(news[i].authors), Lower(author))
    {
      ContainsSelf(Lower(author));
    }
  }

  /** So whatever the exact-author route finds, the partial-author route finds
      something too. */
  lemma ExactAuthorFoundByPartial(news: seq<Article>, author: string)
    ensures ByAuthor(news, author).OkMany? ==> ByAuthorPartial(news, author).OkMany?
  {
    if ByAuthor(news, author).OkMany? {
      var i :| 0 <= i < |news| && news[i].authors == author;
      ContainsSelf(Lower(author));
    }
  }

  // ---------------------------------------------------------------------------
  // A two-article dataset
  // ---------------------------------------------------------------------------

  function Jane(): Article {
    Article("tech", "Headline one", "Jane Doe", "https://example.com/1", "First", "2023-01-01")
  }

  function John(): Article {
    Article("sports", "Headline two", "John Roe", "https://example.com/2", "Second", "2023-01-02")
  }

  /** Categories are matched exactly; an unknown category is not found. */
  lemma CategoryScenario()
    ensures ByCategory([Jane(), John()], "tech") == OkMany([Jane()])
    ensures ByCategory([Jane(), John()], "music") == NotFound
    ensures ByDate([Jane(), John()], "2023-01-02") == OkMany([John()])
  {
    var ds := [Jane(), John()];
    assert ds[..1] == [Jane()];
    assert [Jane()][..0] == [];
    var tech, music, day := CategoryIs("tech"), CategoryIs("music"), DateIs("2023-01-02");
    assert Matches(tech, Jane()) && !Matches(tech, John());
    assert !Matches(music, Jane()) && !Matches(music, John());
    assert !Matches(day, Jane()) && Matches(day, John());
    assert Filter([Jane()], tech) == [Jane()];
    assert Filter(ds, tech) == [Jane()];
    assert Filter([Jane()], music) == [];
    assert Filter(ds, music) == [];
    assert Filter([Jane()], day) == [];
    assert Filter(ds, day) == [John()];
  }

  lemma LowerJaneDoe()
    ensures Lower("Jane Doe") == "jane doe"
  {
    assert Lower("Jane Doe") == [LowerChar('J')] + Lower("ane Doe");
    assert Lower(" Doe") == [LowerChar(' ')] + Lower("Doe");
  }

  /** The exact-author route is case-sensitive. */
  lemma ExactAuthorScenario()
    ensures ByAuthor([Jane()], "jane doe") == NotFound
    ensures ByAuthor([Jane()], "Jane Doe") == OkMany([Jane()])
  {
    assert [Jane()][..0] == [];
    assert "Jane Doe"[0] != "jane doe"[0];
    assert !Matches(AuthorIs("jane doe"), Jane());
    assert Filter([Jane()], AuthorIs("jane doe")) == [];
    assert Filter([Jane()], AuthorIs("Jane Doe")) == [Jane()];
  }

  /** The partial-author route is not: "jane" finds Jane Doe ... */
  lemma PartialAuthorScenario()
    ensures ByAuthorPartial([Jane()], "jane") == OkMany([Jane()])
  {
    assert [Jane()][..0] == [];
    var lowered := Lower("Jane Doe");
    LowerJaneDoe();
    assert Lower("jane") == "jane";
    assert OccursAt("jane", lowered, 0);
    assert Matches(AuthorContains("jane"), Jane());
    assert Filter([Jane()], AuthorContains("jane")) == [Jane()];
  }

  /** ... and so does "DOE". */
  lemma PartialAuthorUpperScenario()
    ensures ByAuthorPartial([Jane()], "DOE") == OkMany([Jane()])
  {
    assert [Jane()][..0] == [];
    var lowered := Lower("Jane Doe");
    LowerJaneDoe();
    assert Lower("DOE") == "doe";
    assert OccursAt("doe", lowered, 5);
    assert Matches(AuthorContains("doe"), Jane());
    assert Filter([Jane()], AuthorContains("doe")) == [Jane()];
  }

  /** Ids in the two-article dataset. */
  lemma ByIdScenario()
    ensures ById([Jane(), John()], "2") == OkOne(John())
    ensures ById([Jane(), John()], "3") == NotFound
    ensures ById([Jane(), John()], "0") == NotFound
    ensures ById([Jane(), John()], "abc") == NotFound
  {
    var ds := [Jane(), John()];
    ByIdDecimal(ds, 2);
    assert ToDecimal(2) == "2";
    ByIdDecimal(ds, 3);
    assert ToDecimal(3) == "3";
    ByIdDecimal(ds, 0);
    assert ToDecimal(0) == "0";
    ByIdNonNumeric(ds, "abc");
  }
}
