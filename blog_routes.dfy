/** features/blog/routes.tsx: the three page handlers of the blog. Each
    decides between a redirect, a not-found answer and a page to render;
    the rendering itself is left to the page components. */
module BlogRoutes {
  import opened Prelude
  import opened Dicts
  import opened Articles
  import opened Pagination

  /** Both listings show three articles a page. */
  const PageSize: int := 3

  /** What a handler answers with: the props of the page it renders, or a
      redirect, or `c.notFound()`. */
  datatype Response =
    | Redirect(location: string)
    | NotFound
    | HomePage(articles: seq<Article>, totalPages: int, page: int)
    | TagPage(tag: string, articles: seq<Article>, page: int, totalPages: int)
    | ArticlePage(article: Article, related: seq<Article>)

  /** The optional `:page{[0-9]+}` parameter: `parseInt(page ?? "1")`. */
  function PageNumber(param: Option<string>): (n: nat)
    requires param.Some? ==> IsDigits(param.value)
    ensures param.None? || param == Some("1") ==> n == 1
  {
    if param.Some? then ParseDigits(param.value) else 1
  }

  /** `GET /:page{[0-9]+}?` over `articlesByPubDate`. */
  function Home(param: Option<string>, byPubDate: seq<Article>): (r: Response)
    requires param.Some? ==> IsDigits(param.value)
    // The first page has only one address, "/".
    ensures param == Some("1") ==> r == Redirect("/")
    ensures param != Some("1") ==>
              var page := Paginate(byPubDate, PageNumber(param), PageSize);
              && (r.NotFound? <==> page.None?)
              && (page.Some? ==> r == HomePage(page.value.items, page.value.totalPages, PageNumber(param)))
  {
    if param == Some("1") then Redirect("/")
    else
      var page := PageNumber(param);
      match Paginate(byPubDate, page, PageSize)
      case None => NotFound
      case Some(p) => HomePage(p.items, p.totalPages, page)
  }

  /** Pages 2 to the last one each show the next three articles, newest
      first; with no page number the first three are shown, and a blog
      without articles has no home page at all. */
  lemma HomePages(byPubDate: seq<Article>, page: nat)
    requires 2 <= page <= CeilDiv(|byPubDate|, PageSize)
    ensures var digits := Digits(page);
            && IsDigits(digits) && digits != "1"
            && var r := Home(Some(digits), byPubDate);
            && r.HomePage? && r.page == page && r.totalPages == CeilDiv(|byPubDate|, PageSize)
            && 1 <= |r.articles| <= PageSize
            && var lo := (page - 1) * PageSize;
               lo + |r.articles| <= |byPubDate| && r.articles == byPubDate[lo..lo + |r.articles|]
  {
    var lo, hi := PageWindow(byPubDate, PageSize, page);
  }

  lemma HomeFirstPage(byPubDate: seq<Article>)
    ensures byPubDate == [] ==> Home(None, byPubDate) == NotFound
    ensures byPubDate != [] ==>
              var n := if |byPubDate| < PageSize then |byPubDate| else PageSize;
              Home(None, byPubDate) == HomePage(byPubDate[..n], CeilDiv(|byPubDate|, PageSize), 1)
  {
    if byPubDate != [] {
      FirstPage(byPubDate);
    }
  }

  /** Only the literal "1" redirects: "01" is page 1 under a second address. */
  lemma LeadingZero(byPubDate: seq<Article>)
    ensures Home(Some("01"), byPubDate) == Home(None, byPubDate) != Redirect("/")
  {
    assert ParseDigits("01") == ParseDigits("0") * 10 + 1;
  }

  /** The pattern also admits page "0", which is no page beyond the last: on
      a list of more than one page it renders an empty page numbered 0. */
  lemma PageZero(byPubDate: seq<Article>)
    requires |byPubDate| > PageSize
    ensures Home(Some("0"), byPubDate) == HomePage([], CeilDiv(|byPubDate|, PageSize), 0)
  {
  }

  /** The decimal digits of `n`, the inverse of `ParseDigits`. */
  function Digits(n: nat): (s: string)
    ensures IsDigits(s) && ParseDigits(s) == n
    ensures n >= 2 ==> s != "1"
  {
    var last := [('0' as int + n % 10) as char];
    if n < 10 then last
    else
      var s := Digits(n / 10) + last;
      assert s[..|s| - 1] == Digits(n / 10);
      s
  }

  /** `GET /tags/:tag/:page{[0-9]+}?` over `articlesByTag`. */
  function Tag(tag: string, param: Option<string>, byTag: Dict<seq<Article>>): (r: Response)
    requires param.Some? ==> IsDigits(param.value)
    // An unknown tag is not found, whatever the page.
    ensures tag !in byTag.values ==> r == NotFound
    // Only then is page "1" sent to the tag's own address.
    ensures tag in byTag.values && param == Some("1") ==> r == Redirect("/tags/" + tag)
    ensures tag in byTag.values && param != Some("1") ==>
              var page := Paginate(byTag.values[tag], PageNumber(param), PageSize);
              && (r.NotFound? <==> page.None?)
              && (page.Some? ==> r == TagPage(tag, page.value.items, PageNumber(param), page.value.totalPages))
  {
    if tag !in byTag.values then NotFound
    else if param == Some("1") then Redirect("/tags/" + tag)
    else
      var page := PageNumber(param);
      match Paginate(byTag.values[tag], page, PageSize)
      case None => NotFound
      case Some(p) => TagPage(tag, p.items, page, p.totalPages)
  }

  /** Over the index content/mod.ts builds, every tag an article carries has
      a first page, holding that tag's newest articles. */
  lemma TagFirstPage(articles: seq<Article>, c: Article, tag: string)
    requires c in articles && tag in c.tags
    ensures tag in ByTagOf(articles).values
    ensures var list := ByTagOf(articles).values[tag];
            var r := Tag(tag, None, ByTagOf(articles));
            && r.TagPage? && r.tag == tag && r.page == 1
            && 1 <= |r.articles| <= PageSize && r.articles == list[..|r.articles|]
  {
    var byTag := ByTagOf(articles);
    assert tag in byTag.values && byTag.values[tag] != [] by {
      ByTagSpec(articles, tag);
      MulPositive(multiset(articles)[c], multiset(c.tags)[tag]);
      assert c in multiset(byTag.values[tag]);
    }
    FirstPage(byTag.values[tag]);
  }

  /** The first page of a non-empty list: its first three items, or all of
      them when there are fewer. */
  lemma FirstPage(items: seq<Article>)
    requires items != []
    ensures var n := if |items| < PageSize then |items| else PageSize;
            Paginate(items, 1, PageSize) == Some(Page(items[..n], CeilDiv(|items|, PageSize)))
  {
    if |items| <= PageSize {
      assert items[..|items|] == items;
    }
  }

  /** Thrown by `a.url` when `flatMap` has let through the `undefined` of a
      tag missing from `articlesByTag`. */
  const NoUrl: string := "TypeError: Cannot read properties of undefined (reading 'url')"

  /** `tags.flatMap((tag) => articlesByTag[tag])`, failing as the later
      `filter` does when a tag has no list. */
  function Lists(tags: seq<string>, byTag: map<string, seq<Article>>): (r: Result<seq<Article>>)
    ensures r.Ok? <==> forall t :: t in tags ==> t in byTag
    ensures r.Err? ==> r.message == NoUrl
    ensures r.Ok? ==> forall a :: a in r.value <==> exists t :: t in tags && a in byTag[t]
  {
    if tags == [] then Ok([])
    else
      var last := tags[|tags| - 1];
      match Lists(tags[..|tags| - 1], byTag)
      case Err(m) => Err(m)
      case Ok(s) =>
        if last !in byTag then Err(NoUrl)
        else
          assert forall t :: t in tags ==> t in tags[..|tags| - 1] || t == last;
          Ok(s + byTag[last])
  }

  /** `.filter((a) => a.url !== url)` */
  function OtherThan(s: seq<Article>, url: string): (r: seq<Article>)
    ensures forall a :: a in r <==> a in s && a.url != url
    ensures |r| <= |s|
  {
    if s == [] then []
    else
      var rest := OtherThan(s[..|s| - 1], url);
      var last := s[|s| - 1];
      assert forall a :: a in s ==> a in s[..|s| - 1] || a == last;
      if last.url != url then rest + [last] else rest
  }

  /** The position of the first occurrence of `x` in `s`. */
  function FirstIndex<T(==)>(s: seq<T>, x: T): (i: nat)
    requires x in s
    ensures i < |s| && s[i] == x && x !in s[..i]
  {
    if s[0] == x then 0 else 1 + FirstIndex(s[1..], x)
  }

  /** An element already present keeps its first position when more are
      appended. */
  lemma {:induction false} FirstIndexAppend<T>(s: seq<T>, x: T, y: T)
    requires y in s
    ensures FirstIndex(s + [x], y) == FirstIndex(s, y)
  {
    if s[0] != y {
      assert (s + [x])[1..] == s[1..] + [x];
      FirstIndexAppend(s[1..], x, y);
    }
  }

  /** `[...new Set(s)]`: each element once, the first time it is met. */
  function Dedup<T(==,!new)>(s: seq<T>): (r: seq<T>)
    ensures Distinct(r)
    ensures forall x :: x in r <==> x in s
  {
    if s == [] then []
    else
      var init, last := s[..|s| - 1], s[|s| - 1];
      assert forall x :: x in s ==> x in init || x == last;
      if last in init then Dedup(init) else Dedup(init) + [last]
  }

  /** The elements keep the order of their first occurrences. */
  lemma {:induction false} DedupFirstSeen<T(!new)>(s: seq<T>)
    ensures forall i, j :: 0 <= i < j < |Dedup(s)| ==> FirstIndex(s, Dedup(s)[i]) < FirstIndex(s, Dedup(s)[j])
  {
    if s != [] {
      var init, last := s[..|s| - 1], s[|s| - 1];
      var d := Dedup(init);
      DedupFirstSeen(init);
      assert s == init + [last];
      forall i | 0 <= i < |d|
        ensures FirstIndex(s, d[i]) == FirstIndex(init, d[i]) < |init|
      {
        FirstIndexAppend(init, last, d[i]);
      }
      if last !in init {
        assert Dedup(s) == d + [last];
        assert FirstIndex(s, last) == |init|;
      }
    }
  }

  /** `relatedArticles`: the articles sharing a tag with `article`, other
      than those at its URL, each once, in the order first met. */
  function Related(article: Article, byTag: Dict<seq<Article>>): (r: Result<seq<Article>>)
    ensures r.Ok? <==> forall t :: t in article.tags ==> t in byTag.values
    ensures r.Ok? ==> Distinct(r.value)
    ensures r.Ok? ==> forall a :: a in r.value <==>
              a.url != article.url && exists t :: t in article.tags && t in byTag.values && a in byTag.values[t]
  {
    match Lists(article.tags, byTag.values)
    case Err(m) => Err(m)
    case Ok(all) => Ok(Dedup(OtherThan(all, article.url)))
  }

  /** Over the index content/mod.ts builds, an article of the blog always has
      its related articles: exactly the other articles with a tag in common. */
  lemma RelatedOverIndex(articles: seq<Article>, article: Article)
    requires article in articles
    ensures var r := Related(article, ByTagOf(articles));
            && r.Ok?
            && forall a :: a in r.value <==>
                 a in articles && a.url != article.url && exists t :: t in article.tags && t in a.tags
  {
    var byTag := ByTagOf(articles);
    forall t | t in article.tags
      ensures t in byTag.values
      ensures forall a :: a in byTag.values[t] <==> a in articles && t in a.tags
    {
      ByTagSpec(articles, t);
      forall a
        ensures a in byTag.values[t] <==> a in articles && t in a.tags
      {
        MulPositive(multiset(articles)[a], multiset(a.tags)[t]);
        assert a in byTag.values[t] <==> a in multiset(byTag.values[t]);
      }
    }
  }

  /** `GET /:slug{[-a-z0-9]+}` over `content`: the article and every related
      one (the random pick among them is left to the page). */
  function Slug(slug: string, content: Dict<Article>, byTag: Dict<seq<Article>>): (r: Result<Response>)
    ensures slug !in content.values ==> r == Ok(NotFound)
    ensures slug in content.values ==>
              var related := Related(content.values[slug], byTag);
              && (r.Ok? <==> related.Ok?)
              && (r.Ok? ==> r.value == ArticlePage(content.values[slug], related.value))
  {
    if slug !in content.values then Ok(NotFound)
    else
      var article := content.values[slug];
      match Related(article, byTag)
      case Err(m) => Err(m)
      case Ok(related) => Ok(ArticlePage(article, related))
  }
}
