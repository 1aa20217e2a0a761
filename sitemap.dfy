/** features/sitemap/sitemap.ts: `createSitemap` lists one `<url>` per tag,
    one per article newest first, and one for the home page, in the
    `urlset` format of the sitemaps.org protocol 0.9. The entry list and the
    XML template are shared with routes/sitemap.xml.ts and the sitemap of
    index.tsx, which differ only in how they build each `<loc>`. */
module Sitemap {
  import opened Prelude
  import opened Dicts
  import opened Articles

  /** One `<url>`: its `<loc>` and the date its `<lastmod>` shows. */
  datatype Entry = Entry(loc: string, lastmod: int)

  /** The sitemap's three groups of entries. */
  datatype Urls = Urls(tags: seq<Entry>, articles: seq<Entry>, root: Entry)

  const DefaultBaseUrl: string := "https://valeriavg.dev"

  /** `Deno.env.get("BASE_URL") ?? "https://valeriavg.dev"`: any value that
      is set is used, even an empty one. */
  function BaseUrl(env: Option<string>): (r: string)
    ensures env.Some? ==> r == env.value
    ensures env.None? ==> r == DefaultBaseUrl
  {
    match env
    case Some(v) => v
    case None => DefaultBaseUrl
  }

  /** Reading `.date` of `articlesByTag[tag][0]` or `articlesByPubDate[0]`
      when the list is empty. */
  const NoArticle: string := "TypeError: Cannot read properties of undefined (reading 'date')"

  /** `Object.keys(articlesByTag).map(...)`: one entry per tag, in key order,
      dated by the first article of the tag's list. */
  function TagEntries(keys: seq<string>, byTag: map<string, seq<Article>>, loc: string -> string): (r: Result<seq<Entry>>)
    requires forall k :: k in keys ==> k in byTag
    ensures r.Err? <==> exists i :: 0 <= i < |keys| && byTag[keys[i]] == []
    ensures r.Ok? ==> |r.value| == |keys|
    ensures r.Ok? ==> forall i :: 0 <= i < |keys| ==> r.value[i] == Entry(loc(keys[i]), byTag[keys[i]][0].date)
  {
    if keys == [] then Ok([])
    else
      var last := keys[|keys| - 1];
      match TagEntries(keys[..|keys| - 1], byTag, loc)
      case Err(m) => Err(m)
      case Ok(entries) =>
        if byTag[last] == [] then Err(NoArticle)
        else Ok(entries + [Entry(loc(last), byTag[last][0].date)])
  }

  /** `articlesByPubDate.map(...)`: one entry per article, in order. */
  function ArticleEntries(articles: seq<Article>, loc: string -> string): (r: seq<Entry>)
    ensures |r| == |articles| && forall i :: 0 <= i < |articles| ==> r[i] == Entry(loc(articles[i].url), articles[i].date)
  {
    if articles == [] then [] else ArticleEntries(articles[..|articles| - 1], loc) + [Entry(loc(articles[|articles| - 1].url), articles[|articles| - 1].date)]
  }

  /** The entries of a sitemap whose `<loc>`s are built by `tagLoc`,
      `articleLoc` and `rootLoc`; the root entry is dated by the newest
      article, so an empty site has no sitemap. */
  function Collect(byPubDate: seq<Article>, byTag: Dict<seq<Article>>, tagLoc: string -> string,
                   articleLoc: string -> string, rootLoc: string): (r: Result<Urls>)
    requires byTag.Valid()
  {
    match TagEntries(byTag.keys, byTag.values, tagLoc)
    case Err(m) => Err(m)
    case Ok(tags) =>
      if byPubDate == [] then Err(NoArticle)
      else Ok(Urls(tags, ArticleEntries(byPubDate, articleLoc), Entry(rootLoc, byPubDate[0].date)))
  }

  /** The `<loc>`s of features/sitemap/sitemap.ts and routes/sitemap.xml.ts. */
  function SlashedUrls(baseUrl: string, byPubDate: seq<Article>, byTag: Dict<seq<Article>>): Result<Urls>
    requires byTag.Valid()
  {
    Collect(byPubDate, byTag, tag => baseUrl + "/tags/" + tag, url => baseUrl + "/" + url, baseUrl + "/")
  }

  /** Over the indexes content/mod.ts builds, the sitemap exists exactly when
      there is an article. */
  lemma SitemapExists(baseUrl: string, articles: seq<Article>)
    ensures SlashedUrls(baseUrl, SortByDate(articles), ByTagOf(articles)).Ok? <==> articles != []
  {
    SortByDateSpec(articles);
    NonEmptyLists(articles);
  }

  /** Each tag's entry points at the tag page and is dated by the newest
      article carrying the tag. */
  lemma SitemapTagEntry(baseUrl: string, articles: seq<Article>, i: nat)
    requires SlashedUrls(baseUrl, SortByDate(articles), ByTagOf(articles)).Ok?
    requires i < |ByTagOf(articles).keys|
    ensures var tag := ByTagOf(articles).keys[i];
            var list := ByTagOf(articles).values[tag];
            var tags := SlashedUrls(baseUrl, SortByDate(articles), ByTagOf(articles)).value.tags;
            && |tags| == |ByTagOf(articles).keys|
            && tags[i].loc == baseUrl + "/tags/" + tag
            && list != [] && tags[i].lastmod == list[0].date
            && list[0] in articles && tag in list[0].tags
            && (forall a :: a in list ==> a.date <= tags[i].lastmod)
  {
    NewestOfTag(articles, ByTagOf(articles).keys[i]);
  }

  /** One entry per article, in publication order, then the home page dated
      by the newest article: at least two entries in all. */
  lemma SitemapArticleEntries(baseUrl: string, articles: seq<Article>)
    requires SlashedUrls(baseUrl, SortByDate(articles), ByTagOf(articles)).Ok?
    ensures var byPubDate := SortByDate(articles);
            var urls := SlashedUrls(baseUrl, byPubDate, ByTagOf(articles)).value;
            && |urls.articles| == |articles|
            && (forall i :: 0 <= i < |articles| ==>
                  urls.articles[i] == Entry(baseUrl + "/" + byPubDate[i].url, byPubDate[i].date))
            && urls.root.loc == baseUrl + "/"
            && (forall a :: a in articles ==> a.date <= urls.root.lastmod)
            && |urls.tags| + |urls.articles| + 1 >= 2
  {
    var byPubDate := SortByDate(articles);
    SortByDateSpec(articles);
    var urls := SlashedUrls(baseUrl, byPubDate, ByTagOf(articles)).value;
    forall a | a in articles
      ensures a.date <= urls.root.lastmod
    {
      assert a in multiset(byPubDate);
      var k :| 0 <= k < |byPubDate| && byPubDate[k] == a;
      assert k == 0 || byPubDate[0].date >= byPubDate[k].date;
    }
  }

  /** Every list of `articlesByTag` has an article. */
  lemma NonEmptyLists(articles: seq<Article>)
    ensures forall i :: 0 <= i < |ByTagOf(articles).keys| ==> ByTagOf(articles).values[ByTagOf(articles).keys[i]] != []
  {
    var byTag := ByTagOf(articles);
    forall i | 0 <= i < |byTag.keys|
      ensures byTag.values[byTag.keys[i]] != []
    {
      var tag := byTag.keys[i];
      ByTagSpec(articles, tag);
      var c :| c in articles && tag in c.tags;
      assert multiset(articles)[c] > 0 && multiset(c.tags)[tag] > 0;
      MulPositive(multiset(articles)[c], multiset(c.tags)[tag]);
      assert c in multiset(byTag.values[tag]);
    }
  }

  /** The first article of a tag's list is the newest one carrying the tag. */
  lemma NewestOfTag(articles: seq<Article>, tag: string)
    requires tag in ByTagOf(articles).values
    ensures var list := ByTagOf(articles).values[tag];
            && list != []
            && (forall a :: a in list ==> a.date <= list[0].date)
            && list[0] in articles && tag in list[0].tags
  {
    var list := ByTagOf(articles).values[tag];
    ByTagSpec(articles, tag);
    var c :| c in articles && tag in c.tags;
    MulPositive(multiset(articles)[c], multiset(c.tags)[tag]);
    assert c in multiset(list);
    forall a | a in list
      ensures a.date <= list[0].date
    {
      var k :| 0 <= k < |list| && list[k] == a;
      assert k == 0 || list[0].date >= list[k].date;
    }
    var first := list[0];
    assert first in multiset(list);
    MulPositive(multiset(articles)[first], multiset(first.tags)[tag]);
  }

  /** The text of one `<url>` element at the given indentation: its `<loc>`
      and, after it, its `<lastmod>` date written by `iso` (`toISOString`).
      Tag elements have no indentation, article and home-page elements two
      spaces. */
  function Element(e: Entry, indent: string, iso: int -> string): string {
    LocOpen(indent) + (e.loc + (LastmodOpen(indent) + (iso(e.lastmod) + UrlClose(indent))))
  }

  function LocOpen(indent: string): string {
    "<url>\n" + indent + "  <loc>"
  }

  function LastmodOpen(indent: string): string {
    "</loc>\n" + indent + "  <lastmod>"
  }

  function UrlClose(indent: string): string {
    "</lastmod>\n" + indent + "</url>"
  }

  /** An element holds its entry's `<loc>` and date whole, each between the
      fixed markup around it. */
  lemma UrlFields(e: Entry, indent: string, iso: int -> string)
    ensures var r := Element(e, indent, iso);
            var i := |LocOpen(indent)|;
            var j := i + |e.loc| + |LastmodOpen(indent)|;
            var date := iso(e.lastmod);
            && |r| == j + |date| + |UrlClose(indent)|
            && r[..i] == LocOpen(indent)
            && r[i..i + |e.loc|] == e.loc
            && r[i + |e.loc|..j] == LastmodOpen(indent)
            && r[j..j + |date|] == date
            && r[j + |date|..] == UrlClose(indent)
  {
    Pieces(LocOpen(indent), e.loc, LastmodOpen(indent), iso(e.lastmod), UrlClose(indent));
  }

  /** `entries.map(...)`: one element per entry, in order. */
  function Elements(entries: seq<Entry>, indent: string, iso: int -> string): (r: seq<string>)
    ensures |r| == |entries|
    ensures forall i :: 0 <= i < |entries| ==> r[i] == Element(entries[i], indent, iso)
  {
    if entries == [] then []
    else Elements(entries[..|entries| - 1], indent, iso) + [Element(entries[|entries| - 1], indent, iso)]
  }

  /** What the `urlset` holds: the tag elements, then the article elements,
      each list joined by newlines, then the home page's element. */
  function Body(urls: Urls, iso: int -> string): string {
    Join(Elements(urls.tags, "", iso), "\n") + "\n" + Join(Elements(urls.articles, "  ", iso), "\n")
    + ("\n  " + Element(urls.root, "  ", iso) + "\n")
  }

  /** The XML of a sitemap: the XML declaration and `urlset` head, exactly
      the body, then the closing `</urlset>`. */
  function Xml(urls: Urls, iso: int -> string): (r: string)
    ensures Framed(r, XmlHead, Body(urls, iso), UrlsetClose)
  {
    var body := Body(urls, iso);
    Around(XmlHead, body, UrlsetClose);
    XmlHead + (body + UrlsetClose)
  }

  const XmlHead: string :=
    "<?xml version=\"1.0\" encoding=\"utf-8\" standalone=\"yes\"?>\n<urlset xmlns=\"http://www.sitemaps.org/schemas/sitemap/0.9\"\n  xmlns:xhtml=\"http://www.w3.org/1999/xhtml\">\n"

  const UrlsetClose: string := "</urlset>"

  /** `createSitemap()`, with the environment's `BASE_URL` and the two
      indexes of content/mod.ts. */
  function CreateSitemap(env: Option<string>, byPubDate: seq<Article>, byTag: Dict<seq<Article>>,
                         iso: int -> string): (r: Result<string>)
    requires byTag.Valid()
    ensures r.Ok? <==> SlashedUrls(BaseUrl(env), byPubDate, byTag).Ok?
    ensures r.Ok? ==> r.value == Xml(SlashedUrls(BaseUrl(env), byPubDate, byTag).value, iso)
  {
    match SlashedUrls(BaseUrl(env), byPubDate, byTag)
    case Err(m) => Err(m)
    case Ok(urls) => Ok(Xml(urls, iso))
  }
}
