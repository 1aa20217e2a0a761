/** index.tsx, the earlier single-file server: it loads `./static` and
    `./content` at start-up, renders each article with inline link and image
    overrides, builds the two indexes and a sitemap, and answers each
    request by a fixed order of checks on its path. */
module LegacyServer {
  import opened Prelude
  import opened Dicts
  import opened Articles
  import opened Ingestion
  import MarkdownRenderer
  import LegacyRenderer
  import ContentModule
  import Sitemap
  import SitemapRoute

  /** `options.renderer.link`: external links get `rel="noopener noreferrer"`
      and no `target`; other links go to a default `Renderer`. */
  function Link(href: string, title: Option<string>, text: string, defaultLink: MarkdownRenderer.BaseLink): (r: string)
    ensures StartsWith(href, "http") ==>
              r == "<a href=\"" + href + "\"" + (MarkdownRenderer.TitleAttr(title) + (" rel=\"noopener noreferrer\"" + "" + ">" + text + "</a>"))
    ensures !StartsWith(href, "http") ==> r == defaultLink(href, title, text)
  {
    if StartsWith(href, "http") then
      "<a href=\"" + href + "\"" + (MarkdownRenderer.TitleAttr(title) + (" rel=\"noopener noreferrer\"" + "" + ">" + text + "</a>"))
    else defaultLink(href, title, text)
  }

  /** `options.renderer.image`, closing over the article's URL. */
  function Image(url: string, href: string, title: Option<string>, text: string, defaultImage: MarkdownRenderer.BaseLink): (r: string)
    ensures StartsWith(href, ".") ==> r == defaultImage(url + href[1..], title, text)
    ensures !StartsWith(href, ".") ==> r == defaultImage(href, title, text)
  {
    if StartsWith(href, ".") then defaultImage(url + href[1..], title, text) else defaultImage(href, title, text)
  }

  /** The inline overrides behave as lib/renderer.ts's `Renderer` for the
      article's URL. */
  lemma SameAsRenderer(url: string, href: string, title: Option<string>, text: string, base: MarkdownRenderer.BaseLink)
    ensures Link(href, title, text, base) == LegacyRenderer.Link(href, title, text, base)
    ensures Image(url, href, title, text, base) == LegacyRenderer.Image(url, href, title, text, base)
  {
  }

  /** The start-up code up to the sitemap: `./static` is the seed of the
      static content, and `parse(body, url)` stands for `Marked.parse` with
      the overrides above for the article `url`. */
  method Load(staticDir: Dict<Bytes>, raw: Dict<Bytes>, decode: Bytes -> string,
              extract: string -> Result<FrontMatter>, parse: (string, string) -> Result<string>)
    returns (r: Result<ContentModule.Exports>)
    requires staticDir.Valid() && raw.Valid()
    ensures var site := IngestUpTo(raw, staticDir, ContentModule.Parse(decode, extract), parse, |raw.keys|);
            && (r.Err? <==> site.Err?)
            && (r.Err? ==> r.message == site.message)
            && (r.Ok? ==>
                  && r.value.content == site.value.content
                  && r.value.staticContent == site.value.staticContent
                  && r.value.content.Valid()
                  && r.value.staticContent.Valid()
                  && r.value.articlesByPubDate == ContentModule.ArticlesByPubDate(site.value.content)
                  && r.value.articlesByTag == ByTagOf(Values(site.value.content)))
  {
    var site := Ingest(raw, staticDir, ContentModule.Parse(decode, extract), parse);
    if site.Err? {
      return Err(site.message);
    }
    IngestValid(raw, staticDir, ContentModule.Parse(decode, extract), parse, |raw.keys|);
    var content := site.value.content;
    var byTag := IndexByTag(Values(content));
    r := Ok(ContentModule.Exports(content, site.value.staticContent, ContentModule.ArticlesByPubDate(content), byTag));
  }

  /** The `<loc>` of a tag as index.tsx writes it: `${BASE_URL}tags/${tag}`. */
  function AsWrittenTagLoc(baseUrl: string, tag: string): string {
    baseUrl + "tags/" + tag
  }

  /** The `<loc>` of the tag's page, with the slash the other two sitemaps have. */
  function TagLoc(baseUrl: string, tag: string): string {
    baseUrl + "/tags/" + tag
  }

  /** The as-written `<loc>` is not a path under the base URL: the tag
      segment is glued to the host, so `https://valeriavg.dev` and `css` give
      `https://valeriavg.devtags/css`. */
  lemma AsWrittenTagLocOffSite(baseUrl: string, tag: string)
    ensures !StartsWith(AsWrittenTagLoc(baseUrl, tag), baseUrl + "/")
    ensures AsWrittenTagLoc(SitemapRoute.BaseUrl(None), "css") == "https://valeriavg.devtags/css"
  {
    var loc := AsWrittenTagLoc(baseUrl, tag);
    assert loc[|baseUrl|] == 't';
  }

  /** The corrected `<loc>` is the base URL followed by the tag page's path,
      which `Serve` answers with that tag's page. */
  lemma TagLocServed(baseUrl: string, tag: string, exports: ContentModule.Exports, sitemap: string)
    requires tag in exports.articlesByTag.values && tag != "" && !EndsWith(tag, "/")
    requires "/tags/" + tag !in exports.staticContent.values && "/tags/" + tag !in exports.content.values
    ensures TagLoc(baseUrl, tag) == baseUrl + ("/tags/" + tag)
    ensures Serve("/tags/" + tag, exports, sitemap) == TagPage(tag, exports.articlesByTag.values[tag])
  {
    var p := "/tags/" + tag;
    assert p[|p| - 1] == tag[|tag| - 1];
    assert p != "/sitemap.xml" by {
      assert p[1] == 't';
    }
    assert StartsWith(p, "/tags");
    assert p[6..] == tag;
  }

  /** The sitemap's entries: as written, with the unslashed tag `<loc>`. */
  function AsWrittenUrls(baseUrl: string, byPubDate: seq<Article>, byTag: Dict<seq<Article>>): Result<Sitemap.Urls>
    requires byTag.Valid()
  {
    Sitemap.Collect(byPubDate, byTag, tag => AsWrittenTagLoc(baseUrl, tag), url => baseUrl + url, baseUrl + "/")
  }

  /** The sitemap's entries with the tag `<loc>` corrected. Article URLs
      start with "/" here (index.tsx reads `./content` through lib/memfs.ts),
      so they follow the base URL directly. */
  function Urls(baseUrl: string, byPubDate: seq<Article>, byTag: Dict<seq<Article>>): Result<Sitemap.Urls>
    requires byTag.Valid()
  {
    Sitemap.Collect(byPubDate, byTag, tag => TagLoc(baseUrl, tag), url => baseUrl + url, baseUrl + "/")
  }

  /** The two differ in the tag entries' `<loc>` only. */
  lemma UrlsDiffer(baseUrl: string, byPubDate: seq<Article>, byTag: Dict<seq<Article>>)
    requires byTag.Valid()
    ensures AsWrittenUrls(baseUrl, byPubDate, byTag).Ok? <==> Urls(baseUrl, byPubDate, byTag).Ok?
    ensures Urls(baseUrl, byPubDate, byTag).Ok? ==>
              var w := AsWrittenUrls(baseUrl, byPubDate, byTag).value;
              var c := Urls(baseUrl, byPubDate, byTag).value;
              && w.articles == c.articles && w.root == c.root && |w.tags| == |c.tags| == |byTag.keys|
              && forall i :: 0 <= i < |byTag.keys| ==>
                   && w.tags[i] == Sitemap.Entry(AsWrittenTagLoc(baseUrl, byTag.keys[i]), c.tags[i].lastmod)
                   && c.tags[i].loc == TagLoc(baseUrl, byTag.keys[i])
  {
  }

  /** The module-level `sitemap`, with the corrected tag `<loc>`. */
  function SitemapText(env: Option<string>, byPubDate: seq<Article>, byTag: Dict<seq<Article>>,
                       iso: int -> string): (r: Result<string>)
    requires byTag.Valid()
    ensures r.Ok? <==> byPubDate != [] && forall i :: 0 <= i < |byTag.keys| ==> byTag.values[byTag.keys[i]] != []
    ensures r.Ok? ==> r.value == Sitemap.Xml(Urls(SitemapRoute.BaseUrl(env), byPubDate, byTag).value, iso)
  {
    match Urls(SitemapRoute.BaseUrl(env), byPubDate, byTag)
    case Err(m) => Err(m)
    case Ok(urls) => Ok(Sitemap.Xml(urls, iso))
  }

  /** The module-level `sitemap` as index.tsx writes it. */
  function AsWrittenSitemapText(env: Option<string>, byPubDate: seq<Article>, byTag: Dict<seq<Article>>,
                                iso: int -> string): (r: Result<string>)
    requires byTag.Valid()
    ensures r.Ok? <==> byPubDate != [] && forall i :: 0 <= i < |byTag.keys| ==> byTag.values[byTag.keys[i]] != []
    ensures r.Ok? ==> r.value == Sitemap.Xml(AsWrittenUrls(SitemapRoute.BaseUrl(env), byPubDate, byTag).value, iso)
  {
    match AsWrittenUrls(SitemapRoute.BaseUrl(env), byPubDate, byTag)
    case Err(m) => Err(m)
    case Ok(urls) => Ok(Sitemap.Xml(urls, iso))
  }

  /** The written sitemap exists exactly when the corrected one does, and is
      one character shorter for every tag: the two texts are the same only
      for a site without tags. */
  lemma SitemapTextsDiffer(env: Option<string>, byPubDate: seq<Article>, byTag: Dict<seq<Article>>, iso: int -> string)
    requires byTag.Valid()
    ensures AsWrittenSitemapText(env, byPubDate, byTag, iso).Ok? <==> SitemapText(env, byPubDate, byTag, iso).Ok?
    ensures SitemapText(env, byPubDate, byTag, iso).Ok? ==>
              |AsWrittenSitemapText(env, byPubDate, byTag, iso).value| + |byTag.keys|
              == |SitemapText(env, byPubDate, byTag, iso).value|
  {
    var baseUrl := SitemapRoute.BaseUrl(env);
    UrlsDiffer(baseUrl, byPubDate, byTag);
    if Urls(baseUrl, byPubDate, byTag).Ok? {
      var w, c := AsWrittenUrls(baseUrl, byPubDate, byTag).value, Urls(baseUrl, byPubDate, byTag).value;
      ShorterLocs(w.tags, c.tags, "", iso);
    }
  }

  /** Elements whose `<loc>`s are one character shorter join into a text
      shorter by one character per element. */
  lemma {:induction false} ShorterLocs(w: seq<Sitemap.Entry>, c: seq<Sitemap.Entry>, indent: string, iso: int -> string)
    requires |w| == |c|
    requires forall i :: 0 <= i < |w| ==> |w[i].loc| + 1 == |c[i].loc| && w[i].lastmod == c[i].lastmod
    ensures |Join(Sitemap.Elements(w, indent, iso), "\n")| + |w| == |Join(Sitemap.Elements(c, indent, iso), "\n")|
  {
    if |w| > 0 {
      var n := |w| - 1;
      ShorterLocs(w[..n], c[..n], indent, iso);
      var ew, ec := Sitemap.Elements(w[..n], indent, iso), Sitemap.Elements(c[..n], indent, iso);
      assert Sitemap.Elements(w, indent, iso) == ew + [Sitemap.Element(w[n], indent, iso)];
      assert Sitemap.Elements(c, indent, iso) == ec + [Sitemap.Element(c[n], indent, iso)];
      if n > 0 {
        JoinAppend(ew, Sitemap.Element(w[n], indent, iso), "\n");
        JoinAppend(ec, Sitemap.Element(c[n], indent, iso), "\n");
      }
    }
  }

  /** What a request is answered with. */
  datatype Page = Home(articles: seq<Article>)
                | SitemapXml(text: string)
                | StaticFile(data: Bytes)
                | ArticlePage(article: Article)
                | TagPage(tag: string, articles: seq<Article>)
                | NotFound

  /** `rawPathname.replace(/\/$/, "")`: one trailing slash removed. */
  function StripSlash(p: string): (r: string)
    ensures EndsWith(p, "/") ==> r + "/" == p
    ensures !EndsWith(p, "/") ==> r == p
  {
    if EndsWith(p, "/") then p[..|p| - 1] else p
  }

  /** `pathname.slice(6)`: empty when the path is shorter. */
  function TagOf(p: string): (r: string)
    ensures |p| >= 6 ==> p == p[..6] + r
    ensures |p| < 6 ==> r == ""
  {
    if |p| >= 6 then p[6..] else ""
  }

  /** The `serve` handler, for the path of the request's URL. */
  function Serve(rawPathname: string, exports: ContentModule.Exports, sitemap: string): (r: Page)
    // The home page, before any other check.
    ensures rawPathname == "/" ==> r == Home(exports.articlesByPubDate)
    ensures rawPathname != "/" ==>
              var p := StripSlash(rawPathname);
              // Then, in order: the sitemap, a static file, an article, a known tag.
              && (p == "/sitemap.xml" ==> r == SitemapXml(sitemap))
              && (p != "/sitemap.xml" && p in exports.staticContent.values ==> r == StaticFile(exports.staticContent.values[p]))
              && (p != "/sitemap.xml" && p !in exports.staticContent.values && p in exports.content.values ==>
                    r == ArticlePage(exports.content.values[p]))
              && (p != "/sitemap.xml" && p !in exports.staticContent.values && p !in exports.content.values ==>
                    (r.TagPage? <==> StartsWith(p, "/tags") && TagOf(p) in exports.articlesByTag.values)
                    && (r.TagPage? ==> r == TagPage(TagOf(p), exports.articlesByTag.values[TagOf(p)]))
                    && (!r.TagPage? ==> r == NotFound))
  {
    if rawPathname == "/" then Home(exports.articlesByPubDate)
    else
      var pathname := StripSlash(rawPathname);
      if pathname == "/sitemap.xml" then SitemapXml(sitemap)
      else if pathname in exports.staticContent.values then StaticFile(exports.staticContent.values[pathname])
      else if pathname in exports.content.values then ArticlePage(exports.content.values[pathname])
      else if StartsWith(pathname, "/tags") && TagOf(pathname) in exports.articlesByTag.values then
        TagPage(TagOf(pathname), exports.articlesByTag.values[TagOf(pathname)])
      else NotFound
  }

  /** A trailing slash does not change the answer, except on the home page. */
  lemma TrailingSlash(p: string, exports: ContentModule.Exports, sitemap: string)
    requires p != "" && !EndsWith(p, "/")
    ensures Serve(p + "/", exports, sitemap) == Serve(p, exports, sitemap)
  {
    var q := p + "/";
    assert q[|q| - 1..] == "/";
    assert q[..|q| - 1] == p;
  }

  /** Every article is served at its URL unless the sitemap or a static file
      has that path, or the URL ends in "/". */
  lemma ArticleServed(u: string, exports: ContentModule.Exports, sitemap: string)
    requires u in exports.content.values && u != "/" && u != "/sitemap.xml" && !EndsWith(u, "/")
    requires u !in exports.staticContent.values
    ensures Serve(u, exports, sitemap) == ArticlePage(exports.content.values[u])
  {
  }

  /** Any one character in place of the slash after `/tags` reaches the same
      tag page: `/tags-css` is answered like `/tags/css`. */
  lemma TagSeparatorIgnored(c: char, tag: string, exports: ContentModule.Exports, sitemap: string)
    requires "/tags" + [c] + tag !in exports.staticContent.values && "/tags" + [c] + tag !in exports.content.values
    requires "/tags/" + tag !in exports.staticContent.values && "/tags/" + tag !in exports.content.values
    requires tag != "" && !EndsWith(tag, "/")
    ensures Serve("/tags" + [c] + tag, exports, sitemap) == Serve("/tags/" + tag, exports, sitemap)
  {
    var p, q := "/tags" + [c] + tag, "/tags/" + tag;
    assert StripSlash(p) == p && StripSlash(q) == q by {
      assert p[|p| - 1] == tag[|tag| - 1] == q[|q| - 1];
    }
    assert p != "/" && p != "/sitemap.xml" && q != "/" && q != "/sitemap.xml" by {
      assert p[1] == q[1] == 't';
    }
    assert StartsWith(p, "/tags") && StartsWith(q, "/tags") by {
      assert p[..5] == q[..5] == "/tags";
    }
    assert TagOf(p) == tag == TagOf(q) by {
      assert p[6..] == tag == q[6..];
    }
  }
}
