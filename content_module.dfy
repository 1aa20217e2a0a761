/** content/mod.ts: loads `./content` once, at module load, and exports the
    articles, the static files and the two indexes over the articles. */
module ContentModule {
  import opened Prelude
  import opened Dicts
  import opened Articles
  import opened Ingestion

  /** The module's exports. */
  datatype Exports = Exports(
    content: Dict<Article>,
    staticContent: Dict<Bytes>,
    articlesByPubDate: seq<Article>,
    articlesByTag: Dict<seq<Article>>)

  /** `extract(new TextDecoder().decode(bytes))` */
  function Parse(decode: Bytes -> string, extract: string -> Result<FrontMatter>): Bytes -> Result<FrontMatter> {
    (data: Bytes) => extract(decode(data))
  }

  /** `Object.values(content).sort((a, b) => b.date.getTime() - a.date.getTime())`:
      every article, each once, newest first. */
  function ArticlesByPubDate(content: Dict<Article>): (r: seq<Article>)
    requires content.Valid()
    ensures NewestFirst(r) && multiset(r) == multiset(Values(content))
  {
    SortByDateSpec(Values(content));
    SortByDate(Values(content))
  }

  /** The module body. `marked(body, url)` stands for
      `Marked.marked(body, { renderer: new Renderer(url) })`. */
  method Load(raw: Dict<Bytes>, decode: Bytes -> string, extract: string -> Result<FrontMatter>,
              marked: (string, string) -> Result<string>) returns (r: Result<Exports>)
    requires raw.Valid()
    ensures var site := IngestUpTo(raw, Empty(), Parse(decode, extract), marked, |raw.keys|);
            && (r.Err? <==> site.Err?)
            && (r.Err? ==> r.message == site.message)
            && (r.Ok? ==>
                  && r.value.content == site.value.content
                  && r.value.staticContent == site.value.staticContent
                  && r.value.content.Valid()
                  && r.value.articlesByPubDate == ArticlesByPubDate(site.value.content)
                  && r.value.articlesByTag == ByTagOf(Values(site.value.content)))
  {
    var site := Ingest(raw, Empty(), Parse(decode, extract), marked);
    if site.Err? {
      return Err(site.message);
    }
    IngestValid(raw, Empty(), Parse(decode, extract), marked, |raw.keys|);
    var content := site.value.content;
    var byTag := IndexByTag(Values(content));
    r := Ok(Exports(content, site.value.staticContent, ArticlesByPubDate(content), byTag));
  }
}
