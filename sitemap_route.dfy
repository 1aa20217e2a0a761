/** routes/sitemap.xml.ts: the same sitemap as features/sitemap/sitemap.ts,
    built once when the module loads, with `||` rather than `??` for the
    base URL. */
module SitemapRoute {
  import opened Prelude
  import opened Dicts
  import opened Articles
  import Sitemap

  /** `Deno.env.get("BASE_URL") || "https://valeriavg.dev"`: an empty value
      counts as unset. */
  function BaseUrl(env: Option<string>): (r: string)
    ensures Truthy(env) ==> r == env.value
    ensures !Truthy(env) ==> r == Sitemap.DefaultBaseUrl
  {
    if Truthy(env) then env.value else Sitemap.DefaultBaseUrl
  }

  /** The two ways of reading `BASE_URL` differ only when it is set to the
      empty string. */
  lemma BaseUrlsDiffer(env: Option<string>)
    ensures BaseUrl(env) != Sitemap.BaseUrl(env) <==> env == Some("")
  {
  }

  /** The module-level `sitemap`. */
  function SitemapText(env: Option<string>, byPubDate: seq<Article>, byTag: Dict<seq<Article>>,
                       iso: int -> string): (r: Result<string>)
    requires byTag.Valid()
    ensures r.Ok? <==> Sitemap.SlashedUrls(BaseUrl(env), byPubDate, byTag).Ok?
    ensures r.Ok? ==> r.value == Sitemap.Xml(Sitemap.SlashedUrls(BaseUrl(env), byPubDate, byTag).value, iso)
  {
    match Sitemap.SlashedUrls(BaseUrl(env), byPubDate, byTag)
    case Err(m) => Err(m)
    case Ok(urls) => Ok(Sitemap.Xml(urls, iso))
  }

  /** Unless `BASE_URL` is set to the empty string, this sitemap is the one
      `createSitemap` builds from the same environment and indexes. */
  lemma SameAsCreateSitemap(env: Option<string>, byPubDate: seq<Article>, byTag: Dict<seq<Article>>,
                            iso: int -> string)
    requires byTag.Valid()
    requires env != Some("")
    ensures SitemapText(env, byPubDate, byTag, iso) == Sitemap.CreateSitemap(env, byPubDate, byTag, iso)
  {
    BaseUrlsDiffer(env);
  }
}
