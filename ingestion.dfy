/** The ingestion loop that content/mod.ts, index.tsx and lib/blog.ts each
    run over the files of `./content`: markdown documents become articles
    keyed by their URL, every other file is kept as static content, and the
    first document that fails to parse or render aborts the load with its
    path appended to the error message. */
module Ingestion {
  import opened Prelude
  import opened Dicts
  import opened Articles

  /** File contents as `Deno.readFile` returns them. */
  type Bytes = seq<bv8>

  /** The result of `extract(text)`: the front-matter attributes, spread into
      the article, and the markdown body. */
  datatype FrontMatter = FrontMatter(attrs: Article, body: string)

  /** The two dictionaries the loop fills. */
  datatype Site<B> = Site(content: Dict<Article>, staticContent: Dict<B>)

  /** `pathname.endsWith(".md")` */
  predicate Markdown(path: string) {
    EndsWith(path, ".md")
  }

  /** `${error.message} while parsing /content${pathname}` */
  function Annotate(message: string, path: string): (r: string)
    ensures StartsWith(r, message) && r[|message|..] == " while parsing /content" + path
  {
    Concat(message, " while parsing /content" + path);
    message + (" while parsing /content" + path)
  }

  /** The `try` block for one markdown document: front matter is extracted
      from the file's data, the URL is derived from the path, and the body is
      rendered with that URL as the renderer's base. A failure of either
      foreign step is rethrown annotated with the path. */
  function Document<B>(path: string, data: B, extract: B -> Result<FrontMatter>,
                       render: (string, string) -> Result<string>): (r: Result<Article>)
    ensures r.Ok? ==> r.value.url == UrlOf(path)
    ensures r.Err? <==> extract(data).Err? || render(extract(data).value.body, UrlOf(path)).Err?
    ensures extract(data).Err? ==> r == Err(Annotate(extract(data).message, path))
    ensures extract(data).Ok? ==>
              var fm := extract(data).value;
              var html := render(fm.body, UrlOf(path));
              && (html.Err? ==> r == Err(Annotate(html.message, path)))
              && (html.Ok? ==> r.Ok? && r.value == fm.attrs.(url := UrlOf(path), content := html.value))
  {
    match extract(data)
    case Err(m) => Err(Annotate(m, path))
    case Ok(fm) =>
      var url := UrlOf(path);
      match render(fm.body, url)
      case Err(m) => Err(Annotate(m, path))
      case Ok(html) => Ok(fm.attrs.(url := url, content := html))
  }

  /** The document at position `k` of the listing. */
  function DocAt<B>(raw: Dict<B>, extract: B -> Result<FrontMatter>,
                    render: (string, string) -> Result<string>, k: nat): Result<Article>
    requires raw.Valid() && k < |raw.keys|
  {
    Document(raw.keys[k], raw.values[raw.keys[k]], extract, render)
  }

  /** The state after the loop has visited the first `n` paths, in the
      order `for...in` lists them. */
  function IngestUpTo<B>(raw: Dict<B>, seed: Dict<B>, extract: B -> Result<FrontMatter>,
                         render: (string, string) -> Result<string>, n: nat): Result<Site<B>>
    requires raw.Valid() && n <= |raw.keys|
  {
    if n == 0 then Ok(Site(Empty(), seed))
    else
      match IngestUpTo(raw, seed, extract, render, n - 1)
      case Err(m) => Err(m)
      case Ok(site) =>
        var path := raw.keys[n - 1];
        if !Markdown(path) then Ok(site.(staticContent := Put(site.staticContent, path, raw.values[path])))
        else
          match DocAt(raw, extract, render, n - 1)
          case Err(m) => Err(m)
          case Ok(article) => Ok(site.(content := Put(site.content, article.url, article)))
  }

  /** The `for (const pathname in rawContent)` loop. `seed` is the static
      content the loop starts from. */
  method Ingest<B>(raw: Dict<B>, seed: Dict<B>, extract: B -> Result<FrontMatter>,
                   render: (string, string) -> Result<string>) returns (r: Result<Site<B>>)
    requires raw.Valid() && seed.Valid()
    ensures r == IngestUpTo(raw, seed, extract, render, |raw.keys|)
  {
    var content := Empty();
    var staticContent := seed;
    var i := 0;
    while i < |raw.keys|
      invariant 0 <= i <= |raw.keys|
      invariant IngestUpTo(raw, seed, extract, render, i) == Ok(Site(content, staticContent))
    {
      var pathname := raw.keys[i];
      IngestStep(raw, seed, extract, render, i);
      if !Markdown(pathname) {
        // Store static files in the relative paths
        staticContent := Put(staticContent, pathname, raw.values[pathname]);
      } else {
        var article := Document(pathname, raw.values[pathname], extract, render);
        if article.Err? {
          assert IngestUpTo(raw, seed, extract, render, i + 1) == Err(article.message);
          ErrSticks(raw, seed, extract, render, i + 1, |raw.keys|);
          return Err(article.message);
        }
        content := Put(content, article.value.url, article.value);
      }
      i := i + 1;
    }
    r := Ok(Site(content, staticContent));
  }

  /** Both dictionaries of a successful load are well formed. */
  lemma {:induction false} IngestValid<B>(raw: Dict<B>, seed: Dict<B>, extract: B -> Result<FrontMatter>,
                                          render: (string, string) -> Result<string>, n: nat)
    requires raw.Valid() && seed.Valid() && n <= |raw.keys|
    requires IngestUpTo(raw, seed, extract, render, n).Ok?
    ensures IngestUpTo(raw, seed, extract, render, n).value.content.Valid()
    ensures IngestUpTo(raw, seed, extract, render, n).value.staticContent.Valid()
  {
    if n > 0 {
      IngestValid(raw, seed, extract, render, n - 1);
    }
  }

  /** One turn of the loop, from a successful prefix. */
  lemma IngestStep<B>(raw: Dict<B>, seed: Dict<B>, extract: B -> Result<FrontMatter>,
                      render: (string, string) -> Result<string>, i: nat)
    requires raw.Valid() && seed.Valid() && i < |raw.keys|
    requires IngestUpTo(raw, seed, extract, render, i).Ok?
    ensures var site := IngestUpTo(raw, seed, extract, render, i).value;
            var path := raw.keys[i];
            var next := IngestUpTo(raw, seed, extract, render, i + 1);
            var doc := Document(path, raw.values[path], extract, render);
            && (!Markdown(path) ==> next == Ok(site.(staticContent := Put(site.staticContent, path, raw.values[path]))))
            && (Markdown(path) && doc.Err? ==> next == Err(doc.message))
            && (Markdown(path) && doc.Ok? ==> next == Ok(site.(content := Put(site.content, doc.value.url, doc.value))))
  {
  }

  /** Once a document has failed, the loop's outcome is that failure. */
  lemma {:induction false} ErrSticks<B>(raw: Dict<B>, seed: Dict<B>, extract: B -> Result<FrontMatter>,
                                        render: (string, string) -> Result<string>, i: nat, j: nat)
    requires raw.Valid() && seed.Valid() && i <= j <= |raw.keys|
    requires IngestUpTo(raw, seed, extract, render, i).Err?
    ensures IngestUpTo(raw, seed, extract, render, j) == IngestUpTo(raw, seed, extract, render, i)
  {
    if i < j {
      ErrSticks(raw, seed, extract, render, i, j - 1);
    }
  }

  /** The load succeeds exactly when every markdown document among the
      visited paths parses and renders. */
  lemma {:induction false} IngestOk<B>(raw: Dict<B>, seed: Dict<B>, extract: B -> Result<FrontMatter>,
                                       render: (string, string) -> Result<string>, n: nat)
    requires raw.Valid() && seed.Valid() && n <= |raw.keys|
    ensures IngestUpTo(raw, seed, extract, render, n).Ok? <==>
              forall k :: 0 <= k < n && Markdown(raw.keys[k]) ==> DocAt(raw, extract, render, k).Ok?
  {
    if n > 0 {
      IngestOk(raw, seed, extract, render, n - 1);
      IngestOkStep(raw, seed, extract, render, n);
    }
  }

  /** The load up to n succeeds exactly when the load up to n - 1 does and
      document n - 1, if markdown, parses and renders. */
  lemma IngestOkStep<B>(raw: Dict<B>, seed: Dict<B>, extract: B -> Result<FrontMatter>,
                        render: (string, string) -> Result<string>, n: nat)
    requires raw.Valid() && seed.Valid() && 0 < n <= |raw.keys|
    requires IngestUpTo(raw, seed, extract, render, n - 1).Ok? <==>
               forall k :: 0 <= k < n - 1 && Markdown(raw.keys[k]) ==> DocAt(raw, extract, render, k).Ok?
    ensures IngestUpTo(raw, seed, extract, render, n).Ok? <==>
              forall k :: 0 <= k < n && Markdown(raw.keys[k]) ==> DocAt(raw, extract, render, k).Ok?
  {
    var last := Markdown(raw.keys[n - 1]) ==> DocAt(raw, extract, render, n - 1).Ok?;
    if IngestUpTo(raw, seed, extract, render, n - 1).Ok? {
      IngestStep(raw, seed, extract, render, n - 1);
    }
    assert IngestUpTo(raw, seed, extract, render, n).Ok? <==>
           IngestUpTo(raw, seed, extract, render, n - 1).Ok? && last;
    AllOkSplit(raw, extract, render, n);
  }

  lemma AllOkSplit<B>(raw: Dict<B>, extract: B -> Result<FrontMatter>, render: (string, string) -> Result<string>, n: nat)
    requires raw.Valid() && 0 < n <= |raw.keys|
    ensures (forall k :: 0 <= k < n && Markdown(raw.keys[k]) ==> DocAt(raw, extract, render, k).Ok?) <==>
            (forall k :: 0 <= k < n - 1 && Markdown(raw.keys[k]) ==> DocAt(raw, extract, render, k).Ok?)
            && (Markdown(raw.keys[n - 1]) ==> DocAt(raw, extract, render, n - 1).Ok?)
  {
  }

  /** A failed load reports the message of the first failing document, with
      that document's path appended. */
  lemma {:induction false} IngestFirstError<B>(raw: Dict<B>, seed: Dict<B>, extract: B -> Result<FrontMatter>,
                                               render: (string, string) -> Result<string>, n: nat)
    requires raw.Valid() && seed.Valid() && n <= |raw.keys|
    requires IngestUpTo(raw, seed, extract, render, n).Err?
    ensures exists k :: 0 <= k < n && Markdown(raw.keys[k])
                        && DocAt(raw, extract, render, k) == Err(IngestUpTo(raw, seed, extract, render, n).message)
                        && forall j :: 0 <= j < k && Markdown(raw.keys[j]) ==> DocAt(raw, extract, render, j).Ok?
  {
    var before := IngestUpTo(raw, seed, extract, render, n - 1);
    var m := IngestUpTo(raw, seed, extract, render, n).message;
    if before.Err? {
      assert before.message == m;
      IngestFirstError(raw, seed, extract, render, n - 1);
    } else {
      IngestOk(raw, seed, extract, render, n - 1);
      assert Markdown(raw.keys[n - 1]) && DocAt(raw, extract, render, n - 1) == Err(m);
      assert forall j :: 0 <= j < n - 1 && Markdown(raw.keys[j]) ==> DocAt(raw, extract, render, j).Ok?;
    }
  }

  /** Every non-markdown path is copied into `staticContent` under the same
      key with the same data; every other key keeps the seed's value, and no
      markdown path is added. */
  lemma {:induction false} IngestStatic<B>(raw: Dict<B>, seed: Dict<B>, extract: B -> Result<FrontMatter>,
                                           render: (string, string) -> Result<string>, n: nat, p: string)
    requires raw.Valid() && seed.Valid() && n <= |raw.keys|
    requires IngestUpTo(raw, seed, extract, render, n).Ok?
    ensures var s := IngestUpTo(raw, seed, extract, render, n).value.staticContent;
            && (p in raw.keys[..n] && !Markdown(p) ==> p in s.values && s.values[p] == raw.values[p])
            && (!(p in raw.keys[..n] && !Markdown(p)) ==>
                  (p in s.values <==> p in seed.values) && (p in seed.values ==> s.values[p] == seed.values[p]))
  {
    if n > 0 {
      IngestStatic(raw, seed, extract, render, n - 1, p);
      assert raw.keys[..n] == raw.keys[..n - 1] + [raw.keys[n - 1]];
      if p == raw.keys[n - 1] {
        assert p !in raw.keys[..n - 1];
      }
    }
  }

  /** Every key of `content` is its article's URL. */
  lemma {:induction false} IngestKeyIsUrl<B>(raw: Dict<B>, seed: Dict<B>, extract: B -> Result<FrontMatter>,
                                             render: (string, string) -> Result<string>, n: nat, u: string)
    requires raw.Valid() && seed.Valid() && n <= |raw.keys|
    requires IngestUpTo(raw, seed, extract, render, n).Ok?
    requires u in IngestUpTo(raw, seed, extract, render, n).value.content.values
    ensures IngestUpTo(raw, seed, extract, render, n).value.content.values[u].url == u
  {
    var k := IngestLastWins(raw, seed, extract, render, n, u);
  }

  /** `Object.values(content)`, the article list of content/mod.ts:33, holds
      no article twice: its keys are listed once and each is its article's
      URL. */
  lemma IngestArticlesOnce<B>(raw: Dict<B>, seed: Dict<B>, extract: B -> Result<FrontMatter>,
                              render: (string, string) -> Result<string>, n: nat)
    requires raw.Valid() && seed.Valid() && n <= |raw.keys|
    requires IngestUpTo(raw, seed, extract, render, n).Ok?
    ensures IngestUpTo(raw, seed, extract, render, n).value.content.Valid()
    ensures Distinct(Values(IngestUpTo(raw, seed, extract, render, n).value.content))
  {
    var c := IngestUpTo(raw, seed, extract, render, n).value.content;
    IngestValid(raw, seed, extract, render, n);
    var vs := Values(c);
    forall i, j | 0 <= i < j < |vs|
      ensures vs[i] != vs[j]
    {
      IngestKeyIsUrl(raw, seed, extract, render, n, c.keys[i]);
      IngestKeyIsUrl(raw, seed, extract, render, n, c.keys[j]);
    }
  }

  /** Every visited markdown path has an article under its URL. */
  lemma {:induction false} IngestUrlPresent<B>(raw: Dict<B>, seed: Dict<B>, extract: B -> Result<FrontMatter>,
                                               render: (string, string) -> Result<string>, n: nat, k: nat)
    requires raw.Valid() && seed.Valid() && k < n <= |raw.keys| && Markdown(raw.keys[k])
    requires IngestUpTo(raw, seed, extract, render, n).Ok?
    ensures UrlOf(raw.keys[k]) in IngestUpTo(raw, seed, extract, render, n).value.content.values
  {
    var prev := IngestUpTo(raw, seed, extract, render, n - 1).value;
    var now := IngestUpTo(raw, seed, extract, render, n).value;
    if Markdown(raw.keys[n - 1]) {
      var a := DocAt(raw, extract, render, n - 1).value;
      assert now.content.values == prev.content.values[a.url := a];
    } else {
      assert now.content == prev.content;
    }
    if k < n - 1 {
      IngestUrlPresent(raw, seed, extract, render, n - 1, k);
    }
  }

  /** The article under a URL is the one from the last visited markdown path
      with that URL, at position `k`: a later document overwrites an earlier
      one. */
  lemma {:induction false} IngestLastWins<B>(raw: Dict<B>, seed: Dict<B>, extract: B -> Result<FrontMatter>,
                                             render: (string, string) -> Result<string>, n: nat, u: string)
    returns (k: nat)
    requires raw.Valid() && seed.Valid() && n <= |raw.keys|
    requires IngestUpTo(raw, seed, extract, render, n).Ok?
    requires u in IngestUpTo(raw, seed, extract, render, n).value.content.values
    ensures k < n && Markdown(raw.keys[k]) && UrlOf(raw.keys[k]) == u
    ensures DocAt(raw, extract, render, k) == Ok(IngestUpTo(raw, seed, extract, render, n).value.content.values[u])
    ensures forall j :: k < j < n && Markdown(raw.keys[j]) ==> UrlOf(raw.keys[j]) != u
  {
    var path := raw.keys[n - 1];
    var prev := IngestUpTo(raw, seed, extract, render, n - 1).value;
    var now := IngestUpTo(raw, seed, extract, render, n).value;
    if Markdown(path) {
      var a := DocAt(raw, extract, render, n - 1).value;
      assert now.content.values == prev.content.values[a.url := a];
      if UrlOf(path) == u {
        k := n - 1;
      } else {
        k := IngestLastWins(raw, seed, extract, render, n - 1, u);
      }
    } else {
      assert now.content == prev.content;
      k := IngestLastWins(raw, seed, extract, render, n - 1, u);
    }
  }
}
