/** The overrides lib/markdown/renderer.ts makes to marked's HTML renderer for
    one article: external links open in a new tab, `./` images are rebased onto
    the article's URL, code fences are highlighted with a Prism grammar when
    one is registered, and `<!--render:NAME-->` directives are replaced by a
    server-rendered component and its client script.

    marked's own renderer, Prism, `he.escape` and the JSX renderer are not
    part of this model: they are passed in as functions. */
module MarkdownRenderer {
  import opened Prelude

  /** The base renderer's `link(href, title, text)`. */
  type BaseLink = (string, Option<string>, string) -> string

  /** ` title="<title>"` when the title is truthy, nothing otherwise. */
  function TitleAttr(title: Option<string>): (r: string)
    ensures Truthy(title) ==> r == " title=\"" + title.value + "\""
    ensures !Truthy(title) ==> r == ""
  {
    if Truthy(title) then " title=\"" + title.value + "\"" else ""
  }

  /** The anchor written for an external link; `attrs` are the attributes
      after `rel`. */
  function Anchor(href: string, title: Option<string>, text: string, attrs: string): string {
    "<a href=\"" + href + "\"" + (TitleAttr(title) + (" rel=\"noopener noreferrer\"" + attrs + ">" + text + "</a>"))
  }

  /** `Renderer.link` */
  function Link(href: string, title: Option<string>, text: string, baseLink: BaseLink): (r: string)
    // Links starting with "http" open in a new tab without an opener.
    ensures StartsWith(href, "http") ==> r == Anchor(href, title, text, " target=\"_blank\"")
    // Everything else goes to marked's own renderer, untouched.
    ensures !StartsWith(href, "http") ==> r == baseLink(href, title, text)
  {
    if StartsWith(href, "http") then Anchor(href, title, text, " target=\"_blank\"")
    else baseLink(href, title, text)
  }

  /** An anchor starts with the unchanged `href`, followed by the title
      attribute exactly when the title is non-empty. */
  lemma AnchorTitle(href: string, title: Option<string>, text: string, attrs: string)
    ensures var r := Anchor(href, title, text, attrs);
            var head := "<a href=\"" + href + "\"";
            && StartsWith(r, head)
            && (Truthy(title) ==> StartsWith(r[|head|..], " title=\"" + title.value + "\""))
            && (!Truthy(title) ==> StartsWith(r[|head|..], " rel=\"noopener noreferrer\"" + attrs + ">"))
  {
    var head := "<a href=\"" + href + "\"";
    var open := " rel=\"noopener noreferrer\"" + attrs + ">";
    var tail := open + text + "</a>";
    Concat(head, TitleAttr(title) + tail);
    if Truthy(title) {
      Concat(TitleAttr(title), tail);
    } else {
      assert TitleAttr(title) + tail == tail;
      Concat(open, text + "</a>");
      assert tail == open + (text + "</a>");
    }
  }

  /** The `href` an image is rendered with: one starting with "." is taken
      relative to the article, by putting `baseUrl` in place of the dot. */
  function RebaseImage(baseUrl: string, href: string): (r: string)
    ensures StartsWith(href, ".") ==> |r| == |baseUrl| + |href| - 1 && StartsWith(r, baseUrl) && r[|baseUrl|..] == href[1..]
    ensures !StartsWith(href, ".") ==> r == href
  {
    if StartsWith(href, ".") then baseUrl + href[1..] else href
  }

  /** `./pic.png` in the article `posts/my-post` is `posts/my-post/pic.png`. */
  lemma RebaseExample()
    ensures RebaseImage("posts/my-post", "./pic.png") == "posts/my-post/pic.png"
  {
    assert StartsWith("./pic.png", ".");
    assert "./pic.png"[1..] == "/pic.png";
  }

  /** `Renderer.image`: the base renderer, given the rebased `href`. */
  function Image(baseUrl: string, href: string, title: Option<string>, text: string, baseImage: BaseLink): (r: string)
    ensures StartsWith(href, ".") ==> r == baseImage(baseUrl + href[1..], title, text)
    ensures !StartsWith(href, ".") ==> r == baseImage(href, title, text)
  {
    baseImage(RebaseImage(baseUrl, href), title, text)
  }

  /** `s.split(",")[0]`: the text before the first comma. */
  function BeforeComma(s: string): (r: string)
    ensures ',' !in r
    ensures StartsWith(s, r)
    ensures |r| < |s| ==> s[|r|] == ','
  {
    if s == [] || s[0] == ',' then [] else [s[0]] + BeforeComma(s[1..])
  }

  /** The language a fence's info string names: the text before the first
      comma (`ts, ignore` is `ts`), with the aliases `sh` for `bash` and `rs`
      for `rust` resolved. */
  function Language(lang: Option<string>): (r: Option<string>)
    ensures lang.None? <==> r.None?
    ensures r.Some? ==> ',' !in r.value && r.value != "sh" && r.value != "rs"
    ensures r.Some? && BeforeComma(lang.value) == "sh" ==> r.value == "bash"
    ensures r.Some? && BeforeComma(lang.value) == "rs" ==> r.value == "rust"
    ensures r.Some? && BeforeComma(lang.value) != "sh" && BeforeComma(lang.value) != "rs" ==>
              r.value == BeforeComma(lang.value)
  {
    match lang
    case None => None
    case Some(info) =>
      var language := BeforeComma(info);
      if language == "sh" then Some("bash")
      else if language == "rs" then Some("rust")
      else Some(language)
  }

  /** Resolving a language a second time changes nothing. */
  lemma LanguageIdempotent(lang: Option<string>)
    ensures Language(Language(lang)) == Language(lang)
  {
    if lang.Some? {
      var r := Language(lang).value;
      assert BeforeComma(r) == r by {
        BeforeCommaWithoutComma(r);
      }
    }
  }

  lemma {:induction false} BeforeCommaWithoutComma(s: string)
    requires ',' !in s
    ensures BeforeComma(s) == s
  {
    if s != [] {
      assert s[0] != ',';
      BeforeCommaWithoutComma(s[1..]);
      assert [s[0]] + s[1..] == s;
    }
  }

  const PlainOpen: string := "<pre><code class=\"notranslate\">"
  const PlainClose: string := "</code></pre>"

  /** `Renderer.code`, given Prism's grammars (`Prism.languages`' own
      properties), `Prism.highlight` and `he.escape`. */
  function Code<G>(code: string, lang: Option<string>, grammars: map<string, G>,
                   highlight: (string, G, string) -> string, escape: string -> string): (r: string)
    // Without a grammar for the language (or without a language) the code is
    // escaped, never dropped.
    ensures (Language(lang).None? || Language(lang).value == "" || Language(lang).value !in grammars) ==>
              r == PlainOpen + escape(code) + PlainClose
    // With one, Prism's output is wrapped in a block naming the language.
    ensures Language(lang).Some? && Language(lang).value != "" && Language(lang).value in grammars ==>
              var language := Language(lang).value;
              r == "<div class=\"highlight highlight-source-" + language + " notranslate\"><pre>"
                   + highlight(code, grammars[language], language) + "</pre></div>"
  {
    var language := Language(lang);
    // `language && ...`: an empty name is falsy.
    if language.None? || language.value == "" || language.value !in grammars then
      PlainOpen + escape(code) + PlainClose
    else
      "<div class=\"highlight highlight-source-" + language.value + " notranslate\"><pre>"
        + highlight(code, grammars[language.value], language.value) + "</pre></div>"
  }

  /** The fallback output can be read back: the escaped code sits between the
      fixed opening and closing tags. */
  lemma PlainCodeReadBack<G>(code: string, lang: Option<string>, grammars: map<string, G>,
                             highlight: (string, G, string) -> string, escape: string -> string)
    requires Language(lang).None? || Language(lang).value == "" || Language(lang).value !in grammars
    ensures var r := Code(code, lang, grammars, highlight, escape);
            StartsWith(r, PlainOpen) && EndsWith(r, PlainClose) &&
            r[|PlainOpen|..|r| - |PlainClose|] == escape(code)
  {
    var r := Code(code, lang, grammars, highlight, escape);
    assert r[..|PlainOpen|] == PlainOpen;
    assert r[|r| - |PlainClose|..] == PlainClose;
  }

  /** A component server-side included into an article: the JSX component and
      the URL of its client-side script. */
  datatype Ssi<C> = Ssi(component: C, script: string)

  const DirectiveOpen: string := "<!--render:"
  const DirectiveClose: string := "-->"

  /** The characters a regular expression's `.` does not match. */
  predicate IsLineTerminator(c: char) {
    c == '\n' || c == '\r' || c == '\U{2028}' || c == '\U{2029}'
  }

  /** `-->` starts at position `m` of `html`. */
  predicate CloseAt(html: string, m: int) {
    0 <= m && m + |DirectiveClose| <= |html| && html[m..m + |DirectiveClose|] == DirectiveClose
  }

  /** `/<!--render:(.+)-->/` matches `html[i..j + 3]`, capturing `html[i + 11..j]`. */
  predicate Matches(html: string, i: int, j: int) {
    && 0 <= i && i + |DirectiveOpen| < j
    && i + |DirectiveOpen| <= |html| && html[i..i + |DirectiveOpen|] == DirectiveOpen
    && CloseAt(html, j)
    && forall k :: i + |DirectiveOpen| <= k < j ==> !IsLineTerminator(html[k])
  }

  /** The first line terminator at or after `k`, or the end of `html`. */
  function LineEnd(html: string, k: nat): (e: nat)
    requires k <= |html|
    ensures k <= e <= |html|
    ensures forall m :: k <= m < e ==> !IsLineTerminator(html[m])
    ensures e < |html| ==> IsLineTerminator(html[e])
    decreases |html| - k
  {
    if k == |html| || IsLineTerminator(html[k]) then k else LineEnd(html, k + 1)
  }

  /** The last `-->` starting in `[lo, hi]`, searching down from `hi`, as the
      backtracking of the greedy `.+` does. */
  function LastClose(html: string, lo: int, hi: int): (j: Option<nat>)
    requires 0 <= lo && hi + |DirectiveClose| <= |html|
    ensures j.Some? ==> lo <= j.value <= hi && CloseAt(html, j.value)
    ensures forall m :: (j.None? || j.value < m) && lo <= m <= hi ==> !CloseAt(html, m)
    decreases hi - lo
  {
    if hi < lo then None
    else if CloseAt(html, hi) then Some(hi)
    else LastClose(html, lo, hi - 1)
  }

  /** The end of the longest match starting at `i`, if any. */
  function MatchAt(html: string, i: nat): (j: Option<nat>)
    requires i <= |html|
    ensures j.Some? ==> Matches(html, i, j.value)
    ensures forall m :: (j.None? || j.value < m) ==> !Matches(html, i, m)
  {
    if i + |DirectiveOpen| > |html| || html[i..i + |DirectiveOpen|] != DirectiveOpen then None
    else
      var from := i + |DirectiveOpen|;
      var e := LineEnd(html, from);
      if e < from + 1 + |DirectiveClose| then
        assert forall m :: from < m ==> !Matches(html, i, m) by {
          forall m | from < m && Matches(html, i, m) ensures false {
            CloseInLine(html, from, m);
          }
        }
        None
      else
        var j := LastClose(html, from + 1, e - |DirectiveClose|);
        assert forall m :: (j.None? || j.value < m) ==> !Matches(html, i, m) by {
          forall m | (j.None? || j.value < m) && Matches(html, i, m) ensures false {
            CloseInLine(html, from, m);
          }
        }
        j
  }

  /** A `-->` reached without crossing a line terminator ends on the same line. */
  lemma CloseInLine(html: string, from: nat, j: int)
    requires from < j && CloseAt(html, j)
    requires forall k :: from <= k < j ==> !IsLineTerminator(html[k])
    ensures j + |DirectiveClose| <= LineEnd(html, from)
  {
  }

  /** `/<!--render:(.+)-->/.exec(html)`: the leftmost match, and at that
      position the longest one, searching from position `i`. */
  function Exec(html: string, i: nat): (r: Option<(nat, nat)>)
    requires i <= |html|
    ensures r.Some? ==> i <= r.value.0 && Matches(html, r.value.0, r.value.1)
    // Leftmost:
    ensures r.Some? ==> forall s, m :: i <= s < r.value.0 ==> !Matches(html, s, m)
    ensures r.None? ==> forall s, m :: i <= s ==> !Matches(html, s, m)
    // Greedy:
    ensures r.Some? ==> forall m :: r.value.1 < m ==> !Matches(html, r.value.0, m)
    decreases |html| - i
  {
    var j := MatchAt(html, i);
    if j.Some? then Some((i, j.value))
    else if i == |html| then None
    else Exec(html, i + 1)
  }

  /** The directive's name: the capture of `exec`, if the html has a match. */
  function DirectiveName(html: string): (name: Option<string>)
    ensures name.Some? ==> |name.value| > 0 && forall k :: 0 <= k < |name.value| ==> !IsLineTerminator(name.value[k])
    ensures name.None? <==> forall s, m :: !Matches(html, s, m)
  {
    match Exec(html, 0)
    case None => None
    case Some((i, j)) => Some(html[i + |DirectiveOpen|..j])
  }

  /** `Renderer.html`, given the component registry of content/ssi.ts and the
      JSX renderer. */
  function Html<C>(html: string, registry: map<string, Ssi<C>>, render: C -> string): (r: string)
    // Without a directive, or with a name that is not registered, the html is kept.
    ensures DirectiveName(html).None? ==> r == html
    ensures DirectiveName(html).Some? && DirectiveName(html).value !in registry ==> r == html
    // A registered directive replaces the whole html block by the rendered
    // component followed by its script.
    ensures DirectiveName(html).Some? && DirectiveName(html).value in registry ==>
              var ssi := registry[DirectiveName(html).value];
              r == render(ssi.component) + "<script type=\"module\" src=\"" + ssi.script + "\"></script>"
  {
    match DirectiveName(html)
    case None => html
    case Some(filename) =>
      if filename !in registry then html
      else
        var ssi := registry[filename];
        Join([render(ssi.component), "<script type=\"module\" src=\"" + ssi.script + "\"></script>"], "")
  }

  /** The directive written for a name is read back as that name, whatever the
      name contains on its line (even `-->`, which the greedy capture keeps). */
  lemma DirectiveRoundTrip(name: string)
    requires |name| > 0 && forall k :: 0 <= k < |name| ==> !IsLineTerminator(name[k])
    ensures DirectiveName(DirectiveOpen + name + DirectiveClose) == Some(name)
  {
    var html := DirectiveOpen + name + DirectiveClose;
    var j := |DirectiveOpen| + |name|;
    assert html[0..|DirectiveOpen|] == DirectiveOpen;
    assert html[j..j + |DirectiveClose|] == DirectiveClose;
    assert Matches(html, 0, j);
    var r := Exec(html, 0);
    assert r.Some? && r.value.0 == 0 by {
      assert MatchAt(html, 0).Some?;
    }
    assert r.value.1 == j by {
      assert !(j < r.value.1);
      assert !(r.value.1 < j);
    }
    assert html[|DirectiveOpen|..j] == name;
  }

  /** A registered directive is replaced by its component and script. */
  lemma RegisteredDirective<C>(name: string, registry: map<string, Ssi<C>>, render: C -> string)
    requires |name| > 0 && forall k :: 0 <= k < |name| ==> !IsLineTerminator(name[k])
    requires name in registry
    ensures Html(DirectiveOpen + name + DirectiveClose, registry, render) ==
              render(registry[name].component) + "<script type=\"module\" src=\"" + registry[name].script + "\"></script>"
  {
    DirectiveRoundTrip(name);
  }

  /** A directive split over two lines is no directive: `.` stops at the line end. */
  lemma DirectiveOnOneLine()
    ensures DirectiveName("<!--render:a\n-->") == None
  {
    var html := "<!--render:a\n-->";
    assert html[12] == '\n';
    assert forall s, m :: !Matches(html, s, m);
  }
}
