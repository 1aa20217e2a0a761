/** The older renderer overrides of lib/renderer.ts, used by content/mod.ts
    and lib/blog.ts. External links get `rel="noopener noreferrer"` but no
    `target`; images and code fences are handled as in lib/markdown/renderer.ts,
    and there is no `html` override. */
module LegacyRenderer {
  import opened Prelude
  import MarkdownRenderer

  /** `Renderer.link` */
  function Link(href: string, title: Option<string>, text: string, baseLink: MarkdownRenderer.BaseLink): (r: string)
    ensures StartsWith(href, "http") ==> r == MarkdownRenderer.Anchor(href, title, text, "")
    ensures !StartsWith(href, "http") ==> r == baseLink(href, title, text)
  {
    if StartsWith(href, "http") then MarkdownRenderer.Anchor(href, title, text, "")
    else baseLink(href, title, text)
  }

  /** The two renderers agree on every link except that the newer one adds
      ` target="_blank"` to external anchors, right after `rel`. */
  lemma LinkVersions(href: string, title: Option<string>, text: string, baseLink: MarkdownRenderer.BaseLink)
    ensures !StartsWith(href, "http") ==>
              Link(href, title, text, baseLink) == MarkdownRenderer.Link(href, title, text, baseLink)
    ensures StartsWith(href, "http") ==>
              var head := "<a href=\"" + href + "\"" + (MarkdownRenderer.TitleAttr(title) + " rel=\"noopener noreferrer\"");
              var tail := ">" + text + "</a>";
              && Link(href, title, text, baseLink) == head + tail
              && MarkdownRenderer.Link(href, title, text, baseLink) == head + (" target=\"_blank\"" + tail)
  {
    if StartsWith(href, "http") {
      var a := "<a href=\"" + href + "\"";
      var t := MarkdownRenderer.TitleAttr(title);
      var rel := " rel=\"noopener noreferrer\"";
      var tail := ">" + text + "</a>";
      assert a + (t + rel) + tail == a + ((t + rel) + tail);
      assert t + rel + tail == t + (rel + tail);
      assert rel + "" + ">" + text + "</a>" == rel + tail;
      assert MarkdownRenderer.Anchor(href, title, text, "") == a + (t + (rel + tail));
      assert a + (t + rel) + (" target=\"_blank\"" + tail) == a + ((t + rel) + (" target=\"_blank\"" + tail));
      assert t + rel + (" target=\"_blank\"" + tail) == t + (rel + (" target=\"_blank\"" + tail));
      assert rel + " target=\"_blank\"" + ">" + text + "</a>" == rel + (" target=\"_blank\"" + tail);
    }
  }

  /** `Renderer.image`: the same rebasing of `./` images onto the article. */
  function Image(baseUrl: string, href: string, title: Option<string>, text: string,
                 baseImage: MarkdownRenderer.BaseLink): (r: string)
    ensures StartsWith(href, ".") ==> r == baseImage(baseUrl + href[1..], title, text)
    ensures !StartsWith(href, ".") ==> r == baseImage(href, title, text)
  {
    MarkdownRenderer.Image(baseUrl, href, title, text, baseImage)
  }

  /** `Renderer.code`: the same language normalisation and escaped fallback
      (its `console.log` of the language is not modelled). */
  function Code<G>(code: string, lang: Option<string>, grammars: map<string, G>,
                   highlight: (string, G, string) -> string, escape: string -> string): (r: string)
    ensures var language := MarkdownRenderer.Language(lang);
            (language.None? || language.value == "" || language.value !in grammars) ==>
              r == MarkdownRenderer.PlainOpen + escape(code) + MarkdownRenderer.PlainClose
    ensures var language := MarkdownRenderer.Language(lang);
            language.Some? && language.value != "" && language.value in grammars ==>
              r == "<div class=\"highlight highlight-source-" + language.value + " notranslate\"><pre>"
                   + highlight(code, grammars[language.value], language.value) + "</pre></div>"
  {
    MarkdownRenderer.Code(code, lang, grammars, highlight, escape)
  }
}
