/** features/feed/atom.ts: `generateFeed` writes the Atom feed of the blog
    (RFC 4287): a fixed `atom:feed` head and one `atom:entry` per article of
    `articlesByPubDate`, in that order. */
module AtomFeed {
  import opened Prelude
  import opened Articles

  /** The feed's metadata, up to its `atom:updated` text. */
  const FeedMeta: string :=
    "<?xml version=\"1.0\" encoding=\"utf-8\"?>\n<feed xmlns=\"http://www.w3.org/2005/Atom\">\n"
    + "\t<title>ValeriaVG Blog</title>\n"
    + "\t<subtitle>Blog about frontend, backend and everything in between.</subtitle>\n"
    + "\t<link href=\"https://valeriavg.dev/feed\" rel=\"self\" />\n"
    + "\t<link href=\"https://valeriavg.dev/\" />\n"
    + "\t<id>urn:uuid:0623df77-4f14-442d-a72b-e7fd2f4ac96a</id>\n"
    + "\t<updated>"

  const UpdatedClose: string := "</updated>\n\t"

  /** Everything before the first entry; `now` is the text of
      `new Date().toISOString()`. */
  function FeedHead(now: string): string {
    FeedMeta + (now + UpdatedClose)
  }

  const FeedTail: string := "\n</feed>\n"

  const TitleOpen: string := "<entry>\n\t\t<title>"

  const LinkOpen: string := "</title>\n\t\t<link href=\"https://valeriavg.dev/"

  const LinkClose: string := "\" />\n\t\t<id>urn:uuid:"

  const IdClose: string := "</id>\n        <published>"

  const PublishedClose: string := "</published>\n\t\t<updated>"

  /** From the end of the link's URL to the opening `<updated>` tag. */
  function IdAndPublished(id: string, published: string): string {
    LinkClose + (id + (IdClose + (published + PublishedClose)))
  }

  const SummaryOpen: string := "</updated>\n\t\t<summary>"

  const EntryClose: string :=
    "</summary>\n\t\t<author>\n\t\t\t<name>Valeria Viana Gusmao</name>\n"
    + "\t\t\t<email>mail@valeriavg.dev</email>\n\t\t</author>\n\t</entry>"

  /** From the closing `</updated>` tag to the end of the entry. */
  function SummaryAndAuthor(summary: string): string {
    SummaryOpen + (summary + EntryClose)
  }

  /** An `<entry>` up to its opening `<updated>` tag. */
  function EntryHead(title: string, url: string, id: string, published: string): string {
    TitleOpen + (title + (LinkOpen + (url + IdAndPublished(id, published))))
  }

  /** One `<entry>`, from the texts of its fields. */
  function EntryWith(title: string, url: string, id: string, published: string, updated: string, summary: string): string {
    EntryHead(title, url, id, published) + (updated + SummaryAndAuthor(summary))
  }

  /** Each field is found whole between the fixed markup around it: the
      title right after `<title>`, the article's URL right after
      `<link href="https://valeriavg.dev/`, the `atom:updated` text right after
      `<updated>`. */
  lemma EntryFields(title: string, url: string, id: string, published: string, updated: string, summary: string)
    ensures var r := EntryWith(title, url, id, published, updated, summary);
            var i := |TitleOpen|;
            var j := i + |title| + |LinkOpen|;
            var k := j + |url| + |IdAndPublished(id, published)|;
            && |r| == k + |updated| + |SummaryAndAuthor(summary)|
            && r[..i] == TitleOpen
            && r[i..i + |title|] == title
            && r[i + |title|..j] == LinkOpen
            && r[j..j + |url|] == url
            && r[j + |url|..k] == IdAndPublished(id, published)
            && r[k..k + |updated|] == updated
            && r[k + |updated|..] == SummaryAndAuthor(summary)
  {
    Fields(TitleOpen, title, LinkOpen, url, IdAndPublished(id, published), updated, SummaryAndAuthor(summary));
  }

  /** `EntryFields` over any texts. */
  lemma Fields(a: string, b: string, c: string, d: string, e: string, f: string, g: string)
    ensures var r := (a + (b + (c + (d + e)))) + (f + g);
            var i := |a|;
            var j := i + |b| + |c|;
            var k := j + |d| + |e|;
            && |r| == k + |f| + |g|
            && r[..i] == a
            && r[i..i + |b|] == b
            && r[i + |b|..j] == c
            && r[j..j + |d|] == d
            && r[j + |d|..k] == e
            && r[k..k + |f|] == f
            && r[k + |f|..] == g
  {
    var h := a + (b + (c + (d + e)));
    var r := h + (f + g);
    var i := |a|;
    var j := i + |b| + |c|;
    Pieces(a, b, c, d, e);
    Around(h, f, g);
    assert r[..|h|] == h;
    assert r[..i] == h[..i] && r[i..i + |b|] == h[i..i + |b|] && r[i + |b|..j] == h[i + |b|..j];
    assert r[j..j + |d|] == h[j..j + |d|] && r[j + |d|..|h|] == h[j + |d|..];
  }

  /** `${v}` of an optional front-matter field: `undefined` when absent. */
  function Interpolated(v: Option<string>): (r: string)
    ensures v.Some? ==> r == v.value
    ensures v.None? ==> r == "undefined"
  {
    match v
    case Some(s) => s
    case None => "undefined"
  }

  /** `html\`${v}\`` of hono: the value escaped by `escape`, nothing for an
      absent one. */
  function Escaped(v: Option<string>, escape: string -> string): (r: string)
    ensures v.Some? ==> r == escape(v.value)
    ensures v.None? ==> r == ""
  {
    match v
    case Some(s) => escape(s)
    case None => ""
  }

  /** The entry as atom.ts writes it: `dateText` is `Date.prototype.toString`,
      which `${article.date}` calls, and `<updated>` interpolates
      `article.updatedAt` even when the article has none. */
  function AsWrittenEntry(a: Article, escape: string -> string, dateText: int -> string): string {
    EntryWith(escape(a.title), a.url, Interpolated(a.id), dateText(a.date), Interpolated(a.updatedAt), Escaped(a.summary, escape))
  }

  /** Without `updatedAt` in its front matter an article's `atom:updated` is
      the word `undefined` (placed as `EntryFields` shows), which is not the
      date RFC 4287 section 4.1.2 requires of every entry. */
  lemma UpdatedUndefined(a: Article, escape: string -> string, dateText: int -> string)
    requires a.updatedAt.None?
    ensures AsWrittenEntry(a, escape, dateText)
            == EntryWith(escape(a.title), a.url, Interpolated(a.id), dateText(a.date), "undefined", Escaped(a.summary, escape))
  {
  }

  /** The `atom:updated` text: `updatedAt` when the article has one, its
      publication date otherwise. */
  function Updated(a: Article, dateText: int -> string): (r: string)
    ensures a.updatedAt.Some? ==> r == a.updatedAt.value
    ensures a.updatedAt.None? ==> r == dateText(a.date)
  {
    match a.updatedAt
    case Some(u) => u
    case None => dateText(a.date)
  }

  /** One `<entry>`, with the corrected `atom:updated`. */
  function Entry(a: Article, escape: string -> string, dateText: int -> string): string {
    EntryWith(escape(a.title), a.url, Interpolated(a.id), dateText(a.date), Updated(a, dateText), Escaped(a.summary, escape))
  }

  /** The corrected entry carries the article's own update date, or else the
      date it shows as `published`; it differs from the written one only
      there, and only for articles without `updatedAt`. */
  lemma EntryUpdated(a: Article, escape: string -> string, dateText: int -> string)
    ensures var u := if a.updatedAt.Some? then a.updatedAt.value else dateText(a.date);
            Entry(a, escape, dateText)
            == EntryWith(escape(a.title), a.url, Interpolated(a.id), dateText(a.date), u, Escaped(a.summary, escape))
    ensures a.updatedAt.Some? ==> Entry(a, escape, dateText) == AsWrittenEntry(a, escape, dateText)
    ensures a.updatedAt.None? && dateText(a.date) != "undefined" ==>
              Entry(a, escape, dateText) != AsWrittenEntry(a, escape, dateText)
  {
    if a.updatedAt.None? && dateText(a.date) != "undefined" {
      var t, i, p, sm := escape(a.title), Interpolated(a.id), dateText(a.date), Escaped(a.summary, escape);
      EntryFields(t, a.url, i, p, p, sm);
      EntryFields(t, a.url, i, p, "undefined", sm);
      var k := |TitleOpen| + |t| + |LinkOpen| + |a.url| + |IdAndPublished(i, p)|;
      var x, y := Entry(a, escape, dateText), AsWrittenEntry(a, escape, dateText);
      if |p| == 9 {
        assert x[k..k + 9] != y[k..k + 9];
      } else {
        assert |x| != |y|;
      }
    }
  }

  /** `articlesByPubDate.map(...)`: one entry per article, in order, as
      atom.ts writes it. */
  function Entries(articles: seq<Article>, escape: string -> string, dateText: int -> string): (r: seq<string>)
    ensures |r| == |articles|
    ensures forall i :: 0 <= i < |articles| ==> r[i] == AsWrittenEntry(articles[i], escape, dateText)
  {
    MapAll(articles, a => AsWrittenEntry(a, escape, dateText))
  }

  /** The entries with the corrected `atom:updated`. */
  function CorrectedEntries(articles: seq<Article>, escape: string -> string, dateText: int -> string): (r: seq<string>)
    ensures |r| == |articles|
    ensures forall i :: 0 <= i < |articles| ==> r[i] == Entry(articles[i], escape, dateText)
  {
    MapAll(articles, a => Entry(a, escape, dateText))
  }

  /** `articles.map(f)` */
  function MapAll(articles: seq<Article>, f: Article -> string): (r: seq<string>)
    ensures |r| == |articles|
    ensures forall i :: 0 <= i < |articles| ==> r[i] == f(articles[i])
  {
    if articles == [] then []
    else MapAll(articles[..|articles| - 1], f) + [f(articles[|articles| - 1])]
  }

  /** `generateFeed()`, as written: the fixed head, the entries separated by
      newlines, the fixed tail. */
  function GenerateFeed(now: string, articles: seq<Article>, escape: string -> string, dateText: int -> string): (r: string)
    ensures Framed(r, FeedHead(now), Join(Entries(articles, escape, dateText), "\n"), FeedTail)
  {
    var body := Join(Entries(articles, escape, dateText), "\n");
    FeedBody(now, body);
    FeedWith(now, body)
  }

  /** The feed with every entry's `atom:updated` corrected. */
  function CorrectedFeed(now: string, articles: seq<Article>, escape: string -> string, dateText: int -> string): (r: string)
    ensures Framed(r, FeedHead(now), Join(CorrectedEntries(articles, escape, dateText), "\n"), FeedTail)
  {
    var body := Join(CorrectedEntries(articles, escape, dateText), "\n");
    FeedBody(now, body);
    FeedWith(now, body)
  }

  /** The feed around the text of its entries. */
  function FeedWith(now: string, entries: string): string {
    FeedHead(now) + (entries + FeedTail)
  }

  /** The feed is its fixed head, then exactly the text of the entries, then
      its fixed tail. */
  lemma FeedBody(now: string, entries: string)
    ensures Framed(FeedWith(now, entries), FeedHead(now), entries, FeedTail)
  {
    Around(FeedHead(now), entries, FeedTail);
  }

  /** The written feed is the corrected one exactly when every article has
      an `updatedAt`. The dates `Date.prototype.toString` writes are never the
      word `undefined` and hold no `<`, which is what tells the two apart. */
  lemma FeedCorrectedIff(now: string, articles: seq<Article>, escape: string -> string, dateText: int -> string)
    requires forall a :: a in articles ==> dateText(a.date) != "undefined" && '<' !in dateText(a.date)
    ensures GenerateFeed(now, articles, escape, dateText) == CorrectedFeed(now, articles, escape, dateText)
            <==> forall a :: a in articles ==> a.updatedAt.Some?
  {
    if forall a :: a in articles ==> a.updatedAt.Some? {
      FeedsAgree(now, articles, escape, dateText);
    } else {
      FeedsDiffer(now, articles, escape, dateText);
    }
  }

  /** With every `updatedAt` present, the written feed is the corrected one. */
  lemma FeedsAgree(now: string, articles: seq<Article>, escape: string -> string, dateText: int -> string)
    requires forall a :: a in articles ==> a.updatedAt.Some?
    ensures GenerateFeed(now, articles, escape, dateText) == CorrectedFeed(now, articles, escape, dateText)
  {
    var es, cs := Entries(articles, escape, dateText), CorrectedEntries(articles, escape, dateText);
    forall m | 0 <= m < |articles|
      ensures articles[m].updatedAt.Some?
    {
      assert articles[m] in articles;
    }
    SameEntries(articles, escape, dateText, |articles|);
    assert es[..|articles|] == es && cs[..|articles|] == cs;
  }

  /** With an `updatedAt` missing, the written feed is not the corrected one. */
  lemma FeedsDiffer(now: string, articles: seq<Article>, escape: string -> string, dateText: int -> string)
    requires forall a :: a in articles ==> dateText(a.date) != "undefined" && '<' !in dateText(a.date)
    requires exists a :: a in articles && a.updatedAt.None?
    ensures GenerateFeed(now, articles, escape, dateText) != CorrectedFeed(now, articles, escape, dateText)
  {
    var es, cs := Entries(articles, escape, dateText), CorrectedEntries(articles, escape, dateText);
    var i := FirstMissing(articles);
    var k := EntriesDiffer(articles, escape, dateText, i);
    FramedDiffer(GenerateFeed(now, articles, escape, dateText), CorrectedFeed(now, articles, escape, dateText),
                 FeedHead(now), Join(es, "\n"), Join(cs, "\n"), FeedTail, k);
  }

  /** Two texts framed alike whose bodies differ at a position differ. */
  lemma FramedDiffer(g: string, c: string, head: string, x: string, y: string, tail: string, k: nat)
    requires Framed(g, head, x, tail) && Framed(c, head, y, tail)
    requires k < |x| && k < |y| && x[k] != y[k]
    ensures g != c
  {
    assert g[|head|..|g| - |tail|][k] == g[|head| + k];
    assert c[|head|..|c| - |tail|][k] == c[|head| + k];
  }

  /** Before the first article without `updatedAt`, the written and the
      corrected entries are the same. */
  lemma SameEntries(articles: seq<Article>, escape: string -> string, dateText: int -> string, n: nat)
    requires n <= |articles| && forall m :: 0 <= m < n ==> articles[m].updatedAt.Some?
    ensures Entries(articles, escape, dateText)[..n] == CorrectedEntries(articles, escape, dateText)[..n]
  {
    var es, cs := Entries(articles, escape, dateText), CorrectedEntries(articles, escape, dateText);
    forall m | 0 <= m < n
      ensures es[m] == cs[m]
    {
      assert Updated(articles[m], dateText) == Interpolated(articles[m].updatedAt);
    }
  }

  /** The written and the corrected entry of an article without `updatedAt`
      share everything before the `atom:updated` text and everything after
      it; the tail starts with `<`. */
  lemma MissingUpdated(a: Article, escape: string -> string, dateText: int -> string)
    requires a.updatedAt.None?
    ensures var head := EntryHead(escape(a.title), a.url, Interpolated(a.id), dateText(a.date));
            var tail := SummaryAndAuthor(Escaped(a.summary, escape));
            && AsWrittenEntry(a, escape, dateText) == head + ("undefined" + tail)
            && Entry(a, escape, dateText) == head + (dateText(a.date) + tail)
            && tail != [] && tail[0] == '<'
  {
    var tail := SummaryAndAuthor(Escaped(a.summary, escape));
    assert tail[0] == SummaryOpen[0];
  }

  /** The joined entries, written and corrected, differ at some position
      when article i is the first without `updatedAt`. */
  lemma EntriesDiffer(articles: seq<Article>, escape: string -> string, dateText: int -> string, i: nat) returns (k: nat)
    requires forall a :: a in articles ==> dateText(a.date) != "undefined" && '<' !in dateText(a.date)
    requires i < |articles| && articles[i].updatedAt.None?
    requires forall m :: 0 <= m < i ==> articles[m].updatedAt.Some?
    ensures var x, y := Join(Entries(articles, escape, dateText), "\n"), Join(CorrectedEntries(articles, escape, dateText), "\n");
            k < |x| && k < |y| && x[k] != y[k]
  {
    var es, cs := Entries(articles, escape, dateText), CorrectedEntries(articles, escape, dateText);
    var a := articles[i];
    assert a in articles;
    var p := dateText(a.date);
    var head := EntryHead(escape(a.title), a.url, Interpolated(a.id), p);
    var tail := SummaryAndAuthor(Escaped(a.summary, escape));
    MissingUpdated(a, escape, dateText);
    SameEntries(articles, escape, dateText, i);
    var j := FirstDifference("undefined", p, tail);
    assert es[..i] == cs[..i];
    k := JoinedDiffer(es, cs, i, "\n", head, "undefined" + tail, p + tail, j);
  }

  /** Two lists of parts, equal before part i, whose parts i share a head and
      then differ at position j of the rest, join into texts that differ. */
  lemma JoinedDiffer(es: seq<string>, cs: seq<string>, i: nat, sep: string, head: string,
                     x: string, y: string, j: nat) returns (k: nat)
    requires i < |es| && i < |cs| && es[..i] == cs[..i]
    requires es[i] == head + x && cs[i] == head + y
    requires j < |x| && j < |y| && x[j] != y[j]
    ensures k < |Join(es, sep)| && k < |Join(cs, sep)| && Join(es, sep)[k] != Join(cs, sep)[k]
  {
    var before := JoinUpTo(es, i, sep);
    assert before == JoinUpTo(cs, i, sep);
    JoinAt(es, i, sep);
    JoinAt(cs, i, sep);
    k := |before| + |head| + j;
    Shifted(before, head, x, JoinAfter(es, i, sep), j);
    Shifted(before, head, y, JoinAfter(cs, i, sep), j);
  }

  /** A character of a middle part, found by the lengths before it. */
  lemma Shifted(before: string, head: string, rest: string, after: string, j: nat)
    requires j < |rest|
    ensures var r := before + ((head + rest) + after);
            |before| + |head| + j < |r| && r[|before| + |head| + j] == rest[j]
  {
    var r := before + ((head + rest) + after);
    assert r[|before|..][|head| + j] == (head + rest)[|head| + j];
  }

  /** The first article without an `updatedAt`, when there is one. */
  lemma {:induction false} FirstMissing(articles: seq<Article>) returns (i: nat)
    requires exists a :: a in articles && a.updatedAt.None?
    ensures i < |articles| && articles[i].updatedAt.None?
    ensures forall m :: 0 <= m < i ==> articles[m].updatedAt.Some?
  {
    if articles[0].updatedAt.None? {
      i := 0;
    } else {
      var a :| a in articles && a.updatedAt.None?;
      assert a in articles[1..];
      var j := FirstMissing(articles[1..]);
      i := j + 1;
    }
  }

  /** Two different texts without `<`, each followed by the same text that
      starts with `<`, differ at some position. */
  lemma FirstDifference(u: string, p: string, tail: string) returns (j: nat)
    requires u != p && '<' !in u && '<' !in p && tail != [] && tail[0] == '<'
    ensures j < |u + tail| && j < |p + tail| && (u + tail)[j] != (p + tail)[j]
  {
    if |u| == |p| {
      var m :| 0 <= m < |u| && u[m] != p[m];
      j := m;
    } else if exists m :: 0 <= m < |u| && m < |p| && u[m] != p[m] {
      var m :| 0 <= m < |u| && m < |p| && u[m] != p[m];
      j := m;
    } else if |u| < |p| {
      assert p[|u|] in p;
      j := |u|;
    } else {
      assert u[|p|] in u;
      j := |p|;
    }
  }

  /** Entries are joined by single newlines, so a feed of n articles is the
      feed of the first n - 1 followed by a newline and the n-th entry. */
  lemma FeedAppend(now: string, articles: seq<Article>, a: Article, escape: string -> string, dateText: int -> string)
    requires articles != []
    ensures Join(Entries(articles + [a], escape, dateText), "\n")
            == Join(Entries(articles, escape, dateText), "\n") + "\n" + AsWrittenEntry(a, escape, dateText)
  {
    var es := Entries(articles, escape, dateText);
    assert Entries(articles + [a], escape, dateText) == es + [AsWrittenEntry(a, escape, dateText)];
    JoinAppend(es, AsWrittenEntry(a, escape, dateText), "\n");
  }
}
