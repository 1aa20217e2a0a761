/** Articles and the two indexes built over them, `articlesByPubDate` and
    `articlesByTag`, as content/mod.ts, index.tsx and lib/blog.ts compute
    them. Dates are the milliseconds of `date.getTime()`. */
module Articles {
  import opened Prelude
  import opened Dicts

  /** The `Article` of types.ts, with the `id` and `updatedAt` front-matter
      fields the feed reads. */
  datatype Article = Article(
    url: string,
    title: string,
    tags: seq<string>,
    date: int,
    summary: Option<string>,
    content: string,
    id: Option<string>,
    updatedAt: Option<string>)

  /** `pathname.replace(/(\/index|)\.md$/, "")`: the article URL of a markdown
      path, without a trailing `/index.md`, or else without `.md`. */
  function UrlOf(path: string): (url: string)
    ensures EndsWith(path, "/index.md") ==> url + "/index.md" == path
    ensures !EndsWith(path, "/index.md") && EndsWith(path, ".md") ==> url + ".md" == path
    ensures !EndsWith(path, ".md") ==> url == path
  {
    if EndsWith(path, "/index.md") then path[..|path| - 9]
    else if EndsWith(path, ".md") then path[..|path| - 3]
    else path
  }

  lemma EndsWithIndex(url: string)
    ensures EndsWith(url + ".md", "/index.md") ==> EndsWith(url, "/index")
  {
    var b := url + ".md";
    if EndsWith(b, "/index.md") {
      assert url[|url| - 6..] == b[|b| - 9..|b| - 3];
    }
  }

  /** A directory's `index.md` and a file `<url>.md` both name the article
      `<url>`, so the two overwrite each other in `content`. */
  lemma UrlRoundTrip(url: string)
    ensures UrlOf(url + "/index.md") == url
    ensures !EndsWith(url, "/index") ==> UrlOf(url + ".md") == url
  {
    var a := url + "/index.md";
    assert a[|a| - 9..] == "/index.md";
    var b := url + ".md";
    assert b[|b| - 3..] == ".md";
    EndsWithIndex(url);
  }

  /** No article is older than the one after it. */
  predicate NewestFirst(s: seq<Article>) {
    forall i, j :: 0 <= i < j < |s| ==> s[i].date >= s[j].date
  }

  /** Inserts `x` into a newest-first list after every article at least as new. */
  function Insert(sorted: seq<Article>, x: Article): seq<Article>
  {
    if sorted == [] then [x]
    else if sorted[|sorted| - 1].date >= x.date then sorted + [x]
    else Insert(sorted[..|sorted| - 1], x) + [sorted[|sorted| - 1]]
  }

  lemma InsertSpec(sorted: seq<Article>, x: Article)
    ensures multiset(Insert(sorted, x)) == multiset(sorted) + multiset{x}
    ensures |Insert(sorted, x)| == |sorted| + 1
    ensures NewestFirst(sorted) ==> NewestFirst(Insert(sorted, x))
  {
    InsertPerm(sorted, x);
    if NewestFirst(sorted) {
      InsertNewest(sorted, x);
    }
  }

  /** Inserting adds exactly the one article. */
  lemma {:induction false} InsertPerm(sorted: seq<Article>, x: Article)
    ensures multiset(Insert(sorted, x)) == multiset(sorted) + multiset{x}
    ensures |Insert(sorted, x)| == |sorted| + 1
  {
    if sorted != [] && sorted[|sorted| - 1].date < x.date {
      var init := sorted[..|sorted| - 1];
      assert sorted == init + [sorted[|sorted| - 1]];
      InsertPerm(init, x);
    }
  }

  /** Inserting into a newest-first list keeps it newest first. */
  lemma {:induction false} InsertNewest(sorted: seq<Article>, x: Article)
    requires NewestFirst(sorted)
    ensures NewestFirst(Insert(sorted, x))
  {
    if sorted != [] && sorted[|sorted| - 1].date < x.date {
      var init, last := sorted[..|sorted| - 1], sorted[|sorted| - 1];
      assert sorted == init + [last];
      InsertNewest(init, x);
      InsertPerm(init, x);
      InsertNewestStep(init, last, x);
    }
  }

  /** An article newer than the last one goes before it, among articles all
      at least as new as the last one. */
  lemma InsertNewestStep(init: seq<Article>, last: Article, x: Article)
    requires NewestFirst(init + [last]) && last.date < x.date
    requires NewestFirst(Insert(init, x)) && multiset(Insert(init, x)) == multiset(init) + multiset{x}
    ensures NewestFirst(Insert(init + [last], x))
  {
    var sorted := init + [last];
    assert sorted[..|sorted| - 1] == init;
    var r0 := Insert(init, x);
    assert Insert(sorted, x) == r0 + [last];
    forall i | 0 <= i < |r0|
      ensures r0[i].date >= last.date
    {
      assert r0[i] in multiset(r0);
      if r0[i] != x {
        assert r0[i] in multiset(init);
        var k :| 0 <= k < |init| && init[k] == r0[i];
        assert sorted[k] == init[k];
      }
    }
  }

  /** `articles.sort((a, b) => b.date.getTime() - a.date.getTime())`: a
      stable sort, newest first, written as an insertion sort. */
  function SortByDate(s: seq<Article>): seq<Article>
  {
    if s == [] then [] else Insert(SortByDate(s[..|s| - 1]), s[|s| - 1])
  }

  /** The sorted list is newest first and holds the same articles. */
  lemma SortByDateSpec(s: seq<Article>)
    ensures NewestFirst(SortByDate(s))
    ensures multiset(SortByDate(s)) == multiset(s)
    ensures |SortByDate(s)| == |s|
  {
    SortPerm(s);
    SortNewest(s);
  }

  /** The articles of `s` dated `d`, in their order in `s`. */
  function Dated(s: seq<Article>, d: int): (r: seq<Article>)
    ensures forall a :: a in r <==> a in s && a.date == d
  {
    if s == [] then []
    else Dated(s[..|s| - 1], d) + (if s[|s| - 1].date == d then [s[|s| - 1]] else [])
  }

  lemma DatedPush(s: seq<Article>, x: Article, d: int)
    ensures Dated(s + [x], d) == Dated(s, d) + (if x.date == d then [x] else [])
  {
    assert (s + [x])[..|s|] == s;
  }

  /** An inserted article goes after every article of its own date, and the
      others keep their order. */
  lemma {:induction false} InsertStable(sorted: seq<Article>, x: Article, d: int)
    ensures Dated(Insert(sorted, x), d) == Dated(sorted, d) + (if x.date == d then [x] else [])
  {
    if sorted == [] {
      DatedPush([], x, d);
    } else {
      var init, last := sorted[..|sorted| - 1], sorted[|sorted| - 1];
      assert sorted == init + [last];
      if last.date >= x.date {
        DatedPush(sorted, x, d);
      } else {
        InsertStable(init, x, d);
        InsertStableStep(init, last, x, d);
      }
    }
  }

  /** An article newer than the last one goes before it, and at most one of
      the two has date `d`. */
  lemma InsertStableStep(init: seq<Article>, last: Article, x: Article, d: int)
    requires last.date < x.date
    requires Dated(Insert(init, x), d) == Dated(init, d) + (if x.date == d then [x] else [])
    ensures Dated(Insert(init + [last], x), d) == Dated(init + [last], d) + (if x.date == d then [x] else [])
  {
    InsertPast(init, last, x);
    DatedPush(Insert(init, x), last, d);
    DatedPush(init, last, d);
  }

  lemma InsertPast(init: seq<Article>, last: Article, x: Article)
    requires last.date < x.date
    ensures Insert(init + [last], x) == Insert(init, x) + [last]
  {
    assert (init + [last])[..|init|] == init;
  }

  /** The sort is stable: for every date, the articles of that date appear
      in the sorted list in their original order. */
  lemma {:induction false} SortStable(s: seq<Article>, d: int)
    ensures Dated(SortByDate(s), d) == Dated(s, d)
  {
    if s != [] {
      var init, last := s[..|s| - 1], s[|s| - 1];
      assert s == init + [last];
      SortStable(init, d);
      InsertStable(SortByDate(init), last, d);
      DatedPush(init, last, d);
    }
  }

  /** Sorting keeps exactly the articles it is given. */
  lemma {:induction false} SortPerm(s: seq<Article>)
    ensures multiset(SortByDate(s)) == multiset(s)
    ensures |SortByDate(s)| == |s|
  {
    if s != [] {
      var init := s[..|s| - 1];
      SortPerm(init);
      assert s == init + [s[|s| - 1]];
      SortPermStep(init, s[|s| - 1]);
    }
  }

  lemma SortPermStep(init: seq<Article>, last: Article)
    requires multiset(SortByDate(init)) == multiset(init) && |SortByDate(init)| == |init|
    ensures multiset(SortByDate(init + [last])) == multiset(init + [last])
    ensures |SortByDate(init + [last])| == |init| + 1
  {
    var s := init + [last];
    assert s[..|s| - 1] == init;
    InsertPerm(SortByDate(init), last);
  }

  /** The sorted list is newest first. */
  lemma {:induction false} SortNewest(s: seq<Article>)
    ensures NewestFirst(SortByDate(s))
  {
    if s != [] {
      var init := s[..|s| - 1];
      SortNewest(init);
      InsertNewest(SortByDate(init), s[|s| - 1]);
    }
  }

  /** A list already newest first is left as it is. */
  lemma {:induction false} SortSortedUnchanged(s: seq<Article>)
    requires NewestFirst(s)
    ensures SortByDate(s) == s
  {
    if s != [] {
      var init := s[..|s| - 1];
      SortSortedUnchanged(init);
      assert s == init + [s[|s| - 1]];
    }
  }

  /** Sorting again after appending one article is sorting once. */
  lemma ResortAppend(s: seq<Article>, x: Article)
    ensures SortByDate(SortByDate(s) + [x]) == SortByDate(s + [x])
  {
    SortByDateSpec(s);
    SortSortedUnchanged(SortByDate(s));
    assert (SortByDate(s) + [x])[..|s|] == SortByDate(s);
    assert (s + [x])[..|s|] == s;
  }

  /** `for (const tag of c.tags)` over every article: each tag occurrence
      paired with its article, in the order the reduce visits them. */
  function TagPairs(c: Article, tags: seq<string>): seq<(string, Article)> {
    if tags == [] then [] else TagPairs(c, tags[..|tags| - 1]) + [(tags[|tags| - 1], c)]
  }

  function Pairs(articles: seq<Article>): seq<(string, Article)> {
    if articles == [] then []
    else Pairs(articles[..|articles| - 1]) + TagPairs(articles[|articles| - 1], articles[|articles| - 1].tags)
  }

  /** One step of the `articlesByTag` reduce: `if (!(tag in a)) a[tag] = [];
      a[tag].push(c); a[tag].sort(...)`. */
  function AddTag(d: Dict<seq<Article>>, tag: string, c: Article): (r: Dict<seq<Article>>)
    requires d.Valid()
    ensures r.Valid()
  {
    var list := if tag in d.values then d.values[tag] else [];
    Put(d, tag, SortByDate(list + [c]))
  }

  function Fold(pairs: seq<(string, Article)>): (r: Dict<seq<Article>>)
    ensures r.Valid()
  {
    if pairs == [] then Empty()
    else AddTag(Fold(pairs[..|pairs| - 1]), pairs[|pairs| - 1].0, pairs[|pairs| - 1].1)
  }

  /** The value of `articlesByTag`. */
  function ByTagOf(articles: seq<Article>): (r: Dict<seq<Article>>)
    ensures r.Valid()
  {
    Fold(Pairs(articles))
  }

  /** The articles paired with `tag`, in visiting order. */
  function Filter(pairs: seq<(string, Article)>, tag: string): seq<Article> {
    if pairs == [] then []
    else Filter(pairs[..|pairs| - 1], tag) + (if pairs[|pairs| - 1].0 == tag then [pairs[|pairs| - 1].1] else [])
  }

  /** After any prefix of the visits, a tag is a key exactly when it has been
      visited, and its list is the articles visited with it, sorted. */
  lemma {:induction false} FoldSpec(pairs: seq<(string, Article)>, tag: string)
    ensures tag in Fold(pairs).values <==> Filter(pairs, tag) != []
    ensures tag in Fold(pairs).values ==> Fold(pairs).values[tag] == SortByDate(Filter(pairs, tag))
  {
    if pairs != [] {
      var init := pairs[..|pairs| - 1];
      var t, c := pairs[|pairs| - 1].0, pairs[|pairs| - 1].1;
      FoldSpec(init, tag);
      var prev := Fold(init);
      var list := if t in prev.values then prev.values[t] else [];
      assert Fold(pairs).values == prev.values[t := SortByDate(list + [c])];
      if tag == t {
        FoldSpec(init, t);
        assert list == SortByDate(Filter(init, t));
        assert Filter(pairs, t) == Filter(init, t) + [c];
        ResortAppend(Filter(init, t), c);
      } else {
        assert Filter(pairs, tag) == Filter(init, tag);
      }
    }
  }

  /** The multiplicity of an article in a tag's list is that of the pair. */
  lemma {:induction false} FilterCount(pairs: seq<(string, Article)>, tag: string, c: Article)
    ensures multiset(Filter(pairs, tag))[c] == multiset(pairs)[(tag, c)]
  {
    if pairs != [] {
      var init := pairs[..|pairs| - 1];
      FilterCount(init, tag, c);
      assert pairs == init + [pairs[|pairs| - 1]];
    }
  }

  lemma {:induction false} TagPairsCount(c: Article, tags: seq<string>, tag: string, x: Article)
    ensures multiset(TagPairs(c, tags))[(tag, x)] == if x == c then multiset(tags)[tag] else 0
  {
    if tags != [] {
      var init := tags[..|tags| - 1];
      TagPairsCount(c, init, tag, x);
      assert tags == init + [tags[|tags| - 1]];
    }
  }

  /** One more article adds its count of a tag to the visits, once if it is
      the article counted. */
  lemma CountStep(total: nat, before: nat, added: nat, n: nat, k: nat, counted: bool)
    requires before == n * k && added == (if counted then k else 0) && total == before + added
    ensures total == (if counted then n + 1 else n) * k
  {
    if counted {
      MulSucc(n, k);
    }
  }

  /** An article is visited with a tag once per occurrence of the tag in its
      tags, for every time it occurs among the articles. */
  lemma {:induction false} PairsCount(articles: seq<Article>, tag: string, c: Article)
    ensures multiset(Pairs(articles))[(tag, c)] == multiset(articles)[c] * multiset(c.tags)[tag]
  {
    if articles != [] {
      var init, last := articles[..|articles| - 1], articles[|articles| - 1];
      PairsCount(init, tag, c);
      assert articles == init + [last];
      PairsCountStep(init, last, tag, c);
    }
  }

  lemma PairsCountStep(init: seq<Article>, last: Article, tag: string, c: Article)
    requires multiset(Pairs(init))[(tag, c)] == multiset(init)[c] * multiset(c.tags)[tag]
    ensures multiset(Pairs(init + [last]))[(tag, c)] == multiset(init + [last])[c] * multiset(c.tags)[tag]
  {
    var articles := init + [last];
    assert articles[..|articles| - 1] == init;
    TagPairsCount(last, last.tags, tag, c);
    assert Pairs(articles) == Pairs(init) + TagPairs(last, last.tags);
    var n, k := multiset(init)[c], multiset(c.tags)[tag];
    assert multiset(articles)[c] == if last == c then n + 1 else n;
    CountStep(multiset(Pairs(articles))[(tag, c)], multiset(Pairs(init))[(tag, c)],
              multiset(TagPairs(last, last.tags))[(tag, c)], n, k, last == c);
  }

  /** An article is in a tag's visits exactly when it carries the tag. */
  lemma Visited(articles: seq<Article>, tag: string, c: Article)
    ensures c in Filter(Pairs(articles), tag) <==> c in articles && tag in c.tags
  {
    FilterCount(Pairs(articles), tag, c);
    PairsCount(articles, tag, c);
    MulPositive(multiset(articles)[c], multiset(c.tags)[tag]);
  }

  lemma VisitCount(articles: seq<Article>, tag: string, c: Article)
    ensures multiset(SortByDate(Filter(Pairs(articles), tag)))[c] == multiset(articles)[c] * multiset(c.tags)[tag]
  {
    SortByDateSpec(Filter(Pairs(articles), tag));
    FilterCount(Pairs(articles), tag, c);
    PairsCount(articles, tag, c);
  }

  /** `articlesByTag` has a key for exactly the tags that occur; each list is
      newest first and holds every article once per occurrence of the tag in
      its tags. */
  lemma ByTagSpec(articles: seq<Article>, tag: string)
    ensures tag in ByTagOf(articles).values <==> exists c :: c in articles && tag in c.tags
    ensures tag in ByTagOf(articles).values ==>
              && NewestFirst(ByTagOf(articles).values[tag])
              && forall c :: multiset(ByTagOf(articles).values[tag])[c] == multiset(articles)[c] * multiset(c.tags)[tag]
  {
    ByTagKeys(articles, tag);
    if tag in ByTagOf(articles).values {
      ByTagList(articles, tag);
    }
  }

  lemma ByTagKeys(articles: seq<Article>, tag: string)
    ensures tag in ByTagOf(articles).values <==> exists c :: c in articles && tag in c.tags
  {
    var visits := Filter(Pairs(articles), tag);
    FoldSpec(Pairs(articles), tag);
    if visits != [] {
      Visited(articles, tag, visits[0]);
    }
    if c :| c in articles && tag in c.tags {
      Visited(articles, tag, c);
    }
  }

  lemma ByTagList(articles: seq<Article>, tag: string)
    requires tag in ByTagOf(articles).values
    ensures NewestFirst(ByTagOf(articles).values[tag])
    ensures forall c :: multiset(ByTagOf(articles).values[tag])[c] == multiset(articles)[c] * multiset(c.tags)[tag]
  {
    var visits := Filter(Pairs(articles), tag);
    var list := ByTagOf(articles).values[tag];
    assert list == SortByDate(visits) by {
      FoldSpec(Pairs(articles), tag);
    }
    assert NewestFirst(list) by {
      SortByDateSpec(visits);
    }
    forall c
      ensures multiset(list)[c] == multiset(articles)[c] * multiset(c.tags)[tag]
    {
      VisitCount(articles, tag, c);
    }
  }

  /** The reduce of content/mod.ts:37-46, over the articles in order. */
  method IndexByTag(articles: seq<Article>) returns (byTag: Dict<seq<Article>>)
    ensures byTag == ByTagOf(articles)
  {
    byTag := Empty();
    var i := 0;
    while i < |articles|
      invariant 0 <= i <= |articles|
      invariant byTag == Fold(Pairs(articles[..i]))
    {
      byTag := AddArticle(byTag, articles[i], Pairs(articles[..i]));
      PairsPush(articles, i);
      i := i + 1;
    }
    assert articles[..i] == articles;
  }

  /** The reduce callback: for each of `c`'s tags, push `c` onto the tag's
      list, creating it first, and re-sort the list. */
  method AddArticle(byTag: Dict<seq<Article>>, c: Article, ghost done: seq<(string, Article)>)
    returns (r: Dict<seq<Article>>)
    requires byTag == Fold(done)
    ensures r == Fold(done + TagPairs(c, c.tags))
  {
    r := byTag;
    var j := 0;
    assert done + TagPairs(c, c.tags[..0]) == done;
    while j < |c.tags|
      invariant 0 <= j <= |c.tags|
      invariant r == Fold(done + TagPairs(c, c.tags[..j]))
    {
      var tag := c.tags[j];
      // `if (!(tag in a)) a[tag] = []; a[tag].push(c); a[tag].sort(...)`
      var list := if tag in r.values then r.values[tag] else [];
      AddTagStep(r, done, c, j);
      r := Put(r, tag, SortByDate(list + [c]));
      j := j + 1;
    }
    assert c.tags[..j] == c.tags;
  }

  lemma AddTagStep(r: Dict<seq<Article>>, done: seq<(string, Article)>, c: Article, j: nat)
    requires j < |c.tags| && r == Fold(done + TagPairs(c, c.tags[..j]))
    ensures var list := if c.tags[j] in r.values then r.values[c.tags[j]] else [];
            Put(r, c.tags[j], SortByDate(list + [c])) == Fold(done + TagPairs(c, c.tags[..j + 1]))
  {
    var before := done + TagPairs(c, c.tags[..j]);
    TagPairsPush(c, c.tags, j);
    assert done + TagPairs(c, c.tags[..j + 1]) == before + [(c.tags[j], c)];
    FoldPush(before, c.tags[j], c);
  }

  lemma TagPairsPush(c: Article, tags: seq<string>, j: nat)
    requires j < |tags|
    ensures TagPairs(c, tags[..j + 1]) == TagPairs(c, tags[..j]) + [(tags[j], c)]
  {
    assert tags[..j + 1][..j] == tags[..j];
  }

  lemma PairsPush(articles: seq<Article>, i: nat)
    requires i < |articles|
    ensures Pairs(articles[..i + 1]) == Pairs(articles[..i]) + TagPairs(articles[i], articles[i].tags)
  {
    assert articles[..i + 1][..i] == articles[..i];
  }

  lemma FoldPush(pairs: seq<(string, Article)>, tag: string, c: Article)
    ensures Fold(pairs + [(tag, c)]) == AddTag(Fold(pairs), tag, c)
  {
    assert (pairs + [(tag, c)])[..|pairs|] == pairs;
  }
}
