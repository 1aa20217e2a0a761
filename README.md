# A model of the valeriavg.dev blog core

This Dafny project models the deterministic core of the valeriavg.dev blog
(a Deno/TypeScript site), and proves what that code promises:

- **Content ingestion and indexing** (`content/mod.ts`, `lib/blog.ts`, `index.tsx`).
  - The `for...in` loop over the files of `./content` is modelled once, as a method with a loop invariant (`Ingestion`). Each of the three files instantiates it.
  - Markdown documents become articles keyed by their URL. The URL is the path with `/index.md`, or else `.md`, removed.
  - Every other file is kept as static content.
  - The first failing document aborts the load, with ` while parsing /content<path>` appended to its message.
  - `articlesByPubDate` is a stable newest-first sort.
  - `articlesByTag` is the `reduce` that pushes each article onto its tags' lists and re-sorts them. It is modelled as a method with loops, and proved against a fold over (tag, article) visits.
  - JavaScript objects used as dictionaries are `Dicts.Dict`: keys in insertion order plus a map.
- **The single-file server of `index.tsx`**: its inline link and image overrides, its sitemap, and the fixed order in which `serve` checks a request path.
- **The marked renderer overrides** (`lib/markdown/renderer.ts` and the older `lib/renderer.ts`):
  - External links.
  - `./` images rebased onto the article URL.
  - Code-fence language normalisation, with an escaped fallback.
  - `<!--render:NAME-->` directives, modelled as the regular expression's leftmost, greedy match.
- **The index consumers**:
  - `paginate`.
  - The three blog route handlers of `features/blog/routes.tsx`, including `relatedArticles`.
  - The two sitemap serialisers, in the sitemaps.org protocol 0.9 `urlset` format.
  - The Atom feed (RFC 4287, sections 4.1.1 and 4.1.2).
- **The calendar range picker** of the custom-calendar article:
  - `createCalendar`, as a method with the source's two loops, proved against the month's cells cut into rows of seven.
  - Proleptic Gregorian weekday arithmetic, where day 0 (1970-01-01) is a Thursday.
  - The `calendarReducer` state machine and the `hoverDays` and `onSelect` decisions.
  - The `CalendarView` cell predicates.
- **`slugify`** of the article scaffolding script, and its title check.

Foreign code is passed in as function parameters. This covers:

- marked's tokenizer and base renderer;
- Prism's grammars and highlighter;
- `he.escape`, `front_matter.extract` and `TextDecoder`;
- hono's `html` escaping, the JSX renderer and `JSON.stringify`;
- `Date.prototype.toISOString` and `toString`.

The Prism grammar set and the server-side-include registry are maps. Dates are the integer milliseconds of `getTime()`.

## Model

| member | source | states |
|---|---|---|
| Dicts.Empty | content/mod.ts:9 | `{}` is a well-formed dictionary (every key listed exactly once) with no keys |
| Dicts.Put | content/mod.ts:26 | assignment stores the value under the key; a new key is appended to the key order and an existing key keeps its position; well-formedness is kept, so a key is listed once however often it is assigned |
| Dicts.Values | content/mod.ts:33 | `Object.values` lists the value of each key, in key order |
| Articles.UrlOf | content/mod.ts:23 | the URL is the path without a trailing `/index.md`, else without `.md`, else the path itself |
| Articles.UrlRoundTrip | content/mod.ts:23 | `<url>/index.md` and (for URLs not ending in `/index`) `<url>.md` both give `<url>` |
| Articles.InsertSpec | content/mod.ts:33-35 | inserting into a newest-first list keeps it newest first, adds exactly that article and lengthens it by one |
| Articles.InsertPerm | content/mod.ts:33-35 | inserting adds exactly that article and lengthens the list by one |
| Articles.InsertNewest | content/mod.ts:33-35 | inserting into a newest-first list keeps it newest first |
| Articles.SortByDateSpec | content/mod.ts:33-35 | the sort by descending date is newest first and a permutation of its input |
| Articles.SortPerm | content/mod.ts:33-35 | the sort keeps exactly the articles it is given, as a multiset |
| Articles.SortNewest | content/mod.ts:33-35 | the sorted list is newest first |
| Articles.InsertStable | content/mod.ts:33-35 | an inserted article goes after every article of its own date, and the articles of each date keep their order |
| Articles.SortStable | content/mod.ts:33-35 | the sort is stable: for every date, the articles of that date appear in the sorted list in their original order |
| Articles.SortSortedUnchanged | content/mod.ts:43 | sorting a list that is already newest first leaves it unchanged |
| Articles.ResortAppend | content/mod.ts:42-43 | push-then-sort on a sorted list equals sorting the whole list once |
| Articles.AddTag | content/mod.ts:39-43 | one push-and-sort step keeps the dictionary well formed |
| Articles.Fold | content/mod.ts:37-46 | the reduce over any visits yields a well-formed dictionary |
| Articles.ByTagOf | content/mod.ts:37-46 | `articlesByTag` is well formed |
| Articles.FoldSpec | content/mod.ts:37-46 | after any prefix of visits, a tag is a key iff it was visited, and its list is its visited articles sorted newest first |
| Articles.FilterCount | content/mod.ts:42 | an article's multiplicity in a tag's visits is that of the (tag, article) pair |
| Articles.TagPairsCount | content/mod.ts:38 | one article is visited with a tag once per occurrence of the tag in its tags |
| Articles.PairsCount | content/mod.ts:37-38 | overall, (tag, c) is visited (occurrences of c) times (occurrences of tag in c.tags) |
| Articles.Visited | content/mod.ts:37-42 | an article is among a tag's visits iff it is an article carrying that tag |
| Articles.VisitCount | content/mod.ts:42-43 | sorting keeps each article's multiplicity in a tag's list |
| Articles.ByTagSpec | content/mod.ts:37-46 | the keys are exactly the tags that occur; each list is newest first and holds every article once per occurrence of the tag |
| Articles.ByTagKeys | content/mod.ts:39-41 | a tag is a key iff some article carries it |
| Articles.ByTagList | content/mod.ts:42-43 | each tag's list is newest first with the per-occurrence multiplicities |
| Articles.IndexByTag | content/mod.ts:37-46 | the reduce's loop over the articles computes `ByTagOf` |
| Articles.AddArticle | content/mod.ts:38-44 | the callback's loop over one article's tags extends the fold by that article's visits |
| Articles.AddTagStep | content/mod.ts:39-43 | one iteration of the callback's loop is one fold step |
| Articles.TagPairsPush | content/mod.ts:38 | one more tag visited is one more pair at the end |
| Articles.PairsPush | content/mod.ts:37 | one more article visited appends its tag pairs |
| Articles.FoldPush | content/mod.ts:37-45 | folding one more pair is one more push-and-sort step |
| Ingestion.Annotate | content/mod.ts:28 | the new message is the old one followed by ` while parsing /content<path>` |
| Ingestion.Document | content/mod.ts:19-30 | a document fails iff extraction or rendering fails, with the annotated message; otherwise it is the front matter with `url` and rendered `content` set, rendered with its own URL as base |
| Ingestion.Ingest | content/mod.ts:13-31 | the loop's result is the fold `IngestUpTo` over all paths, in listing order |
| Ingestion.IngestValid | content/mod.ts:13-31 | both dictionaries a successful load builds are well formed |
| Ingestion.IngestStep | content/mod.ts:14-26 | one turn: a static file is stored, a failed document aborts, a document is stored under its URL |
| Ingestion.ErrSticks | content/mod.ts:29 | once a document has thrown, the rest of the loop does not change the outcome |
| Ingestion.IngestOk | content/mod.ts:13-31 | the load succeeds iff every markdown document parses and renders |
| Ingestion.IngestOkStep | content/mod.ts:13-31 | one more visited path keeps the load successful iff that path, when markdown, parses and renders |
| Ingestion.AllOkSplit | content/mod.ts:13 | all documents of a prefix succeed iff those before the last do and the last does |
| Ingestion.IngestFirstError | content/mod.ts:27-30 | a failed load reports the first failing document's annotated message |
| Ingestion.IngestStatic | content/mod.ts:14-18 | each non-markdown path is copied under the same key with the same data; no markdown path is added; other keys keep their starting values |
| Ingestion.IngestKeyIsUrl | content/mod.ts:26 | every key of `content` is its article's URL |
| Ingestion.IngestArticlesOnce | content/mod.ts:26-33 | the article list `Object.values(content)` holds no article twice |
| Ingestion.IngestUrlPresent | content/mod.ts:23-26 | every markdown path has an article under its URL |
| Ingestion.IngestLastWins | content/mod.ts:26 | the article under a URL comes from the last markdown path with that URL: later documents overwrite earlier ones |
| ContentModule.ArticlesByPubDate | content/mod.ts:33-35 | `articlesByPubDate` is newest first and a permutation of the content's values |
| ContentModule.Load | content/mod.ts:7-48 | the module's exports are the ingestion loop's dictionaries and the two indexes over them, or the loop's error |
| BlogBuild.ReadFailure | lib/blog.ts:19-29 | a markdown file that cannot be read fails with its path appended |
| BlogBuild.ModuleTextEmbeds | lib/blog.ts:34-57 | the generated module text holds the JSON of `content` and of `staticContent`, whole, at positions fixed by the lengths |
| BlogBuild.Build | lib/blog.ts:7-58 | `buildBlog` yields the module text over the loop's two dictionaries, or the loop's error |
| LegacyServer.Link | index.tsx:41-48 | an `http` link becomes an anchor with `rel="noopener noreferrer"`, no `target`, and a title iff truthy; other links go to the default renderer |
| LegacyServer.Image | index.tsx:50-59 | a `.`-prefixed image is rebased onto the article URL; others pass through |
| LegacyServer.SameAsRenderer | index.tsx:41-59 | the inline overrides coincide with `lib/renderer.ts`'s `Renderer` for the article's URL |
| LegacyServer.Load | index.tsx:22-82 | start-up seeds static content with `./static`, then runs the ingestion loop and builds both indexes, or fails with the loop's error |
| LegacyServer.AsWrittenTagLocOffSite | index.tsx:93 | the tag `<loc>` as written is not under `BASE_URL/` (e.g. `https://valeriavg.devtags/css`) |
| LegacyServer.TagLocServed | index.tsx:93 | the corrected `<loc>` is `BASE_URL` + `/tags/<tag>`, a path that `serve` answers with the tag's page |
| LegacyServer.UrlsDiffer | index.tsx:86-111 | the written and corrected sitemaps exist together and differ only in the tag entries' `<loc>` |
| LegacyServer.SitemapText | index.tsx:84-111 | the sitemap exists iff there is an article and no tag list is empty; it is the `urlset` of the corrected entries |
| LegacyServer.AsWrittenSitemapText | index.tsx:84-111 | as written: the sitemap exists iff there is an article and no tag list is empty; it is the `urlset` of the written entries |
| LegacyServer.SitemapTextsDiffer | index.tsx:93 | the written and corrected sitemaps exist together, and the written one is shorter by one character per tag |
| LegacyServer.StripSlash | index.tsx:139 | exactly one trailing slash is removed |
| LegacyServer.TagOf | index.tsx:164 | `pathname.slice(6)`: the rest after six characters, or empty |
| LegacyServer.Serve | index.tsx:131-177 | `/` is the home page; then, after stripping a slash, checks run in order: sitemap, static file, article, known tag under `/tags`, else not found |
| LegacyServer.TrailingSlash | index.tsx:139 | a trailing slash does not change the answer, except for `/` |
| LegacyServer.ArticleServed | index.tsx:155-161 | an article's URL, not shadowed by a static file, serves that article |
| LegacyServer.TagSeparatorIgnored | index.tsx:163-165 | any character in place of the slash after `/tags` reaches the same tag page |
| MarkdownRenderer.TitleAttr | lib/markdown/renderer.ts:39 | the title attribute appears iff the title is truthy |
| MarkdownRenderer.Link | lib/markdown/renderer.ts:36-43 | an `http` link is an anchor with `rel` and `target="_blank"`; any other is delegated unchanged |
| MarkdownRenderer.AnchorTitle | lib/markdown/renderer.ts:38-40 | the anchor keeps the `href` and carries the title attribute exactly when the title is non-empty |
| MarkdownRenderer.RebaseImage | lib/markdown/renderer.ts:46-48 | a `.` href becomes `baseUrl` + the href without its first character; others are unchanged |
| MarkdownRenderer.RebaseExample | lib/markdown/renderer.ts:46-48 | `./pic.png` under `posts/my-post` is `posts/my-post/pic.png` |
| MarkdownRenderer.Image | lib/markdown/renderer.ts:45-50 | the base image renderer receives the rebased href |
| MarkdownRenderer.BeforeComma | lib/markdown/renderer.ts:54 | the result is the longest comma-free prefix of the info string |
| MarkdownRenderer.Language | lib/markdown/renderer.ts:53-60 | the language is the text before the first comma, with `sh` as `bash` and `rs` as `rust`; never an alias, never with a comma |
| MarkdownRenderer.LanguageIdempotent | lib/markdown/renderer.ts:53-60 | normalising a normalised language changes nothing |
| MarkdownRenderer.Code | lib/markdown/renderer.ts:52-70 | without a registered, non-empty language the code is escaped in `<pre><code class="notranslate">`; with one, Prism's output is wrapped in `highlight-source-<language>` |
| MarkdownRenderer.PlainCodeReadBack | lib/markdown/renderer.ts:65-67 | the fallback output contains the escaped code intact between fixed tags |
| MarkdownRenderer.LineEnd | lib/markdown/renderer.ts:73 | `.` matches up to the first line terminator |
| MarkdownRenderer.LastClose | lib/markdown/renderer.ts:73 | the greedy `.+` backtracks to the last `-->` on the line |
| MarkdownRenderer.MatchAt | lib/markdown/renderer.ts:73 | the longest match at a position, or none |
| MarkdownRenderer.Exec | lib/markdown/renderer.ts:73 | `exec` finds the leftmost match and, there, the longest |
| MarkdownRenderer.DirectiveName | lib/markdown/renderer.ts:73-75 | the capture is non-empty and on one line; it is absent iff nothing matches |
| MarkdownRenderer.Html | lib/markdown/renderer.ts:72-85 | html without a directive, or naming an unregistered component, is unchanged; a registered one is replaced by the component's render followed by its module script tag |
| MarkdownRenderer.DirectiveRoundTrip | lib/markdown/renderer.ts:73-75 | the directive written for any one-line name reads back as that name |
| MarkdownRenderer.RegisteredDirective | lib/markdown/renderer.ts:73-82 | a directive naming a registered component is replaced by it and its script |
| MarkdownRenderer.DirectiveOnOneLine | lib/markdown/renderer.ts:73 | a directive broken over two lines is not recognised |
| LegacyRenderer.Link | lib/renderer.ts:36-42 | an `http` link is an anchor with `rel` and no `target`; others are delegated |
| LegacyRenderer.LinkVersions | lib/renderer.ts:36-42 | the two renderers differ exactly by ` target="_blank"` on external anchors |
| LegacyRenderer.Image | lib/renderer.ts:44-53 | `.`-prefixed images are rebased onto the article URL |
| LegacyRenderer.Code | lib/renderer.ts:56-75 | the same language normalisation, escaped fallback and highlighted wrapper |
| Sitemap.BaseUrl | features/sitemap/sitemap.ts:4 | with `??`, a set `BASE_URL` is used even when empty; otherwise the default |
| Sitemap.TagEntries | features/sitemap/sitemap.ts:8-15 | one entry per key in key order, dated by the first article of its list; fails iff some list is empty |
| Sitemap.ArticleEntries | features/sitemap/sitemap.ts:16-23 | one entry per article, in order, at `loc(url)` with the article's date |
| Sitemap.SitemapExists | features/sitemap/sitemap.ts:3-29 | over the indexes, the sitemap exists iff there is an article |
| Sitemap.SitemapTagEntry | features/sitemap/sitemap.ts:8-15 | each tag's entry is `BASE_URL/tags/<tag>`, dated by the newest article carrying the tag |
| Sitemap.SitemapArticleEntries | features/sitemap/sitemap.ts:16-27 | one entry `BASE_URL/<url>` per article in publication order, then the root dated by the newest article; at least two entries |
| Sitemap.NonEmptyLists | features/sitemap/sitemap.ts:12 | no list of `articlesByTag` is empty |
| Sitemap.NewestOfTag | features/sitemap/sitemap.ts:12 | a tag list's first article is its newest and carries the tag |
| Sitemap.UrlFields | features/sitemap/sitemap.ts:10-13 | a `<url>` element holds its `<loc>` and its `toISOString` date whole, each between the fixed markup around it, at positions fixed by the lengths |
| Sitemap.Elements | features/sitemap/sitemap.ts:8-23 | `map` gives exactly one `<url>` element per entry, in order: element i is the element of entry i |
| Sitemap.Xml | features/sitemap/sitemap.ts:5-28 | the document is the XML declaration and `urlset` head, then exactly the body (tag elements, article elements, the home page), then `</urlset>` |
| Sitemap.CreateSitemap | features/sitemap/sitemap.ts:3-29 | `createSitemap` is the XML of the entries at `BASE_URL`, and fails exactly when the entries do |
| SitemapRoute.BaseUrl | routes/sitemap.xml.ts:5 | with `\|\|`, an empty `BASE_URL` falls back to the default |
| SitemapRoute.BaseUrlsDiffer | routes/sitemap.xml.ts:5 | the two base-URL rules differ iff `BASE_URL` is set to the empty string |
| SitemapRoute.SitemapText | routes/sitemap.xml.ts:7-32 | the route's sitemap is the XML of the same entries, and fails exactly when they do |
| SitemapRoute.SameAsCreateSitemap | routes/sitemap.xml.ts:5-32 | except for an empty `BASE_URL`, the route serves exactly `createSitemap`'s text |
| AtomFeed.EntryFields | features/feed/atom.ts:14-25 | each entry holds its title, link, id, published, updated and summary texts whole, at positions fixed by the lengths |
| AtomFeed.Interpolated | features/feed/atom.ts:17-19 | `${v}` of an absent field is `undefined` |
| AtomFeed.Escaped | features/feed/atom.ts:15-20 | `html` escapes a present value and writes nothing for an absent one |
| AtomFeed.Fields | features/feed/atom.ts:14-25 | seven texts concatenated are found whole at offsets fixed by their lengths |
| AtomFeed.UpdatedUndefined | features/feed/atom.ts:19 | as written, an article without `updatedAt` gets `<updated>undefined</updated>` |
| AtomFeed.Updated | features/feed/atom.ts:19 | corrected: `updatedAt` when present, else the published date |
| AtomFeed.EntryUpdated | features/feed/atom.ts:19 | the corrected entry equals the written one when `updatedAt` is present, and differs from it only in `atom:updated` otherwise |
| AtomFeed.Entries | features/feed/atom.ts:12-26 | as written: exactly one entry per article of `articlesByPubDate`, in the same order, entry i being the written entry of article i (with `undefined` for an absent `updatedAt`) |
| AtomFeed.CorrectedEntries | features/feed/atom.ts:12-26 | corrected: one entry per article, in order, each with the corrected `atom:updated` |
| AtomFeed.MapAll | features/feed/atom.ts:13-26 | `map` keeps the length and applies the callback at every index |
| AtomFeed.FeedBody | features/feed/atom.ts:3-29 | the feed is the fixed head (title, subtitle, links, id, updated), exactly the entries' text, then the fixed tail |
| AtomFeed.GenerateFeed | features/feed/atom.ts:3-29 | as written: the feed is the fixed head, exactly the written entries joined by newlines, then the fixed tail |
| AtomFeed.CorrectedFeed | features/feed/atom.ts:3-29 | corrected: the same frame around the corrected entries joined by newlines |
| AtomFeed.FeedCorrectedIff | features/feed/atom.ts:19 | the written feed equals the corrected one if and only if every article has an `updatedAt` |
| AtomFeed.FeedsAgree | features/feed/atom.ts:19 | with every `updatedAt` present, the written feed is the corrected one |
| AtomFeed.FeedsDiffer | features/feed/atom.ts:19 | with some `updatedAt` absent, the written feed differs from the corrected one |
| AtomFeed.SameEntries | features/feed/atom.ts:19 | before the first article without `updatedAt`, the written and corrected entries coincide |
| AtomFeed.MissingUpdated | features/feed/atom.ts:14-25 | for an article without `updatedAt`, the written and corrected entries share everything around the `atom:updated` text, which is `undefined` in one and the publication date in the other |
| AtomFeed.EntriesDiffer | features/feed/atom.ts:12-27 | the joined written and corrected entries differ at a position inside the first article without `updatedAt` |
| AtomFeed.FeedAppend | features/feed/atom.ts:27 | entries are separated by single newlines |
| BlogRoutes.PageNumber | features/blog/routes.tsx:18 | a missing page parameter, or "1", is page 1 |
| BlogRoutes.Home | features/blog/routes.tsx:16-28 | page "1" redirects to `/`; otherwise the page is not found iff `paginate` returns null, else the page is rendered |
| BlogRoutes.HomePages | features/blog/routes.tsx:18-20 | pages 2 to the last each show the next window of at most three articles |
| BlogRoutes.HomeFirstPage | features/blog/routes.tsx:18-20 | with no page number, the first three articles are shown; an empty blog has no home page |
| BlogRoutes.LeadingZero | features/blog/routes.tsx:16-18 | "01" is page 1 but does not redirect |
| BlogRoutes.PageZero | features/blog/routes.tsx:16-19 | page "0" passes the pattern and renders an empty page numbered 0 |
| BlogRoutes.Digits | features/blog/routes.tsx:16 | the decimal digits of `n` match the page pattern and parse back to `n` |
| BlogRoutes.Tag | features/blog/routes.tsx:30-46 | an unknown tag is not found, checked before page "1" redirects to `/tags/<tag>`; otherwise as the home route over the tag's list |
| BlogRoutes.TagFirstPage | features/blog/routes.tsx:30-37 | every tag an article carries has a first page of its newest articles |
| BlogRoutes.FirstPage | features/blog/utils.ts:5-11 | page 1 of a non-empty list is its first min(3, length) items |
| BlogRoutes.Lists | features/blog/routes.tsx:54-56 | `flatMap` over the tags holds exactly their lists' articles; a tag without a list makes the later `.url` throw |
| BlogRoutes.OtherThan | features/blog/routes.tsx:56 | the filter keeps exactly the articles at another URL |
| BlogRoutes.FirstIndex | features/blog/routes.tsx:53 | the position of an element's first occurrence |
| BlogRoutes.FirstIndexAppend | features/blog/routes.tsx:53 | appending does not move a first occurrence |
| BlogRoutes.Dedup | features/blog/routes.tsx:52-58 | `[...new Set(s)]` holds each element of `s` once |
| BlogRoutes.DedupFirstSeen | features/blog/routes.tsx:52-58 | the elements keep the order of their first occurrences |
| BlogRoutes.Related | features/blog/routes.tsx:52-58 | related articles exist iff every tag has a list; they are distinct and are exactly the articles at another URL sharing a tag |
| BlogRoutes.RelatedOverIndex | features/blog/routes.tsx:52-58 | over the blog's own index, related articles are exactly the other-URL articles with a tag in common |
| BlogRoutes.Slug | features/blog/routes.tsx:48-63 | an unknown slug is not found; a known one renders the article with its related articles |
| Pagination.CeilDiv | features/blog/utils.ts:5 | the page count is the least number of pages of that size covering the list, and not positive for negative sizes |
| Pagination.SliceIndex | features/blog/utils.ts:9 | a slice bound always lands inside the list, and an in-range bound is kept as it is |
| Pagination.Slice | features/blog/utils.ts:9 | a slice with in-range bounds is the subsequence between them |
| Pagination.Paginate | features/blog/utils.ts:1-12 | null iff the page is past the last; a single page returns the whole list; `totalPages` is the ceiling |
| Pagination.PageContents | features/blog/utils.ts:8-11 | an existing page holds 1 to `pageSize` items, the window `[(page-1)·size, page·size)` clipped to the list |
| Pagination.WindowStart | features/blog/utils.ts:9 | an existing page starts inside the list |
| Pagination.PageWindow | features/blog/utils.ts:8-11 | page windows of a multi-page list; only the last reaches the end |
| Pagination.PagesFromSuffix | features/blog/utils.ts:8-11 | the pages from page k on concatenate to the list from (k-1)·size on |
| Pagination.PagesReassemble | features/blog/utils.ts:1-12 | concatenating pages 1..totalPages gives back the list in order |
| Pagination.UnitTestCases | features/blog/utils.test.ts:6-22 | the unit tests' cases: empty list, pages 1 and 2 of five items, a negative size, a page past the end |
| Pagination.NegativePageSize | features/blog/utils.ts:5-6 | a negative page size yields null for every page from 1 on |
| Dates.DaysInMonth | content/custom-calendar-component/createCalendar.ts:11 | months have 28 to 31 days; February has 29 exactly in leap years |
| Dates.DaysBeforeMonthTable | content/custom-calendar-component/createCalendar.ts:9 | the day offsets of month starts in common and leap years |
| Dates.YearLength | content/custom-calendar-component/createCalendar.ts:9-11 | a year has 366 days if leap, else 365, and its months add up to it |
| Dates.Weekday | content/custom-calendar-component/createCalendar.ts:10 | `getDay()` is between 0 and 6, and 1970-01-01 is a Thursday (4) |
| Dates.FirstWeekday | content/custom-calendar-component/createCalendar.ts:9-10 | the weekday of the first of the month is between 0 and 6 |
| Dates.LastDate | content/custom-calendar-component/createCalendar.ts:11 | the last date of a month is between 28 and 31 |
| Dates.DayZeroOfNextMonth | content/custom-calendar-component/createCalendar.ts:11 | `new Date(year, month + 1, 0)` is the month's last day |
| Dates.WeekdayOfDay | content/custom-calendar-component/createCalendar.test.ts:61-73 | day d falls on the first's weekday plus d - 1, mod 7 |
| Dates.FebruaryLengths | content/custom-calendar-component/createCalendar.test.ts:16-33 | February 2024 has 29 days and February 2025 has 28 |
| MonthGrid.Padding | content/custom-calendar-component/createCalendar.ts:16-18 | the padding is below 7 and completes the cells to whole rows |
| MonthGrid.MonthCells | content/custom-calendar-component/createCalendar.ts:8-18 | the month's cells fill whole rows |
| MonthGrid.CreateCalendar | content/custom-calendar-component/createCalendar.ts:1-20 | the grid built is `Grid(month, year)` |
| MonthGrid.LayOut | content/custom-calendar-component/createCalendar.ts:8-19 | the two loops build the month's cells (blanks, days 1..n, padding) cut into rows of seven |
| MonthGrid.LastRowFull | content/custom-calendar-component/createCalendar.ts:16-19 | after padding, the rows are exactly the month's cells in sevens |
| MonthGrid.RowCount | content/custom-calendar-component/createCalendar.ts:13 | full rows hold seven cells each |
| MonthGrid.MonthCellAt | content/custom-calendar-component/createCalendar.ts:10-18 | cell k is a blank before the first day, day k - offset + 1 up to the last, a blank after |
| MonthGrid.GridShape | content/custom-calendar-component/createCalendar.ts:12-18 | every month has 4 to 6 rows of exactly 7 cells, holding the blanks, the days in order and the padding |
| MonthGrid.GridCell | content/custom-calendar-component/createCalendar.ts:8-19 | row r, column c holds cell 7r + c of the month |
| MonthGrid.DayInWeekdayColumn | content/custom-calendar-component/createCalendar.test.ts:61-73 | every day sits in the column of its weekday |
| MonthGrid.GridRowCount | content/custom-calendar-component/createCalendar.ts:12-18 | the row count is ceil((offset + days) / 7) |
| MonthGrid.NullsAtEdges | content/custom-calendar-component/createCalendar.ts:10-18 | nulls are exactly the first row's first `offset` cells and the last row's padding |
| MonthGrid.DaysInOrder | content/custom-calendar-component/createCalendar.ts:11-15 | read row by row, the non-null cells are exactly 1, 2, …, the month's last date |
| MonthGrid.PresentMonthCells | content/custom-calendar-component/createCalendar.ts:10-18 | the blanks around the days carry no value |
| MonthGrid.PresentDayCells | content/custom-calendar-component/createCalendar.ts:12-15 | the pushed days are 1..n |
| MonthGrid.October2024 | content/custom-calendar-component/createCalendar.test.ts:7-15 | October 2024 starts on Tuesday and has 31 days |
| MonthGrid.February2024 | content/custom-calendar-component/createCalendar.test.ts:16-24 | February 2024 starts on Thursday and has 29 days |
| MonthGrid.February2025 | content/custom-calendar-component/createCalendar.test.ts:25-33 | February 2025 starts on Saturday and has 28 days |
| MonthGrid.January1970 | content/custom-calendar-component/createCalendar.test.ts:34-42 | January 1970 starts on Thursday and has 31 days |
| MonthGrid.April2014 | content/custom-calendar-component/createCalendar.test.ts:43-51 | April 2014 starts on Tuesday and has 30 days |
| MonthGrid.October2000 | content/custom-calendar-component/createCalendar.test.ts:52-60 | October 2000 starts on Sunday and has 31 days |
| MonthGrid.GridRow | content/custom-calendar-component/createCalendar.ts:8-19 | row r of the grid is exactly its seven cells, cell c being cell 7r + c of the month |
| MonthGrid.FiveRows | content/custom-calendar-component/createCalendar.ts:8-19 | a month whose blanks and days fill 29 to 35 cells is exactly five such rows |
| MonthGrid.October2024Grid | content/custom-calendar-component/createCalendar.test.ts:7-15 | the whole grid of October 2024 is the table the test expects, row by row and cell by cell |
| MonthGrid.February2024Grid | content/custom-calendar-component/createCalendar.test.ts:16-24 | the whole grid of February 2024 is the table the test expects, row by row and cell by cell |
| MonthGrid.February2025Grid | content/custom-calendar-component/createCalendar.test.ts:25-33 | the whole grid of February 2025 is the table the test expects, row by row and cell by cell |
| MonthGrid.January1970Grid | content/custom-calendar-component/createCalendar.test.ts:34-42 | the whole grid of January 1970 is the table the test expects, row by row and cell by cell |
| MonthGrid.April2014Grid | content/custom-calendar-component/createCalendar.test.ts:43-51 | the whole grid of April 2014 is the table the test expects, row by row and cell by cell |
| MonthGrid.October2000Grid | content/custom-calendar-component/createCalendar.test.ts:52-60 | the whole grid of October 2000 is the table the test expects, row by row and cell by cell |
| Calendar.SortPair | content/custom-calendar-component/Calendar.tsx:56-60 | the two days, in time order; equal times keep their order |
| Calendar.Reduce | content/custom-calendar-component/Calendar.tsx:47-76 | the month never changes; a click with one day selected completes a sorted range; any other click selects the clicked day alone; clicks clear the hover and mark dirty; hovering records the day only with one day selected |
| Calendar.DefaultState | content/custom-calendar-component/Calendar.tsx:6-27 | the first preselected date, else today, picks the month; a single date is selected twice; nothing is hovered or dirty |
| Calendar.DefaultStateValid | content/custom-calendar-component/Calendar.tsx:18-20 | with one or two preselected dates, or none, the initial state is valid: one or two selected days (or none), a hover only over a single selection, dirty only with a selection |
| Calendar.ReduceValid | content/custom-calendar-component/Calendar.tsx:51-75 | every action keeps the state valid |
| Calendar.HoverDays | content/custom-calendar-component/Calendar.tsx:129-136 | defined iff a day is hovered while one is selected; then that pair in time order |
| Calendar.OnSelectDays | content/custom-calendar-component/Calendar.tsx:99-127 | a dirty two-day selection is reported, as one day when both coincide |
| Calendar.TwoClicks | content/custom-calendar-component/Calendar.tsx:51-69 | two clicks report the range between them in order, or the single day |
| Calendar.ThirdClickRestarts | content/custom-calendar-component/Calendar.tsx:64-69 | a third click starts a new selection |
| CalendarView.Find | content/custom-calendar-component/CalendarView.tsx:34-36 | `find` returns the day iff it is selected |
| CalendarView.IsSelected | content/custom-calendar-component/CalendarView.tsx:33-36 | a cell is selected iff its day is among the selected days |
| CalendarView.IsFirst | content/custom-calendar-component/CalendarView.tsx:58-62 | first iff the list is non-empty and its first day is the cell |
| CalendarView.IsLastSelected | content/custom-calendar-component/CalendarView.tsx:64-68 | last iff exactly two days are selected and the second is the cell |
| CalendarView.IsLastHovered | content/custom-calendar-component/CalendarView.tsx:76-80 | reads `hoverDays[1]` after checking only non-emptiness: a one-day list would fail |
| CalendarView.BetweenClicked | content/custom-calendar-component/CalendarView.tsx:48-56 | a cell is in the range of two clicks, in either order, iff it lies between them |
| CalendarView.RangeEndsInside | content/custom-calendar-component/CalendarView.tsx:38-56 | a sorted range contains its ends and everything between two contained days |
| CalendarView.LastHoveredSafe | content/custom-calendar-component/CalendarView.tsx:76-80 | with the `hoverDays` the calendar supplies, `isLastHovered` never reads past the end |
| CalendarView.HoverEndsInside | content/custom-calendar-component/CalendarView.tsx:38-46 | the first and last hovered days are inside the hovered range |
| CalendarView.IsToday | content/custom-calendar-component/CalendarView.tsx:25-29 | a cell is today iff its day of the viewed month and year is today's date, with `new Date()` a parameter |
| CalendarView.TodayCell | content/custom-calendar-component/CalendarView.tsx:25-29 | on a `createCalendar` grid, `isToday` holds for exactly the button at today's row and weekday column when the view shows today's month, and for no button otherwise |
| CalendarView.ButtonsOnDays | content/custom-calendar-component/CalendarView.tsx:104 | a cell of the grid renders a button iff it holds a day |
| Slugify.Lower | scripts/create.ts:5 | `A`–`Z` become `a`–`z`; other characters are unchanged |
| Slugify.LowerAll | scripts/create.ts:5 | the string is lowercased character by character |
| Slugify.Strip | scripts/create.ts:6 | only word and whitespace characters remain |
| Slugify.Hyphenate | scripts/create.ts:7 | only hyphens and non-space characters of the input remain |
| Slugify.Slug | scripts/create.ts:3-8 | a slug holds only `a`–`z`, digits, `_` and `-` |
| Slugify.StripMembers | scripts/create.ts:6 | a character is in the stripped text iff it is in the input and is a word or white-space character: white space survives, everything else goes |
| Slugify.HyphenateReference | scripts/create.ts:7 | on a hyphen-free input, hyphenating equals the two-step reference (each white-space character to `-`, then each run of `-` collapsed to one), without its leading `-` when a run is already open |
| Slugify.SlugReference | scripts/create.ts:3-8 | the slug is the lowercased title, stripped, then white space to `-` with runs collapsed |
| Slugify.Words | scripts/create.ts:6 | the word characters of a string, in order |
| Slugify.SlugWords | scripts/create.ts:3-8 | the slug keeps exactly the lowercased title's word characters, in order |
| Slugify.StripWords | scripts/create.ts:6 | stripping keeps every word character |
| Slugify.HyphenateWords | scripts/create.ts:7 | hyphenating keeps every word character |
| Slugify.SlugSingleHyphens | scripts/create.ts:5-7 | a slug never has two adjacent hyphens |
| Slugify.StripNoHyphen | scripts/create.ts:6 | stripping removes every hyphen of the title |
| Slugify.HyphenateSingle | scripts/create.ts:7 | on a hyphen-free input, the hyphenated text never has two adjacent hyphens, and does not start with one while a run is already open |
| Slugify.NotIdempotent | scripts/create.ts:3-8 | `slugify("A b")` is `a-b`, but `slugify("a-b")` is `ab` |
| Slugify.CreateSlug | scripts/create.ts:24-26 | a missing or empty title is rejected with "Please provide title"; otherwise the slug |
| Slugify.CreatedUrl | scripts/create.ts:26-29 | the created `content/<slug>/index.md`, which `loadFS` lists as `/<slug>/index.md`, is the article at URL `/<slug>`; a key written relative, `<slug>/index.md`, gives `<slug>` |

## Left out

- Filesystem I/O is not modelled. The path-to-content dictionaries are inputs. This covers `loadFS` of lib/memfs.ts, `Deno.readFile`, `Deno.writeFile` in lib/blog.ts, and `Deno.mkdir`/`Deno.writeFile` in scripts/create.ts.
- scripts/create.ts: `articleTemplate`, the front matter written to disk, is left out. It embeds `new Date()` and a random UUID.
- lib/blog.ts passes each dictionary value to `Deno.readFile`, that is, it treats the values as file paths, while `loadFS` yields file contents. `BlogBuild.Build` takes a dictionary of paths and a `readFile` parameter. A read failure is reported like a parse failure (`BlogBuild.ReadFailure`).
- JavaScript `Date` is not modelled:
  - `toISOString` and `toString` are function parameters.
  - `new Date()` ("today", the feed's `updated`) is a parameter.
  - Date-string parsing in `createDefaultState` is not modelled; days are given already parsed.
  - Time zones are left out. `getTime()` differences between days are whole days in the model.
  - `Dates.DayNumber` follows `new Date(y, m, d)` in mapping years 0–99 to 1900–1999.
- The ISO formatting of the days passed to `onSelect` (Calendar.tsx:106-125) is left out. `Calendar.OnSelectDays` gives the days themselves.
- `Math.random` in the related-article pick (features/blog/routes.tsx:59) is left out. `BlogRoutes.Slug` returns the whole related list, from which the page shows one.
- `paginate` with `pageSize` 0 divides to a floating-point infinity; `Pagination.Paginate` requires a non-zero size.
- The route patterns (`[0-9]+`, `[-a-z0-9]+`) belong to the router. The handlers require a digit string for the page and accept any slug.
- JavaScript objects used as dictionaries:
  - Keys that look like integers are not reordered before other keys.
  - `tag in a` does not see inherited properties such as `constructor`.
  - Both follow plain insertion order and own keys.
- `new Set` deduplicates by object identity. The model compares article values, which coincide for the articles of one index.
- Foreign libraries are function parameters:
  - marked's tokenizer and base `Renderer`;
  - Prism's grammars and `highlight`;
  - `he.escape`, `front_matter.extract` and `TextDecoder`;
  - hono's `html` (an absent value is written as nothing);
  - the JSX `render` and `JSON.stringify`.
  - The server-side-include registry (content/ssi.ts, a dynamic import) is a map.
- `console.log` calls (lib/renderer.ts:70, Calendar.tsx:72) have no effect on results and are left out.
- `toLowerCase` is modelled on ASCII letters only. Non-ASCII case mappings (e.g. `İ`, the Kelvin sign) are not modelled. `\w` and `\s` follow their JavaScript definitions.
- HTTP servers and response construction are left out: headers, MIME lookup, the `serveStatic` image route, and Hono/Fresh registration. `LegacyServer.Serve` returns which page is answered.
- Presentation components, layout and CSS are left out, apart from the `CalendarView` predicates and the one-button-per-day rule.
- `monthName` (CalendarView.tsx:30-32), the month's name from `toLocaleString`, is locale-dependent header text and is left out as presentation.
- The front matter is trusted to be an `Article`. The `as Article` casts are content/mod.ts:22, lib/blog.ts:22 and index.tsx:36, and types.ts:4-5 declares `tags` and `date` required. The model's articles always have both. Front matter without `tags` would throw at `c.tags` (content/mod.ts:38, lib/blog.ts:48, index.tsx:74). A `date` that is not a `Date` would throw at `getTime` (content/mod.ts:34,43, index.tsx:70,79). lib/blog.ts:44,53 wrap the date in `new Date` first. Both throws happen outside the try/catch, and neither is modelled.
- AtomFeed.FeedCorrectedIff: requires that the `toString` text of every publication date is not the word `undefined` and holds no `<`. `Date.prototype.toString` never writes either, but the model takes it as a parameter.
- `isDraft` (types.ts:10) is never read, so drafts are indexed like any article. Articles with equal dates keep their listing order (`Articles.SortStable`), because the sort is stable and its comparator looks only at the date (content/mod.ts:33-35).

## Findings

| source | as written | input that shows it | evidently intended | confidence | as-written member | corrected member |
|---|---|---|---|---|---|---|
| index.tsx:93 | the tag `<loc>` is `${BASE_URL}tags/${tag}`, without the slash the other two sitemaps write | `BASE_URL` unset, tag `css`: `https://valeriavg.devtags/css` | `${BASE_URL}/tags/${tag}`, the tag page `serve` answers | high, not executed | LegacyServer.AsWrittenTagLocOffSite | LegacyServer.TagLocServed |
| features/feed/atom.ts:19 | `<updated>${article.updatedAt}</updated>` interpolates an absent field | an article whose front matter has no `updatedAt`: `<updated>undefined</updated>` | a date for every entry, as RFC 4287 section 4.1.2 requires (the update date, else the publication date) | high, not executed | AtomFeed.GenerateFeed | AtomFeed.CorrectedFeed |
