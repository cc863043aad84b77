# A verified model of the blog content pipeline and its UI helpers

This project models in Dafny the core of a personal website built with
Next.js. The site reads Markdown posts with YAML front matter from
`content/blog`. It turns them into post records with defaulted fields and
lists them newest first. It resolves which series a post belongs to, caches
the post list once per server process, and precomputes JSON artifacts at
build time. On the client, a handful of components hold small pieces of
logic. The article list filters by search term and tags. Category buttons
accumulate tags in the URL. The Markdown renderer extracts text, rewrites
image paths and picks a code language. The series box marks posts as
completed, current or upcoming. The post page picks the heading being read
and labels the post's age. The cookie banner remembers the visitor's
consent.

Layout:

- `wrappers.dfy`: the `Option` type (JavaScript's `null`/`undefined`).
- `text.dfy`: the JavaScript string operations the code uses. These are `startsWith`, `endsWith`, `includes`, first-occurrence `replace`, ASCII `toLowerCase`, `join`, `split` and decimal rendering. It also proves split/join round trips.
- `sequences.dfy`: `filter` and `map` on sequences. Proved: a filter keeps exactly the matching elements in order, and a map of a permutation is a permutation.
- `stable_sort.dfy`: `Array.prototype.sort` with a numeric key. It is a stable insertion sort, since ECMA-262 (section 23.1.3.30, 2023 edition) requires stability. It is proved sorted, a permutation, stable, and the only such arrangement.
- `lib_markdown.dfy` (module `Markdown`): `BlogPost` and `parseMarkdown`.
- `lib_posts.dfy` (module `Posts`): `generateAllPosts`, `generatePost` and `generateStaticSlugs` over a directory value.
- `lib_series.dfy` (module `Series`): `getSeriesInfo`.
- `lib_blog.dfy` (module `Blog`): the `cachedPosts` cache. It is a class whose `GetAllPosts` method is proved against a pure `Lookup`.
- `static_data.dfy` (module `StaticData`): `main` of the build script. It is a loop method writing into an output-directory map, proved against a pure `Generate`.
- `post_list.dfy`, `category_links.dfy`, `markdown_view.dfy`, `series_navigation.dfy`, `blog_post_view.dfy`, `google_analytics.dfy`: the component logic.

The build script `scripts/generate-static-data.js` carries its own copies of
`parseMarkdown`, `generateAllPosts`, `generatePost` and
`generateStaticSlugs`. They differ from the library functions in form only:
no `export`, no type annotations, `gray-matter` loaded by a `require` inside
`parseMarkdown`, the parameter named `content` with the destructured body
renamed to `markdownContent`, and no comments. They behave identically to the library
functions, so the model defines them once, in `Markdown` and `Posts`, and
`StaticData` uses those.

An unreadable post file, or one whose front matter cannot be parsed, makes
`generateAllPosts` return `[]` for the whole directory, because the whole
`Promise.all` sits inside one `try` (src/lib/posts.ts:7-25). The model
states this in `Posts.GenerateAllPosts` and `Posts.ParseAll`. The build
script's per-slug loop, by contrast, skips failing files one at a time.

Effects are modelled as values:

- the content directory is a `ContentDir`: a listing, or its failure, plus a map from file name to the parsed front matter, or a parse failure;
- the import of `posts.json` and `NODE_ENV` are fields of `Blog.Environment`;
- the output directory is a map from path to artifact;
- `localStorage` is a `Store` object holding a map;
- the DOM's heading offsets are a map from element id to `offsetTop`;
- the syntax highlighter is a function parameter;
- heading ids are a given sequence.

## Model

| member | source | states |
|---|---|---|
| Markdown.OrEmpty | src/lib/markdown.ts:19-21 | a missing or empty string field becomes `""`, a non-empty one is kept |
| Markdown.OrNone | src/lib/markdown.ts:22-27 | a missing array field becomes `[]`; a present array, even an empty one, is kept |
| Markdown.ParseMarkdown | src/lib/markdown.ts:15-29 | `slug` is the argument whatever the front matter says, `content` is the body untouched, every other field is its front-matter value or its default, `image` has no default |
| Markdown.FrontMatterRoundTrip | src/lib/markdown.ts:18-28 | a post written back as front matter parses to the same post: the defaults are a fixed point |
| StableSort.Sort | src/lib/posts.ts:22 | the sort result is ordered by the key, a permutation of its input, and keeps input order among equal keys |
| Posts.SlugOf | src/lib/posts.ts:15 | the slug followed by `.md` is the file name, so only one trailing `.md` is removed |
| Posts.MarkdownNames | src/lib/posts.ts:13 | exactly the listed names ending in `.md`, in listing order |
| Posts.MarkdownNamesCounts | src/lib/posts.ts:13 | each `.md` name is kept as often as it is listed, and every other name is dropped |
| Posts.GenerateStaticSlugs | src/lib/posts.ts:39-50 | `[]` when the listing fails; otherwise one slug per `.md` name, in order, and `s` is a slug iff `s + ".md"` is listed |
| Posts.LoadFile | src/lib/posts.ts:16-18 | a post exactly when the file is readable and parses, and then the parse of that file with the given slug |
| Posts.ParseAll | src/lib/posts.ts:11-20 | all files parse or the whole step fails; on success the i-th post is the i-th `.md` file parsed with its slug |
| Posts.GenerateAllPosts | src/lib/posts.ts:6-26 | `[]` on a listing, read or parse failure; otherwise the parsed posts, newest first, a permutation of them, equal dates in listing order |
| Posts.GeneratePost | src/lib/posts.ts:28-37 | reads exactly `slug + ".md"`; `None` iff it cannot be read or parsed; the post carries the requested slug |
| Posts.LoadOneAgreesWithLoadAll | src/lib/posts.ts:11-36 | every post of the full list is what the single-post lookup of its slug returns |
| Posts.AllPostsSlugsAreStaticSlugs | src/lib/posts.ts:11-46 | when every `.md` file loads, the slugs of the full list are, with multiplicity, the static slugs |
| Posts.DoubleSuffixExample | src/lib/posts.ts:45-46 | `a.md.md` lists as slug `a.md`; a name without `.md` is not listed |
| Series.FindIndex | src/lib/series.ts:24 | the first index whose post has the slug, or -1 when none has |
| Series.InSeries | src/lib/series.ts:20-21 | exactly the posts whose series list contains the name, with multiplicity and in input order |
| Series.GetSeriesInfo | src/lib/series.ts:10-32 | `None` iff no post has the slug, its series list is empty, or its first series has no non-empty description. Otherwise: the first series, its description, its posts oldest first with undated posts first (a stable permutation), and an in-range `currentIndex` at the first post with the slug |
| Series.SeriesMembership | src/lib/series.ts:20-22 | a post is in the resolved series iff it is an input post carrying the series name |
| Series.TwoPartSeriesExample | src/lib/series.ts:20-24 | two posts of one series listed newest first resolve oldest first, with each one's own index |
| Blog.Lookup | src/lib/blog.ts:6-26 | a cached list, even `[]`, is returned as is; else the precomputed data is cached and returned; else `[]` uncached in production; else the directory's list is cached and returned |
| Blog.CachedValueIsFinal | src/lib/blog.ts:7-9 | once the cache is set every later call returns it, whatever the environment |
| Blog.FirstLoadIsFinal | src/lib/blog.ts:13-24 | from an empty cache, when the first call is not a production miss, it decides every later result |
| Blog.FirstLoadAfterMisses | src/lib/blog.ts:13-24 | from an empty cache, leading production misses each answer `[]`, and the first call that is not a miss decides every later result |
| Blog.ProductionMissRetries | src/lib/blog.ts:19-21 | a production miss answers `[]` and leaves the cache empty, so the next call loads afresh |
| Blog.PostCache.constructor | src/lib/blog.ts:4 | the cache starts empty |
| Blog.PostCache.GetAllPosts | src/lib/blog.ts:6-26 | returns and caches exactly what `Lookup` says for the old cache; a set cache never changes |
| Blog.TwoCalls | src/lib/blog.ts:4-26 | two calls on one cache agree unless the first is a production miss, which returns `[]` |
| StaticData.SlugOfPath | scripts/generate-static-data.js:91 | the per-post path of the recovered slug is the path |
| StaticData.PostPathInverse | scripts/generate-static-data.js:91 | distinct slugs are written to distinct files: the slug is recoverable from its path |
| StaticData.WriteSlugsAt | scripts/generate-static-data.js:87-95 | after the loop a per-post path holds its slug's post iff the slug is listed and loads; every other path keeps its old entry |
| StaticData.WriteOutputs | scripts/generate-static-data.js:77-108 | the writing loop produces exactly `WriteAll`: the post list, each loadable slug's file in order, then the verbatim series file |
| StaticData.GenerateStaticData | scripts/generate-static-data.js:68-111 | a run writes exactly the output that `Generate` describes |
| StaticData.GeneratedPostList | scripts/generate-static-data.js:76-80 | `posts.json` holds exactly the full post list, `[]` included |
| StaticData.GeneratedPostFiles | scripts/generate-static-data.js:87-95 | `posts/<slug>.json` is written with the slug's post iff the slug is listed and loads; a failing slug is skipped and an old file stays |
| StaticData.GeneratedSeriesFile | scripts/generate-static-data.js:98-108 | `series.json` is the verbatim source when readable, else left as it was |
| StaticData.OtherPathsUntouched | scripts/generate-static-data.js:72-108 | no other path is written or deleted |
| StaticData.WriteAllIdempotent | scripts/generate-static-data.js:77-108 | writing the same lists a second time changes nothing |
| StaticData.GenerateIdempotent | scripts/generate-static-data.js:68-111 | a second run over the same sources changes nothing |
| PostList.FilteredPosts | src/components/Posts.tsx:21-39 | the shown posts are the posts matching the active filters: an order-preserving subsequence with every copy of a match and none of the rest; all posts when no filter is active |
| PostList.Without | src/components/Posts.tsx:51-53 | the tag is gone, every other tag keeps its count, and the order is kept |
| PostList.Toggle | src/components/Posts.tsx:41-49 | the tag is selected afterwards iff it was not before; other tags keep their counts; a new tag goes at the end, and a deselection keeps the remaining tags in order |
| PostList.ToggleTwice | src/components/Posts.tsx:41-49 | clicking an unselected tag twice restores the selection |
| PostList.ToggleKeepsDistinct | src/components/Posts.tsx:41-53 | toggling and removing never select a tag twice |
| PostList.SectionTitle | src/components/Posts.tsx:59-68 | `"All Articles"` iff no tag is selected; one tag gives `"Posts tagged as " + tag`; two or more give the leading tags joined by `", "`, then `" or "` and the last tag |
| PostList.WithoutSelectedTag | src/components/Posts.tsx:41-49 | in a selection without repeats, deselecting a selected tag shortens it by exactly one |
| PostList.SectionTitleNamesEveryTag | src/components/Posts.tsx:59-68 | every selected tag occurs in the title |
| PostList.Excerpt | src/components/Posts.tsx:230-232 | a description of at most 120 characters is unchanged; a longer one shows its first 120 characters and `"..."` |
| PostList.Filters.constructor | src/components/Posts.tsx:18-19 | empty search term and no selected tags |
| PostList.Filters.SetSearchTerm | src/components/Posts.tsx:94 | the term changes, the tags do not |
| PostList.Filters.HandleTagClick | src/components/Posts.tsx:41-49 | the selection becomes its toggle; no tag is ever selected twice; clicking a selected tag removes exactly one entry |
| PostList.Filters.RemoveTag | src/components/Posts.tsx:51-53 | the selection loses every copy of the tag |
| PostList.Filters.ClearFilters | src/components/Posts.tsx:55-57 | the selection is emptied and the search term is left as it is |
| CategoryLinks.CurrentTags | src/components/CategoryLinks.tsx:23 | a missing parameter gives `[]`; otherwise the tags are the comma-separated pieces in order, every non-empty piece kept with its count and every empty piece dropped |
| CategoryLinks.CurrentTagsOfJoin | src/components/CategoryLinks.tsx:23-27 | a value written from well-formed tags, none included, reads back as those tags |
| CategoryLinks.HandleCategoryClick | src/components/CategoryLinks.tsx:21-28 | only `tags` can change. A present lowercased category leaves the query exactly as it was; an absent one is appended to the parsed tags, joined with `,` |
| CategoryLinks.ClickSelectsCategory | src/components/CategoryLinks.tsx:23-28 | after a click the lowercased category is among the tags, after the ones already there |
| CategoryLinks.ClickTwiceIsClickOnce | src/components/CategoryLinks.tsx:25-28 | a second click on the same category changes nothing |
| CategoryLinks.CategoriesAreTags | src/components/CategoryLinks.tsx:5-15 | every button's category is non-empty and comma-free, so the two lemmas above apply to it |
| MarkdownView.ExtractText | src/components/Markdown.tsx:15-29 | a string is its own text; a number, boolean or null, an element without children or with falsy children, and an empty array have no text |
| MarkdownView.ExtractListAppend | src/components/Markdown.tsx:20-22 | the text of an array is the concatenation of its parts' texts |
| MarkdownView.ExtractElement | src/components/Markdown.tsx:24-28 | an element's text is its children's text, and an empty array has none |
| MarkdownView.ExtractMixed | src/components/Markdown.tsx:15-29 | an array of a string, an element holding a string, a non-string value and a childless element has the two strings' text, in order |
| MarkdownView.LocalImageSrc | src/components/Markdown.tsx:182-185 | `./images/x` becomes `/images/x`; any other src is unchanged |
| MarkdownView.LocalImageSrcIdempotent | src/components/Markdown.tsx:182-185 | the rewrite applied twice is the rewrite applied once |
| MarkdownView.LocalImageKeepsKind | src/components/Markdown.tsx:182-192 | the rewrite never changes whether a src is a video |
| MarkdownView.RenderImage | src/components/Markdown.tsx:178-218 | nothing without a non-empty src; otherwise the rewritten src, a video iff it ends in `.mp4`, `.webm` or `.mov`, alt defaulting to `""` |
| MarkdownView.Language | src/components/Markdown.tsx:44 | the first occurrence of `language-` is cut out wherever it stands; a class name without `language-` is the language itself |
| MarkdownView.LanguageOfFence | src/components/Markdown.tsx:44 | `language-` followed by a language gives that language back |
| MarkdownView.LanguageInMiddle | src/components/Markdown.tsx:44 | `xlanguage-js` gives `xjs`: an occurrence after the start is cut out too |
| MarkdownView.LanguageTwice | src/components/Markdown.tsx:44 | of two occurrences of `language-` only the first goes |
| MarkdownView.FallbackHtml | src/components/Markdown.tsx:68 | the code text, unescaped, between `<pre><code>` and `</code></pre>` |
| MarkdownView.RenderCode | src/components/Markdown.tsx:32-86 | for a freshly mounted element once its effect has settled: inline iff there is no class name. A falsy child gives the plain block; a rejected highlight gives the fallback HTML; a resolved highlight gives its HTML, or the plain block when that HTML is empty |
| SeriesNavigation.StatusOf | src/components/SeriesNavigation.tsx:28-40 | completed iff before the current index, current iff at it, upcoming iff after it |
| SeriesNavigation.Entries | src/components/SeriesNavigation.tsx:27-67 | one entry per post. Only the current one is unlinked and carries the badge; the others link to `/blog/<slug>` |
| SeriesNavigation.ExactlyOneCurrent | src/components/SeriesNavigation.tsx:28-64 | exactly one entry is current when the index is in range, none otherwise |
| SeriesNavigation.NextInSeries | src/components/SeriesNavigation.tsx:70-78 | shown iff the current post is not the last; it links to the post after it |
| SeriesNavigation.NavigationOfSeriesInfo | src/components/SeriesNavigation.tsx:70-73 | for a resolved series, the box marks exactly the post being read, and the next link is shown iff a later post exists |
| BlogPostView.LevelOf | src/components/blog-post.tsx:221 | the digit after the tag letter, or none when there is no digit |
| BlogPostView.HeadingLevels | src/components/blog-post.tsx:215-221 | `H2` is level 2 and `H3` level 3 |
| BlogPostView.BuildTocItems | src/components/blog-post.tsx:214-228 | one entry per heading, in order, with its id, its text (`""` when missing) and its level |
| BlogPostView.LineLength | src/components/blog-post.tsx:156-157 | `w-8` iff level 2, `w-6` iff level 3, `w-4` otherwise |
| BlogPostView.LocatedHeadings | src/components/blog-post.tsx:33-38 | entries whose element exists are kept with that element's offset; missing ones are dropped |
| BlogPostView.LocatedHeadingsOrder | src/components/blog-post.tsx:33-38 | the located headings' ids are, in order and with repeats, the ids of the entries whose element exists |
| BlogPostView.ActiveIndex | src/components/blog-post.tsx:43-53 | the last heading at or above the threshold, or the first heading when none is |
| BlogPostView.LastAtOrAbove | src/components/blog-post.tsx:43-52 | the backward scan returns the last heading at or above the line, or the first heading when none is |
| BlogPostView.UpdateActiveHeading | src/components/blog-post.tsx:32-56 | the backward scan picks that heading's id, at 100 pixels below the scroll position; the id is unchanged when no heading exists |
| BlogPostView.ActiveHeadingIsListed | src/components/blog-post.tsx:33-55 | the chosen id is the id of a table-of-contents entry |
| BlogPostView.TocRows | src/components/blog-post.tsx:79-203 | nothing iff there are no entries. Otherwise one `#id` link per entry, highlighted iff its id is active, with its line width while hovered |
| BlogPostView.AtMostOneActiveRow | src/components/blog-post.tsx:154-155 | with distinct ids at most one entry is highlighted |
| BlogPostView.AgeOf | src/components/blog-post.tsx:275-287 | days below 30; below 365, months from 1 to 12 with `30m <= d < 30(m+1)`; otherwise years at least 1 with `365y <= d < 365(y+1)` |
| BlogPostView.AgeLabel | src/components/blog-post.tsx:269-288 | the label starts with `Written ` and ends with ` ago` |
| BlogPostView.AgeLabelPlural | src/components/blog-post.tsx:276-286 | the unit is plural iff the count is not 1 |
| BlogPostView.AgeLabelNumber | src/components/blog-post.tsx:276-286 | the number in the label reads back as the count |
| BlogPostView.AgeLabelUnit | src/components/blog-post.tsx:276-286 | after the number come a space, `day`, `month` or `year` by the bucket (below 30 days, below 365, after), an `s` unless the count is 1, and ` ago` |
| GoogleAnalytics.ReadConsent | src/components/GoogleAnalytics.tsx:17-23 | stored `"true"` is consent, `"false"` refusal; anything else, or nothing, is undecided |
| GoogleAnalytics.ConsentReadsBack | src/components/GoogleAnalytics.tsx:40-48 | a stored choice reads back as that choice |
| GoogleAnalytics.ConsentBanner.constructor | src/components/GoogleAnalytics.tsx:11-12 | undecided and not mounted |
| GoogleAnalytics.ConsentBanner.Mount | src/components/GoogleAnalytics.tsx:14-24 | mounted; a stored decision is adopted, otherwise the consent stays as it was |
| GoogleAnalytics.ConsentBanner.AcceptCookies | src/components/GoogleAnalytics.tsx:40-43 | stores `"true"`, consents, the scripts render and the banner hides |
| GoogleAnalytics.ConsentBanner.DeclineCookies | src/components/GoogleAnalytics.tsx:45-48 | stores `"false"`, refuses, no scripts and no banner |
| GoogleAnalytics.DecideThenRevisit | src/components/GoogleAnalytics.tsx:14-72 | a later visit with the same storage mounts with the earlier choice, shows no banner, and loads the scripts iff the choice was to accept |

## Left out

- Posts.GenerateAllPosts: an undated post (front-matter `date` missing or falsy) sorts with key 0, the epoch. In the code its comparator gives `NaN`, which makes the order implementation-defined.
- Series.GetSeriesInfo: an undated series member sorts with key 0, the epoch, so it comes first. The comparator in src/lib/series.ts:22 gives `NaN` for it, as in src/lib/posts.ts:22, which makes the order implementation-defined.
- Posts.GenerateAllPosts: dates are integer times. Parsing date strings with `new Date(...)` and `formatDate`'s `toLocaleDateString` are not modelled.
- Front-matter splitting by the `gray-matter` YAML library is not modelled. Its result is given, with each field already of the type the code expects. Non-string titles and non-array categories that YAML can produce are not represented.
- Series.GetSeriesInfo: series names that are keys of `Object.prototype` (such as `constructor`) are not modelled; the definitions are a plain map.
- Filesystem and process effects are not modelled: `readdirSync`, `readFileSync`, `mkdirSync`, `writeFileSync`, `path.join` normalisation, `process.cwd()`, logging and the JSON text layout. Directories and files are values.
- `async`/`await` and `Promise.all` are modelled as sequential evaluation.
- Text.Lower: lowercases ASCII letters only. Unicode case mapping is not modelled, and lengths are sequence lengths, not UTF-16 code units.
- URL handling is not modelled: `URLSearchParams` serialisation and percent-encoding, `router.replace`, `window.location` and the delayed scroll. Only the decoded `tags` value is modelled.
- MarkdownView.RenderCode: models a freshly mounted element after the highlighting effect has settled. The highlighter (shiki) is a parameter. Not modelled: the first render before the effect, and `highlightedCode` state carried across re-renders with new props. So a re-render with falsy children after an earlier highlight still shows the old HTML in the code, and a late-resolving highlight for old props can overwrite a newer one.
- Rendering is not modelled: React/JSX, react-markdown, framer-motion animation, the floating-point reading progress and ejection offset, clipboard copying in the code block, the `href || "#"` link default, `trimStart` of TOC texts, and the article count line.
- BlogPostView.BuildTocItems: heading ids come from GithubSlugger and are given as a parameter, one per heading.
- BlogPostView.AgeOf: the day difference is given as a natural number. The floating-point `Math.abs`/`Math.ceil` over clock times is not modelled.
- SeriesNavigation.NextInSeries: requires `currentIndex >= -1`. Below that the code reads outside the array, which `getSeriesInfo` never produces.
- The `gtag` initialisation effect and the analytics `Script` tags are not modelled beyond whether they render.
- NewsletterSignup.tsx is not part of this model: its behaviour is a network request to an external form service.
- Hero.tsx, BlogCard.tsx, ProjectCard.tsx, Navigation.tsx, the app pages and layout, and next.config.ts hold no logic beyond markup and configuration.
