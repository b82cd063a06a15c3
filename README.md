# News Hub core, modelled in Dafny

News Hub is a news site. It serves articles from five category collections: technology, topics, science, business and culture. It can also have a language model write a new article and store it into its collection. This project models the core of the site and proves properties of that model:

- **Article repository** (`articles.dfy`, module `Articles`). It covers:
  - flattening the category map into one list and stamping each article with its collection's category;
  - the stable newest-first sort;
  - filtering by category, lookup by slug, and 1-based slice pagination with a `hasMore` flag;
  - the category list and the category lookup.
- **Generation pipeline** (`gemini.dfy`, module `Gemini`). It covers:
  - the sequential fallback over the four model names;
  - for one model call, what happens after the request: the error for a failed request, the check for an empty reply, and extraction of the fenced JSON;
  - validating the parsed object, filling in defaults, and the reading time;
  - the stock-image URL, and the category context used in the prompt.
- **Generation endpoint** (`generate.dfy`, module `GenerateEndpoint`). It covers the guard order of `POST`, the image repair, the mapping of errors to responses, and `saveArticleToJson`. That function upserts by slug into the category's document. It is modelled as classes whose fields are updated in place.
- **RSS feed** (`rss.dfy`, module `Rss`). It covers the five-step XML escape and the entity decoding that inverts it. It also covers the per-article `<item>` assembly in repository order.
- **Listing endpoint** (`listing.dfy`, module `ListingEndpoint`). It covers:
  - query defaults and `parseInt`;
  - the choice between an HTMX fragment and JSON;
  - the fragment decisions: the no-more message, the featured card, the end marker and the colour class.

Shared helpers:

- `wrappers.dfy` (`Option`, `Result`);
- `seqs.dfy` (`findIndex`/`find`, clamped `slice`);
- `text.dfy` (`toLowerCase` on ASCII, `startsWith`, `indexOf`, `split`/`join` on one character, `trim` with the ECMAScript white-space set).

Some outside effects become parameters:

- Each model call's outcome is a function `replyFor` from the model name to the reply.
- `JSON.parse` of the reply is a function `parse`.
- The clock is an integer `now`.
- `Math.random` is an index `pick < 5`.
- `Date#toUTCString` is a function `utcDate`.
- A failed file read or write is a boolean flag.

The category map is a sequence of (key, document) entries in property order. Its documents live in memory.

In four places the code does something other than what a reader of the site might expect. The model follows the code:

- **A parse or validation failure is not terminal**, though one might expect it to end the generation. `callGeminiAPI` throws, and the loop in `generateArticleContent` catches every error and tries the next model. So a model whose reply cannot be parsed is skipped like an unavailable one (`Gemini.GenerateArticleContent`, `Gemini.CallGemini`).
- **The per-category listing keeps the stored order.** Only the `"all"` branch sorts. `getPaginatedArticles(2, 3, "science")` therefore gives the 4th to 6th stored articles. These are the 4th to 6th most recent only if the stored file is already in that order (`Articles.GetArticlesByCategory`).
- **A duplicate slug is not reported.** `getArticleBySlug` returns the first match in sorted order. The model proves uniqueness of the answer only under the assumption that slugs are unique (`Articles.SlugLookupUnique`).
- **Image URLs are checked in two places.** Generation keeps any non-empty `imageUrl` of the parse. Only the endpoint replaces one that does not start with "http", and it does so with an image of the *requested* category. The file it writes to, though, is chosen by the *generated* article's category (`GenerateEndpoint.Post`).

## Model

| member | source | states |
|---|---|---|
| Seqs.FindIndex | src/lib/articles.ts:80 | the index of the first element satisfying the predicate, every earlier one failing it; `None` exactly when no element satisfies it |
| Articles.GetAllArticles | src/lib/articles.ts:40-56 | the nested push loops followed by the sort yield exactly `AllArticles`: the collections stamped, concatenated in map order, then stably sorted newest first |
| Articles.Flatten | src/lib/articles.ts:43-50 | the nested push loops' list: every collection's articles in map order, each stamped with its document's category; `FlattenLength`, `InFlatten` and `GetAllArticles` state this |
| Articles.AllArticles | src/lib/articles.ts:40-56 | the flattened list, sorted newest first and stably; `AllArticlesSpec` and `AllArticlesStamped` state what it holds |
| Articles.FlattenLength | src/lib/articles.ts:41-50 | the flattened list is as long as all collections together |
| Articles.InFlatten | src/lib/articles.ts:43-49 | an article is in the flattened list iff some collection holds an article that, stamped with that collection's category, equals it |
| Articles.SortNewestFirst | src/lib/articles.ts:53-55 | the sort is a permutation of its input |
| Articles.SortIsNewestFirst | src/lib/articles.ts:53-55 | the sorted list has non-increasing publication times |
| Articles.SortIsStable | src/lib/articles.ts:53-55 | for each timestamp, the articles carrying it keep their input order |
| Articles.AllArticlesSpec | src/lib/articles.ts:40-56 | `getAllArticles` is a permutation of the stamped collections, with their total length, newest first, and equal timestamps keep map order then stored order |
| Articles.AllArticlesStamped | src/lib/articles.ts:45-48 | every article of `getAllArticles` is a stored article with only `category` replaced by its collection's category, and every such article is there |
| Articles.Lookup | src/lib/articles.ts:67 | the document of the first entry with that exact key; `None` iff no entry has the key, and any entry with the key holds that document when keys are distinct |
| Articles.GetCategoryInfo | src/lib/articles.ts:111-113 | the document stored under the lowercased key, absent exactly when no entry has that key |
| Articles.GetArticlesByCategory | src/lib/articles.ts:62-76 | `"all"` gives `getAllArticles`; otherwise the lowercased key's collection, stamped, in stored order; an unknown key gives `[]` |
| Articles.UpperCaseAllIsEmpty | src/lib/articles.ts:63-69 | the `"all"` test is exact, so `"ALL"` lowercases to a key that is not in the map and gives `[]` |
| Articles.GetArticleBySlug | src/lib/articles.ts:79-81 | the first article of the sorted list with exactly that slug; absent iff no article has it |
| Articles.SlugFoundIffStored | src/lib/articles.ts:79-81 | a slug is found iff some collection stores an article with that slug |
| Articles.SlugLookupUnique | src/lib/articles.ts:79-81 | with globally unique slugs, looking up a stored article's slug gives back that article, stamped |
| Articles.Paginate | src/lib/articles.ts:90-95 | at most `limit` articles, which are the list from the start index on; `hasMore` iff `page*limit` is below the length; a page starting at or past the end is empty with `hasMore` false |
| Articles.GetPaginatedArticles | src/lib/articles.ts:84-96 | pagination of the category's list: at most `limit` articles, `hasMore` iff `page*limit` is below that list's length |
| Articles.PagesUpToPrefix | src/lib/articles.ts:90-92 | pages 1..k concatenated are the first `min(k*limit, n)` articles |
| Articles.PagesReconstruct | src/lib/articles.ts:84-96 | pages 1..⌈n/limit⌉ concatenated are exactly the list; every earlier page has `hasMore`, the last does not |
| Articles.PastTheEnd | src/lib/articles.ts:90-93 | a page past ⌈n/limit⌉ is empty with `hasMore` false |
| Articles.GetAllCategories | src/lib/articles.ts:99-108 | one entry more than the map has: the fixed "all" entry first, then each document's slug, label and description in map order |
| Articles.CategorySlugs | src/lib/articles.ts:99-108 | on the site's map there are six entries, the five keys follow in declaration order, and only the first is "all" |
| Text.ToLowerFixes | src/lib/articles.ts:67 | lowercasing a string without upper-case letters leaves it unchanged |
| Text.SplitCount | src/lib/gemini.ts:119 | splitting on one character gives one piece more than there are occurrences of it |
| Text.SplitJoin | src/lib/gemini.ts:119 | no piece holds the separator, and joining the pieces with it gives back the string |
| Text.TrimShape | src/lib/gemini.ts:104 | trimming removes white space only, from both ends, and leaves none at either end |
| Text.TrimStable | src/lib/gemini.ts:104 | a string without white space at its ends is unchanged by trimming, and trimming is idempotent |
| Gemini.UnfencedIsWhole | src/lib/gemini.ts:100-104 | text without "```json" is parsed whole after trimming |
| Gemini.FencedBody | src/lib/gemini.ts:100-101 | the first capture of the fence pattern, from the first opening fence to the first closing fence after it; `FencedBodyMatch` and `FencedBodyHasNoFence` state what it is |
| Gemini.JsonCandidate | src/lib/gemini.ts:100-104 | the fenced body when the pattern matches, else the whole text, trimmed; `FencedBodyMatch` and `UnfencedIsWhole` state both cases |
| Gemini.FencedBodyMatch | src/lib/gemini.ts:100-104 | the pattern matches iff there is a first opening fence and a closing fence at or after its body start; the body is then the slice up to the first such closing fence, less one newline at each end; without a match the whole trimmed text is parsed |
| Gemini.FencedBodyAnyOpen | src/lib/gemini.ts:100 | the pattern matches iff some "```json", not only the first, is followed by a closing fence at or after its body start |
| Gemini.FencedBodyHasNoFence | src/lib/gemini.ts:100-101 | the lazy body never contains "```" |
| Gemini.FencedRoundTrip | src/lib/gemini.ts:100-101 | a reply of the form prose, "```json", newline, JSON, newline, "```", anything yields exactly the JSON |
| Gemini.ReadingTime | src/lib/gemini.ts:119 | at least one minute, and the least number of minutes at 200 per minute covering every space-separated piece |
| Gemini.ReadingTimeCountsSpaces | src/lib/gemini.ts:119 | the reading time is ⌈(spaces + 1) / 200⌉ |
| Gemini.ImagePool | src/lib/gemini.ts:174-212 | five photos: the category's list, or the topics list for any other key |
| Gemini.CategoryImageUrl | src/lib/gemini.ts:212-214 | the Unsplash URL of the picked photo with the fixed size query, which starts with "http" |
| Gemini.BuildArticle | src/lib/gemini.ts:111-121 | slug, title, content and category copied; the excerpt falls back to the title and the tags to none; the fixed byline and the clock; the reading time; a stock image when none is given |
| Gemini.HasRequiredFields | src/lib/gemini.ts:107-109 | slug, title and content are all present and non-empty; `CallGemini` succeeds on a parsed reply exactly when this holds |
| Gemini.CallGemini | src/lib/gemini.ts:86-126 | success iff the reply is OK, non-empty, parses and has slug, title and content; a rejected request gives its own error message, a failed response the model-named error, an empty reply "No content generated", any parse or validation failure "Failed to parse generated content" |
| Gemini.FallbackFirstSuccess | src/lib/gemini.ts:37-51 | for any attempt outcome per model, the outcome is the first model's success, or the last model's error when all fail |
| Gemini.TryInOrder | src/lib/gemini.ts:36-50 | the loop tries models in list order and stops at the first success; every earlier attempt failed, a failure means every model was tried, and the result equals the fold `Fallback` |
| Gemini.GenerateArticleContent | src/lib/gemini.ts:30-52 | models are tried in list order, none after the first success; the result is the last attempt's, every earlier attempt failed, a failure means all four were tried, and the result equals the fold `Fallback` |
| Gemini.CategoryContext | src/lib/gemini.ts:131-139 | a known key's description, otherwise the category string itself |
| GenerateEndpoint.TargetFile | src/pages/api/generate.ts:88 | the file is named by the generated article's category, "undefined" when it has none; `SaveArticleToJson` changes only that file |
| GenerateEndpoint.SlugIndex | src/pages/api/generate.ts:95-97 | the first index whose article has the same slug; `SlugIndexIsFirst` and `UpsertExisting` state it |
| GenerateEndpoint.Upserted | src/pages/api/generate.ts:95-105 | replace the first article with that slug, or prepend; `UpsertExisting`, `UpsertFresh`, `UpsertIdempotent` and `UpsertKeepsSlugsUnique` state what it does |
| GenerateEndpoint.UpsertExisting | src/pages/api/generate.ts:95-101 | with the slug present, the first match is replaced; length and all other positions are unchanged |
| GenerateEndpoint.UpsertFresh | src/pages/api/generate.ts:102-105 | with a fresh slug, the article is put first before the unchanged old list |
| GenerateEndpoint.UpsertIdempotent | src/pages/api/generate.ts:95-105 | upserting the same article twice equals upserting it once |
| GenerateEndpoint.UpsertKeepsSlugsUnique | src/pages/api/generate.ts:95-105 | unique slugs stay unique, and afterwards the article is the only entry with its slug |
| GenerateEndpoint.CategoryFile.Upsert | src/pages/api/generate.ts:95-105 | the document's articles become the upsert of the old ones; its metadata is unchanged |
| GenerateEndpoint.DataDirectory.SaveArticleToJson | src/pages/api/generate.ts:85-115 | true iff the file named by the generated article's category exists and both its read and write succeed; then only that file changes, by the upsert; otherwise nothing changes |
| GenerateEndpoint.RepairImageUrl | src/pages/api/generate.ts:51-53 | the image URL is replaced by a stock image of the requested category iff it does not start with "http" (an empty one included); nothing else changes |
| GenerateEndpoint.Post | src/pages/api/generate.ts:9-82 | a missing key is a 500 before the body is read; an unreadable body a 500 with its message; a missing category a 400; a generation failure a 500 with its error; otherwise a 200 with the repaired article and the save outcome; files change only by that save |
| Rss.ReplaceAll | src/pages/rss.xml.ts:16-20 | a global replace of a character that does not occur leaves the text unchanged |
| Rss.EscapeXml | src/pages/rss.xml.ts:14-21 | text with none of the five special characters comes back unchanged |
| Rss.EscapeXmlIsPerChar | src/pages/rss.xml.ts:15-20 | because `&` is replaced first, the chain escapes each character on its own, with no entity escaped twice |
| Rss.UnescapeEscape | src/pages/rss.xml.ts:15-20 | decoding the five entities in the output gives back the input exactly |
| Rss.EscapeXmlSafe | src/pages/rss.xml.ts:14-21 | the output has no `<`, `>`, `"` or `'`, and every `&` in it begins one of the five entities |
| Rss.SiteUrl | src/pages/rss.xml.ts:5 | the configured site URL when set and non-empty, otherwise the default |
| Rss.ItemOf | src/pages/rss.xml.ts:43-51 | title, description, author and category are escaped and decode back to the article's fields; one tag category per tag in order; link and guid are the article URL; the content is verbatim |
| Rss.RenderItem | src/pages/rss.xml.ts:41-52 | the item template with the escaped fields and the raw content; `RenderItemShape` states how it opens and closes |
| Rss.RenderItemShape | src/pages/rss.xml.ts:41-52 | the item starts with its escaped title element and ends with the raw content inside CDATA |
| Rss.RenderFeed | src/pages/rss.xml.ts:41-52 | the items concatenated with the empty separator; `RenderFeedInOrder` states where each one sits |
| Rss.RenderFeedInOrder | src/pages/rss.xml.ts:41-52 | each rendered item appears right after the items before it |
| Rss.FeedItems | src/pages/rss.xml.ts:24-52 | one item per article of `getAllArticles`, in that order |
| Rss.FeedBody | src/pages/rss.xml.ts:24-52 | the rendered items of the repository's articles; `FeedFollowsRepository` states the order |
| Rss.FeedFollowsRepository | src/pages/rss.xml.ts:24-52 | the feed body holds the i-th article's item right after the items of the articles before it |
| ListingEndpoint.ParamOr | src/pages/api/articles.ts:72-74 | an absent or empty parameter takes the default |
| ListingEndpoint.ParseInt | src/pages/api/articles.ts:72-74 | ECMAScript `parseInt` without a radix; `ParseDecimal`, `ParseNegative` and `ParseSkipsSpace` state what it reads |
| ListingEndpoint.ParseDecimal | src/pages/api/articles.ts:72-74 | `parseInt` reads every decimal numeral back as its number |
| ListingEndpoint.ParseNegative | src/pages/api/articles.ts:72-74 | a minus sign before a decimal numeral gives the negated number |
| ListingEndpoint.ParseSkipsSpace | src/pages/api/articles.ts:72-74 | a leading white-space character does not change the parse |
| ListingEndpoint.QueryDefaults | src/pages/api/articles.ts:72-74 | with no parameters the listing asks for page 1 of "all" with 6 per page |
| ListingEndpoint.CategoryColor | src/pages/api/articles.ts:17-26 | the default class iff the lowercased category is not technology, science, business or culture |
| ListingEndpoint.CategoryColorIgnoresCase | src/pages/api/articles.ts:25 | the class does not depend on the letter case of the category |
| ListingEndpoint.TopicsHaveDefaultColor | src/pages/api/articles.ts:18-25 | the category "topics" has no entry of its own and gets the default class |
| ListingEndpoint.Cards | src/pages/api/articles.ts:96-98 | one card per article in order, with its colour class, featured iff it is the first card of page 1 |
| ListingEndpoint.IsHtmx | src/pages/api/articles.ts:80 | the `HX-Request` header is exactly "true"; `Get` answers with HTML iff it holds |
| ListingEndpoint.Get | src/pages/api/articles.ts:69-126 | HTML iff `HX-Request` is exactly "true"; an empty page gives only the no-more message; otherwise the cards follow, with the end marker last iff there is no more; JSON echoes the articles, page, `hasMore` and category |
| ListingEndpoint.FeaturedOnlyFirst | src/pages/api/articles.ts:96-98 | a card in the fragment is featured iff it is the first card and the page is 1 |

## Left out

- The request to the language model: `fetch`, the request body and navigation of the response JSON. Each call's outcome is the `replyFor` parameter (rejected, not OK, or OK with optional text).
- `JSON.parse`: it is a parameter `parse`. Fields of a type other than strings, and the errors they raise later, are not modelled. A non-string `content` makes `split` throw inside `callGeminiAPI`; its catch turns that into the parse error, and the loop moves on to the next model. A truthy non-string `imageUrl`, such as a number, passes generation, and `startsWith` then throws in `POST`, so the endpoint answers 500 with that error's message; the model has no such value.
- `JSON.stringify` of responses and files: response bodies are datatypes, and the directory holds parsed documents.
- File I/O in `saveArticleToJson` (`path.join`, `readFileSync`, `writeFileSync`) and the static JSON imports. The directory is an in-memory map, and a read or write failure is a flag. Path traversal through an odd category name is not modelled.
- GenerateEndpoint.DataDirectory.SaveArticleToJson: a failed write is modelled as leaving the file untouched. `writeFileSync` truncates the file before it writes, so a write that fails midway can leave it empty or partial; the directory holds parsed documents and has no value for a damaged file.
- `Math.random`: the picked index is a parameter. `Date`, `toISOString`, `toUTCString` and `toLocaleDateString`: times are integers, and the RSS date text is a parameter. Invalid dates (NaN in the sort comparator) are not modelled.
- Articles.GetPaginatedArticles: requires `page >= 1` and `limit >= 1`. NaN from `parseInt`, the negative start index of `slice` for pages below 1, and a limit of zero or below are not modelled. With `?limit=-1`, for instance, page 1 is `slice(0, -1)`: every article but the last, with `hasMore` true. The same holds for ListingEndpoint.Get.
- ListingEndpoint.ParseInt: integers are unbounded here, while JavaScript loses precision beyond 2^53.
- Text.ToLower: only ASCII letters are lowercased, not the full Unicode case mapping. Strings are sequences of Unicode scalar values, not UTF-16 code units.
- Record lookups through the prototype chain (a category named `constructor`, say) are not modelled; only own keys are.
- The error message 'Unknown error' in `POST` is for non-`Error` throws. Every throw in the core is an `Error`, so that branch is not modelled.
- The card markup, the SVG icons, the prompt text beyond the category context, and the RSS channel header. These are templates. The channel's build date uses the clock.
- `astro.config.mjs`: framework configuration only.
- The race between two concurrent generation requests that both read and write the same file. This is a concurrency concern, and each request is modelled alone.
- `console.log` and `console.error`.
- The document field `label` is called `labelText`, because `label` is a reserved word in Dafny.
