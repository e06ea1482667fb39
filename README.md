# Blog article backend and frontend helper, modelled in Dafny

This project models two parts of a Strapi blog.

The first is the article controller. `findOne` looks an article up by numeric id or by slug. It answers not-found when nothing matches. Otherwise it writes the view count plus one to that row and returns the row with the new count. `find` with `mostPopular=true`, and the dedicated `mostPopular` action, run the popularity query:

- only published articles;
- ordered by views descending, then by publication time descending;
- at most `limit` rows.

The two actions differ in how they read `limit`.

The second is the frontend helper. It flattens the backend's nested `{ data: { attributes } }` response shape into display records, with documented fallbacks. It builds the query parameters of `fetchArticles` and shapes its result. `processCodeBlocks` renders code blocks, with the code escaped as an HTML text node.

Modules:

- `Wrappers`: `Option`, standing for JavaScript's `null`/`undefined` and SQL's NULL.
- `JsNumbers`: the decimal subset of JavaScript's `Number()` and `parseInt()`, with decimal printing.
- `Strings`: the prefix and suffix tests on strings.
- `HtmlEscape`: text-node escaping as in the WHATWG HTML Living Standard, section 13.3 "Serializing HTML fragments". It replaces `&`, U+00A0, `<` and `>`. An `Unescape` inverse is included.
- `Articles`: the article row, and single-row lookup by id or slug.
- `Popularity`: the published filter, the two-key descending order and the limit, as pure functions.
- `ArticleController`: the `Store` class, which owns the table and performs the `findOne` update, plus the query routing of `find` and `mostPopular`.
- `ApiHelper`: the frontend helper.

The two actions read `limit` differently:

- `mostPopular` has a fallback only for an absent `limit`. A non-numeric `limit` reaches the query as NaN. `"0"` reaches the query as 0, which the model takes as a limit of zero rows (see `Popularity.FindMany` under "## Left out").
- `find` falls back to 10 for both NaN and 0.
- They differ only when a present `limit` parses as NaN or 0 (`ArticleController.FindLimit`, `ArticleController.MostPopularLimit`, `ArticleController.LimitParsing`).

Environment behaviour that the source does not show is made a parameter:

- Whether the database puts NULL view counts first in a descending order is `nullsFirst`.
- Whether a storage call fails is `updateFails` / `storageFails`. A failure becomes `InternalError`.

## Model

| member | source | states |
|---|---|---|
| JsNumbers.NumberOf | src/api/article/controllers/article.ts:16 | `Number(id)`, for the decimal forms of "## Left out": a number exactly when the string is all digits ("" included) or one sign followed by at least one digit and only digits; the value is the digits' decimal value, negated after `-` |
| JsNumbers.NumberOfShowInt | src/api/article/controllers/article.ts:16 | the decimal form of every integer reads back under `Number` as that integer |
| JsNumbers.ShowInt | FRONTEND_API_HELPER.js:63-64 | `toString` of an integer is non-empty and starts with `-` exactly when the integer is negative; `NumberOfShowInt` and `ParseIntShowInt` state that it reads back |
| JsNumbers.ShowNatValue | FRONTEND_API_HELPER.js:63-64 | `toString` of a natural number reads back as that number |
| JsNumbers.LeadingDigits | src/api/article/controllers/article.ts:60 | the prefix `parseInt` reads is all digits and maximal |
| JsNumbers.ParseInt | src/api/article/controllers/article.ts:60 | `parseInt` is a number, not NaN, exactly when the string starts with a digit, or with a sign followed by a digit |
| JsNumbers.ParseIntShowInt | src/api/article/controllers/article.ts:111 | `parseInt` of an integer's decimal form, followed by anything not starting with a digit, gives that integer |
| Articles.Locate | src/api/article/controllers/article.ts:18-38 | the lookup finds the first row matching the key, and finds none exactly when no row matches |
| Articles.LocateUnique | src/api/article/controllers/article.ts:47-49 | in a table with unique ids and slugs, any matching row is the one the lookup finds, so `where: { id: article.id }` names the row that was read |
| Articles.LocateSameMatches | src/api/article/controllers/article.ts:18-38 | two tables whose rows match a key at the same positions answer the lookup alike |
| Articles.LocateIgnoresViews | src/api/article/controllers/article.ts:47-50 | rewriting a row's view count moves no id or slug lookup |
| Articles.ViewsOrZero | src/api/article/controllers/article.ts:45 | `article.views \|\| 0`, the count a lookup reads; `Store.FindOne` and `LookupTwice` state the counts written from it |
| ArticleController.KeyOf | src/api/article/controllers/article.ts:16-39 | the slug lookup is chosen exactly when `Number(id)` is NaN, with the raw parameter as slug; otherwise the id lookup uses `Number(id)` |
| ArticleController.KeyOfRouting | src/api/article/controllers/article.ts:16-39 | under the decimal-only `Number` of "## Left out": an integer's decimal form routes to the id lookup for that integer; a slug containing a lowercase letter, or a hyphen after its first character (such as a date), routes to the slug lookup |
| ArticleController.FindLimit | src/api/article/controllers/article.ts:60 | `parseInt(limit) \|\| 10` is never 0; it is 10 when `limit` is absent, non-numeric or parses as 0, and the parsed value when that is a non-zero number |
| ArticleController.MostPopularLimit | src/api/article/controllers/article.ts:95 | an absent `limit` is `"10"` and so 10; a present one is exactly `parseInt` of it, with no further fallback |
| ArticleController.LimitParsing | src/api/article/controllers/article.ts:60 | for a decimal limit `n`, `find` uses `n`, or 10 when `n` is 0, and `mostPopular` uses `n` |
| ArticleController.Store.FindOne | src/api/article/controllers/article.ts:10-53 | no match: not-found and the table unchanged; a failing write: internal error and the table unchanged; otherwise exactly the found row gets `views := (views \|\| 0) + 1`, and the response is the row as read with that count; unique keys are preserved |
| ArticleController.LookupTwice | src/api/article/controllers/article.ts:45-52 | two lookups of the same article answer its prior count plus one, then plus two |
| ArticleController.Store.Find | src/api/article/controllers/article.ts:55-91 | the default listing is used exactly when `mostPopular` is not the string `"true"`; otherwise the ranked top `FindLimit` rows, or an internal error on a storage failure or a negative limit |
| ArticleController.Store.MostPopular | src/api/article/controllers/article.ts:93-118 | with no `limit`, the top 10; the query succeeds exactly when storage works and the parsed limit is a non-negative number, and then it is the top `limit` rows; otherwise it is an internal error |
| Popularity.Published | src/api/article/controllers/article.ts:65-66 | keeps exactly those rows whose publication time is set, each as often as it occurs in the table, and drops every draft |
| Popularity.FindMany | src/api/article/controllers/article.ts:62-77 | the query answers data exactly when storage works and the limit is a non-negative number; otherwise an internal error, never a partial list |
| Popularity.Popular | src/api/article/controllers/article.ts:62-77 | the answer to a valid query has at most `limit` rows and no more rows than the table; `PopularPublished`, `PopularCount`, `PopularRanked`, `PopularOrder`, `PopularNewerFirst` and `PopularIsTop` state the rest |
| Popularity.Insert | src/api/article/controllers/article.ts:75 | inserting one row lengthens the list by one; `InsertPermutes` and `InsertRanked` state which row and where |
| Popularity.Sort | src/api/article/controllers/article.ts:75 | the ordering keeps the length; `SortRankedPermutation` states that it is a ranked permutation |
| Popularity.InsertPermutes | src/api/article/controllers/article.ts:75 | inserting one row into an ordered list adds exactly that row |
| Popularity.InsertRanked | src/api/article/controllers/article.ts:75 | inserting into a ranked list keeps it ranked |
| Popularity.SortRankedPermutation | src/api/article/controllers/article.ts:75 | the ordering keeps exactly the rows it is given, each as often as given, and ranks them |
| Popularity.RanksTransitive | src/api/article/controllers/article.ts:75 | "may be listed before" under the two-key order is transitive |
| Popularity.PopularPublished | src/api/article/controllers/article.ts:65-66 | every listed article is a row of the table and is published |
| Popularity.PopularCount | src/api/article/controllers/article.ts:76 | the list has `min(limit, number published)` entries, hence never more than `limit` |
| Popularity.PopularRanked | src/api/article/controllers/article.ts:75 | the list is ranked pairwise by the two-key descending order |
| Popularity.PopularOrder | src/api/article/controllers/article.ts:75 | of two listed articles the earlier has more views, or as many and a publication time no earlier; a never-written count sits on the side where the database puts NULL |
| Popularity.PopularNewerFirst | src/api/article/controllers/article.ts:75 | of two listed articles with equal views, the one published later comes first |
| Popularity.RankedPrefixDominates | src/api/article/controllers/article.ts:75-76 | in a ranked list every kept row ranks at least as high as every cut-off row |
| Popularity.PopularIsTop | src/api/article/controllers/article.ts:62-77 | the list is a sub-multiset of the published rows, and no published row left out outranks a listed one |
| HtmlEscape.Escape | FRONTEND_API_HELPER.js:125-129 | escaped text is at least as long as the input and holds no `<`, `>` or U+00A0 |
| HtmlEscape.UnescapeEscape | FRONTEND_API_HELPER.js:125-129 | decoding the four references recovers the original text: escaping loses nothing |
| HtmlEscape.EscapeAmpersandsEscaped | FRONTEND_API_HELPER.js:125-129 | every `&` in escaped text begins one of `&amp;`, `&nbsp;`, `&lt;`, `&gt;` |
| HtmlEscape.EscapeIdentity | FRONTEND_API_HELPER.js:125-129 | escaping leaves text unchanged exactly when it has none of the four special characters |
| ApiHelper.MapEach | FRONTEND_API_HELPER.js:40 | `Array.prototype.map`: same length, with element `i` mapped from element `i` |
| ApiHelper.TransformArticle | FRONTEND_API_HELPER.js:11-32 | the id and text fields are passed through; author, category, image and avatar take the resolved value when it is a non-empty string, else their defaults; `publishedAt` falls back to `createdAt`; author name, category name and avatar are never empty |
| ApiHelper.MissingFieldsFallBack | FRONTEND_API_HELPER.js:20-29 | a missing relation anywhere along a chain gives the documented default ("Daniel Alvarez", "General", "", "/default-avatar.png"); a missing `publishedAt` gives `createdAt` |
| ApiHelper.TransformArticles | FRONTEND_API_HELPER.js:39-41 | flattens element by element, keeping length and order |
| ApiHelper.DisplayCategoryOf | FRONTEND_API_HELPER.js:141-150 | category fields are passed through; the image URL when non-empty, else "" |
| ApiHelper.CategoriesOf | FRONTEND_API_HELPER.js:141 | every category is mapped, in order |
| ApiHelper.DisplayAuthorOf | FRONTEND_API_HELPER.js:167-174 | author fields are passed through; the avatar URL when non-empty, else "/default-avatar.png", so never empty |
| ApiHelper.AuthorsOf | FRONTEND_API_HELPER.js:167 | every author is mapped, in order |
| ApiHelper.BuildQueryParams | FRONTEND_API_HELPER.js:59-78 | the list built by appending filters one at a time is the specified parameter list |
| ApiHelper.BaseParams | FRONTEND_API_HELPER.js:59-65 | the five entries the parameters are created with; `QueryParamsBase` states their keys and values |
| ApiHelper.Filters | FRONTEND_API_HELPER.js:67-78 | at most the three filters are appended; `FilterEntries` states which |
| ApiHelper.QueryParams | FRONTEND_API_HELPER.js:59-78 | five to eight entries in all; `QueryParamsBase`, `QueryParamsFilters` and `QueryParamsOrder` state their contents and order |
| ApiHelper.FilterKeysDistinct | FRONTEND_API_HELPER.js:69-77 | the three filter keys are distinct |
| ApiHelper.NotFilterKey | FRONTEND_API_HELPER.js:59-65 | a populate or pagination key is no filter key |
| ApiHelper.QueryParamsBase | FRONTEND_API_HELPER.js:50-65 | the query starts with the five populate and pagination entries; the pagination values read back as the page and page size, 1 and 25 by default; filters follow |
| ApiHelper.FilterKeyInQuery | FRONTEND_API_HELPER.js:59-78 | an entry under a filter key is an appended filter, never a base entry |
| ApiHelper.FilterEntries | FRONTEND_API_HELPER.js:67-78 | a filter entry is present exactly when its option is set (published by default, category and slug when non-empty), with the option's value |
| ApiHelper.QueryParamsFilters | FRONTEND_API_HELPER.js:67-78 | each filter key is in the query exactly when its option is set, and it carries that option's value |
| ApiHelper.QueryParamsOrder | FRONTEND_API_HELPER.js:67-78 | after the base entries the filters come in the order published, category, slug, each at most once |
| ApiHelper.ArticlesResult | FRONTEND_API_HELPER.js:84-92 | with a slug: the first article flattened, or null when there is none; otherwise all articles flattened in order, with `meta` passed through |
| ApiHelper.FetchArticles | FRONTEND_API_HELPER.js:49-97 | sends the specified parameter list and returns the specified result; a slug search always filters by slug and answers a single article |
| ApiHelper.CodeBlocksOf | FRONTEND_API_HELPER.js:106 | keeps exactly the `shared.code-block` blocks |
| ApiHelper.CodeFragment | FRONTEND_API_HELPER.js:108-115 | the template for one code block; `FragmentHeader`, `FragmentLineNumbers` and `FragmentCode` state its header, its `pre` class and its `code` element |
| ApiHelper.Join | FRONTEND_API_HELPER.js:117 | `join('')`; `JoinAppend` states it distributes over concatenation |
| ApiHelper.ProcessCodeBlocks | FRONTEND_API_HELPER.js:104-118 | `processCodeBlocks`; `ProcessCodeBlocksAppend`, `ProcessCodeBlocksSingle` and `ProcessCodeBlocksSkipsOthers` state its output block by block |
| ApiHelper.MapEachAppend | FRONTEND_API_HELPER.js:107 | mapping distributes over concatenation |
| ApiHelper.CodeBlocksOfAppend | FRONTEND_API_HELPER.js:106 | filtering distributes over concatenation |
| ApiHelper.JoinAppend | FRONTEND_API_HELPER.js:117 | `join('')` distributes over concatenation |
| ApiHelper.ProcessCodeBlocksAppend | FRONTEND_API_HELPER.js:104-118 | rendering a concatenation of block lists concatenates their renderings |
| ApiHelper.ProcessCodeBlocksSingle | FRONTEND_API_HELPER.js:104-118 | a single block renders as its fragment when it is a code block, else as ""; no blocks, or an omitted argument, render as "" |
| ApiHelper.ProcessCodeBlocksSkipsOthers | FRONTEND_API_HELPER.js:106 | a list without code blocks renders as "" |
| ApiHelper.FragmentHeader | FRONTEND_API_HELPER.js:109 | a fragment opens with the filename header exactly when the filename is a non-empty string, which then appears verbatim |
| ApiHelper.FragmentLineNumbers | FRONTEND_API_HELPER.js:110 | the `pre` class is `line-numbers` exactly when `showLineNumbers` is true |
| ApiHelper.FragmentCode | FRONTEND_API_HELPER.js:112-115 | a fragment ends with the `code` element of class `language-<language>` holding the escaped code; that text has no unescaped `&` and decodes back to the code |

## Left out

- The HTTP layer is left out. This covers the status codes, the `{ data: ... }` envelope and Strapi's `ctx.notFound` / `ctx.throw(500, ...)` responses, which become `NotFound` and `InternalError`.
- Populated relations are reduced to row keys. The content of `author` (with `avatar`), `image` and `category` is not modelled.
- `super.find`, the default listing, is not modelled. `Find` only reports that it is used, as `DefaultFind`.
- Concurrency is left out. Two concurrent `findOne` calls may both read the same count, so one increment can be lost. The model runs one call at a time.
- A storage failure during the `findOne` lookup is not modelled. Only a failure of the write is (`updateFails`).
- JsNumbers.NumberOf: only the decimal forms are modelled: "", or an optional sign with digits. Surrounding whitespace, hexadecimal, binary, octal, exponents, fractions and "Infinity" are not. Any other string is NaN.
- JsNumbers.ParseInt: leading whitespace, radix prefixes and the `undefined` argument are not modelled. `FindLimit` treats an absent limit as NaN directly.
- Popularity.FindMany: the source does not show what the ORM does with a `limit` of 0, NaN or a negative number. The model assumes that 0 returns no rows, and that NaN or a negative number fails like a storage error. An ORM that ignores a falsy limit would instead return every published row for 0 or NaN.
- Popularity.Sort: the order among rows equal on both keys is not specified by the query. The model fixes ties in storage order: each row is inserted before the equal rows after it. `Store.Find` and `Store.MostPopular` state their lists as that one order, while the lemmas about `Popular` speak only of the ranking relation and hold for any tie order.
- Where a descending order puts NULL view counts or publication times depends on the database. It is the parameter `nullsFirst`.
- Console logging is left out. That is `console.log` of the popular titles and `console.error` on failures.
- `fetch`, the base URL, URL and percent-encoding, and JSON parsing are left out. So is rethrowing a transport error. `FetchArticles` takes the parsed body as a parameter.
- A response article without `attributes` is left out. That raises a TypeError in the source. The model's `attributes` is always present, with each field optional.
- A response body whose `data` is null or missing, as an error response sends, is left out. The source then throws a TypeError at `data.data.length`, `data.data.map` or `strapiArticles.map`, logs it and rethrows it. `ArticlesPayload.data`, `CategoriesOf` and `AuthorsOf` take a list, so they cannot represent that body.
- A category or author record without `attributes` is left out too. `category.attributes.name` and `author.attributes.name` raise a TypeError in the source.
- JavaScript numbers are IEEE doubles; the model's integers are unbounded. Its claims hold for magnitudes below 2^53. Beyond that, `Number(id)` rounds, so a different id is looked up, and `currentViews + 1` stops increasing, so `LookupTwice`'s second count is wrong. `toString` writes exponent notation from 10^21 up. None of this is modelled.
- An explicit `null` passed as `page`, `pageSize` or `published` is left out. Destructuring defaults apply only to `undefined`. The model treats every missing value as `undefined`.
- A `page` or `pageSize` that is not an integer is left out. Their `toString` is modelled for integers.
- A `null` `blocks` argument to `processCodeBlocks` makes `.filter` throw. It is left out. An omitted argument is modelled as `[]`.
- A `code` that is not a string is left out.
- `escapeHtml` depends on the DOM. It is modelled by the serialisation rule it yields, not by a document.
- The route table in `src/api/article/routes/custom.ts` is not part of this model. The generated component types are used only for the shape of a code block.
- A query parameter given more than once, which arrives as an array, is left out.
