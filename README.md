# Blog-post service: a Dafny model

This project models the core of a small blog-post back end written in Go, on Echo and the ent
ORM, and proves its properties. The model covers:

- **The slug generator and the HTTP error value** (`internal/utils/utils.go`). They are pure
  string functions:
  - `GenerateSlug` lower-cases, collapses every run of characters outside `[a-z0-9]` to one `-`,
    and trims hyphens from both ends;
  - `HTTPError` carries a code, a message and optional details.
- **The schema** (`ent/schema/blogpost.go`). It gives the field constraints:
  - title, slug, content and excerpt are non-empty;
  - the excerpt is at most 160 bytes;
  - slugs are unique.

  Together they form the invariant of the store, and the rule by which an insert succeeds or
  fails.
- **The store** (module `EntClient`). The ent client is the class `PostStore`:
  - it holds the rows as `posts: seq<BlogPost>`;
  - its `Save` either appends one validated row with a fresh id or fails and changes nothing;
  - `Only` is the unique lookup.
- **The service** (`internal/services/blogpost_service.go`):
  - `CreateBlogPost` is a method on the store. It chooses the slug, adds the `-<unix seconds>`
    suffix on a collision, resolves `published_at` and inserts. It is proved against the
    specification function `CreateOutcome`.
  - `GetBlogPosts` is a pure pipeline. It normalises, searches case-insensitively, counts, sorts
    newest first, applies the offset and limit, and drops `content`.
  - `GetBlogPostBySlug` is a pure lookup that maps a miss to a fixed message.
- **The controller** (`internal/controllers/blog_post_controller.go`). It models the decisions of
  the three handlers:
  - form and query defaulting;
  - the image upload, which runs *before* the required-field check;
  - the mapping of errors to 400/404/500 and of success to 201/200.

Proved properties include the following.

Slugs:
- a generated slug contains only `[a-z0-9-]`;
- it has no leading, trailing or doubled hyphen;
- without its hyphens it is exactly the `[a-z0-9]` characters of the lower-cased input;
- its fixed points are exactly the well-formed slugs, so `GenerateSlug` is idempotent.

Store and create:
- `Save` accepts exactly the rows that keep the invariant;
- `CreateBlogPost` preserves the invariant. It fails, and leaves the store unchanged, on a lookup
  error, a bad `published_at` or a rejected insert;
- the suffixed slug is never re-checked, so it can still collide.

List and lookup:
- paging puts the k-th newest match at item `k % limit` of page `k / limit + 1`;
- a page past the end is empty;
- only a miss on the very slug produces the not-found text, so only that error becomes a 404.

Inputs the source takes from outside are parameters:

| source input | model |
|---|---|
| clock (`time.Now()`) | argument `now` (nanoseconds since the epoch) |
| RFC 3339 parser (`time.Parse(time.RFC3339, ·)`) | argument `parseRfc3339` |
| each database round trip | an `Option<string>` fault; `Some(reason)` is the driver error |
| image upload | the argument `upload` of the create handler |
| parsed multipart form | `FormParse` |
| query parameters after `strconv.Atoi` | `Option<int>` |

The files:

| file | models |
|---|---|
| `wrappers.dfy` | `Option` and `Result` |
| `utils.dfy` | HTTPError, GenerateSlug |
| `schema.dfy` | row type, field constraints, store invariant |
| `client.dfy` | ent client: save and unique lookup |
| `service.dfy` | create, list, lookup |
| `controller.dfy` | HTTP handlers |

The model follows the code on these points:
- The required-field check ("Title, Content and Excerpt are required") and the empty-slug check
  are in the controller, not in the service. The service itself relies on the schema validators.
- The excerpt bound is MaxLen(160), which ent measures in bytes (Go's `len`), not characters.
  The model counts UTF-8 bytes (`Schema.Utf8Len`).
- A slug collision is resolved by one suffix, with no retry.

## Model

| member | source | states |
|---|---|---|
| Utils.NewHttpError | internal/utils/utils.go:28-37 | code and message are copied; details are the error's text when an error is given and empty for nil |
| Utils.HttpError.Error | internal/utils/utils.go:20-25 | Error() starts with the message; it equals the message exactly when details are empty; otherwise ": " and then the details follow the message |
| Utils.NewHttpErrorText | internal/utils/utils.go:20-37 | an error built from nil prints as the bare message; one built from an error with non-empty text prints as "message: text"; an error with empty text prints like nil |
| Utils.LowerAt | internal/utils/utils.go:82 | lower-casing keeps the length and maps each character on its own (ASCII letters to lower case, everything else unchanged) |
| Utils.ReplaceRuns | internal/utils/utils.go:84-85 | after replacing runs of non-`[a-z0-9]` with "-": only `[a-z0-9-]` remain, there is no "--", the result is empty only for empty input, and a leading `[a-z0-9]` character is kept |
| Utils.TrimLeftRemovesHyphenPrefix | internal/utils/utils.go:87 | TrimLeft removes exactly a prefix of hyphens and stops at the first other character |
| Utils.TrimRightRemovesHyphenSuffix | internal/utils/utils.go:87 | TrimRight removes exactly a suffix of hyphens and stops at the last other character |
| Utils.TrimHyphens | internal/utils/utils.go:87 | strings.Trim removes only hyphens, leaves none at either end, and returns a string without edge hyphens unchanged |
| Utils.GenerateSlug | internal/utils/utils.go:81-89 | every generated slug contains only `[a-z0-9-]`, never starts or ends with "-", and never contains "--"; deleting its hyphens gives exactly the `[a-z0-9]` characters of the lower-cased input, in order |
| Utils.FixedPointsAreSlugs | internal/utils/utils.go:81-89 | GenerateSlug(t) == t holds exactly when t is a well-formed slug |
| Utils.GenerateSlugIdempotent | internal/utils/utils.go:81-89 | GenerateSlug(GenerateSlug(s)) == GenerateSlug(s) |
| Utils.NoAlnumGivesEmptySlug | internal/utils/utils.go:81-89 | an input without ASCII letters or digits gives the empty slug |
| Utils.HelloWorldSlug | internal/utils/utils.go:81-89 | "Hello, World!" gives "hello-world" |
| Schema.Utf8LenBounds | ent/schema/blogpost.go:21 | the byte length MaxLen measures lies between one and four bytes per character |
| Schema.FirstViolation | ent/schema/blogpost.go:18-21 | the validators, in field order, find no violation exactly when all four fields are valid; a reported field is violated and all earlier fields hold |
| Schema.ValidPosts | ent/schema/blogpost.go:18-21 | the store invariant: every row passes the NotEmpty and MaxLen validators and has create time <= update time, no two rows share a slug, so a slug identifies at most one row |
| Schema.ValidPostsAppend | ent/schema/blogpost.go:18-21 | appending a row to a valid store keeps it valid exactly when the row passes its validators, has create time <= update time, and has a slug no row has |
| Schema.StoredRowBounds | ent/schema/blogpost.go:18-21 | every stored row has non-empty title, slug and content, an excerpt of 1 to 160 characters, and create time <= update time |
| EntClient.NewRow | internal/services/blogpost_service.go:88-100 | the inserted row carries the builder's title, slug, content, excerpt, published_at and image, the next id, and the clock reading as create_time and update_time |
| EntClient.SaveViolation | ent/schema/blogpost.go:18-21 | the insert is refused in this order: the first field, in declaration order, whose validator fails (all earlier fields hold); then a database fault, on a valid row; then the unique index, on a valid row with a taken slug; none exactly for a valid row with a free slug and a reachable database |
| EntClient.SaveAcceptsExactlyValidRows | ent/schema/blogpost.go:18-21 | the insert succeeds exactly when the database is reachable and the store stays valid with the new row; a duplicate-slug refusal means a valid row with a taken slug; a validator refusal names a field the row violates |
| EntClient.WithSlug | internal/services/blogpost_service.go:187 | the slug filter keeps only stored rows with that slug, and is empty exactly when no row has it |
| EntClient.WithSlugAtMostOne | ent/schema/blogpost.go:19 | with unique slugs, at most one row has a given slug |
| EntClient.Only | internal/services/blogpost_service.go:174-188 | a found row is stored and has the slug; not-found exactly when the query runs and no row has the slug; a database error is passed up |
| EntClient.OnlyWithUniqueSlugs | internal/services/blogpost_service.go:68-75 | with unique slugs the lookup finds a row exactly when the slug is taken, and never reports "not singular" |
| EntClient.PostStore.Save | internal/services/blogpost_service.go:100-103 | keeps the store invariant; on success exactly one row is appended with the next id and the clock reading as both timestamps; on failure nothing changes |
| Service.NotFoundTextIsExact | internal/services/blogpost_service.go:189-194 | a service error has the text "blog post with slug '<slug>' not found" exactly when it is the lookup miss for that slug |
| Service.DigitsRoundTrip | internal/services/blogpost_service.go:74 | %d of a non-negative number is a non-empty run of digits, with no leading zero, that reads back as the number |
| Service.CreateBlogPost | internal/services/blogpost_service.go:60-106 | keeps the store invariant; returns CreateOutcome of the old store; success appends exactly the returned row; failure leaves posts and id counter unchanged |
| Service.CreateOutcomeSpec | internal/services/blogpost_service.go:60-105 | create succeeds exactly when both database calls succeed, published_at parses, every field is valid and the chosen slug is free; the row copies title, content, excerpt and image, takes published_at from the input or the clock, takes the next id, and keeps the store valid |
| Service.BaseSlug | internal/services/blogpost_service.go:61-66 | the slug before the collision check is well formed and, without its hyphens, holds exactly the letters and digits of the explicit slug when one is given and non-empty, of the title otherwise |
| Service.ChosenSlug | internal/services/blogpost_service.go:68-75 | the saved slug equals the base slug exactly when no stored row has the base slug, and always begins with the base slug |
| Service.ResolvePublishedAt | internal/services/blogpost_service.go:77-86 | without a published_at the clock reading is used; a given value is what the RFC 3339 parser answers; only a given value can fail |
| Service.CreateOutcome | internal/services/blogpost_service.go:60-105 | steps fail in the source's order: a lookup error first, then a bad published_at, then the insert (a fault there is a create error naming the database or a validator); a success had both database calls succeed and is the row with the next id, the clock as both timestamps and the chosen slug |
| Service.SuffixedSlugIsWellFormed | internal/services/blogpost_service.go:73-75 | base + "-" + seconds is again a well-formed slug and differs from base |
| Service.ChosenSlugIsWellFormed | internal/services/blogpost_service.go:61-75 | on a valid store, and from 1970 on, the saved slug is well formed |
| Service.SuffixedSlugCanCollide | internal/services/blogpost_service.go:68-103 | when the suffixed slug is also taken, the insert fails on the unique slug even though every field is valid |
| Service.SuffixCollisionExample | internal/services/blogpost_service.go:68-103 | a valid store holding "a" and "a-0" refuses another post titled "A" created at time 0 |
| Service.UnsluggableTitleFailsOnSlug | internal/services/blogpost_service.go:61-66 | a title with no ASCII letter or digit, and no explicit slug, gives slug "" and the insert fails on the slug validator |
| Service.SameTitleTwice | internal/services/blogpost_service.go:68-75 | two creates with one title on an empty store both succeed; the first uses the title's slug and the second adds "-<seconds>" |
| Service.ContainsAt | internal/services/blogpost_service.go:121-127 | the substring test agrees with "occurs at some position" |
| Service.ContainsFold | internal/services/blogpost_service.go:123-125 | the empty term is found in every text, and a term longer than the text is never found |
| Service.ContainsFoldAt | internal/services/blogpost_service.go:123-125 | ContainsFold holds exactly when the case-folded term occurs at some position of the case-folded text |
| Service.MatchesMeaning | internal/services/blogpost_service.go:120-128 | a post matches exactly when the term is empty or its case-folded form occurs in the case-folded title, content or excerpt |
| Service.Matching | internal/services/blogpost_service.go:120-128 | a row is among the filtered rows exactly when it is stored and matches the search, and there are no more of them than stored rows |
| Service.MatchingCounts | internal/services/blogpost_service.go:120-131 | the filter keeps each matching row exactly as often as it is stored and drops every other row, so the count is the number of matching rows |
| Service.InsertNewestFirst | internal/services/blogpost_service.go:153 | inserting keeps create-time-descending order and adds exactly one row to the multiset |
| Service.SortNewestFirst | internal/services/blogpost_service.go:153 | the sort is in create-time-descending order and is a permutation |
| Service.Window | internal/services/blogpost_service.go:154-155 | offset/limit keeps at most limit rows, starting at the offset, and nothing when the offset is past the end |
| Service.OffsetAsWrittenAgreesWhenSmall | internal/services/blogpost_service.go:138 | the int-arithmetic offset is the exact one while the product fits |
| Service.OffsetOverflowServesFirstPage | internal/services/blogpost_service.go:138 | page 2^62+1 at limit 4: the int offset wraps to 0 and serves page 1, where the exact offset gives an empty page |
| Service.OffsetOverflowCanBeNegative | internal/services/blogpost_service.go:138 | page 2^62+1 at limit 2: the int offset wraps to -2^63, where the exact offset is 2^63 |
| Service.PageData | internal/services/blogpost_service.go:142-156 | a page holds at most limit rows, none of them with its content |
| Service.GetBlogPosts | internal/services/blogpost_service.go:109-171 | a count error and a fetch error each return their own wrapped error; without either, the list succeeds |
| Service.CeilDivIsCeiling | internal/services/blogpost_service.go:139 | totalPages * limit >= total and (totalPages - 1) * limit < total; totalPages is 0 exactly when total is 0 |
| Service.ListPagination | internal/services/blogpost_service.go:110-170 | page below 1 becomes 1 and limit below 1 becomes 10, other values pass through; total is the length of the filtered rows (MatchingCounts: the number of matching rows); totalPages is ceil(total / limit) |
| Service.ListWindow | internal/services/blogpost_service.go:138-156 | data is the matching rows newest first, skipping (page-1)*limit and holding at most limit, each with content dropped |
| Service.ListItemsAreStoredMatches | internal/services/blogpost_service.go:142-156 | every item is a stored matching row with empty content |
| Service.ListIsNewestFirst | internal/services/blogpost_service.go:153 | the items are newest first |
| Service.PagePastTheEndIsEmpty | internal/services/blogpost_service.go:138-156 | a page number above totalPages gives no data |
| Service.EveryMatchIsOnItsPage | internal/services/blogpost_service.go:138-156 | the k-th newest match is item k % limit of page k / limit + 1 |
| Service.EmptyTermMatchesAll | internal/services/blogpost_service.go:120 | the empty search term keeps every row, in store order |
| Service.ContentMatchIsFound | internal/services/blogpost_service.go:124 | a term found only in the content still finds the post |
| Service.SearchIgnoresCase | internal/services/blogpost_service.go:121-127 | terms that differ only in ASCII case give the same rows |
| Service.DefaultsAreUsedBelowOne | internal/services/blogpost_service.go:110-115 | page and limit below 1 give the same answer as page 1, limit 10 |
| Service.TwentyFiveRowsMakeThreePages | internal/services/blogpost_service.go:130-139 | a store with 25 matching rows, listed at limit 10, reports total 25 and 3 pages, whichever page is asked for |
| Service.GetBlogPostBySlug | internal/services/blogpost_service.go:174-197 | a found post is stored and has the slug; a miss gives the not-found error exactly when the query runs and no row has the slug; a database error returns the retrieve error |
| Service.LookupSucceedsIffSlugTaken | internal/services/blogpost_service.go:174-196 | with unique slugs the lookup succeeds exactly when the slug is taken |
| Service.LookupFindsTheStoredPost | internal/services/blogpost_service.go:174-196 | on a valid store, looking up a stored row's slug returns that row, with content |
| Controller.InputOf | internal/controllers/blog_post_controller.go:39-45 | the service input takes the first value of title, excerpt and content, no image, and published_at and slug present exactly when their keys have a value, then their first value |
| Controller.GetFirstValue | internal/controllers/blog_post_controller.go:73-78 | nil exactly for an empty list, otherwise the first element |
| Controller.CreateHandler | internal/controllers/blog_post_controller.go:29-70 | a parse or form failure gives 400; an upload failure gives 500 before validation; empty title, content or excerpt gives 400 without touching the store, after the upload; a service error gives 500 with its text; success gives 201 with the row just appended |
| Controller.QueryInt | internal/controllers/blog_post_controller.go:83-91 | a parameter that parses as an int and is at least 1 is used; anything else gives the default |
| Controller.ListHandler | internal/controllers/blog_post_controller.go:82-106 | 200 exactly when neither database call fails, else 500 with the service error as details; a listing carries the defaulted page and limit, the matching count, at most limit rows, newest first |
| Controller.ListHandlerPassesThrough | internal/controllers/blog_post_controller.go:95-105 | a successful list answers with the service's data and pagination unchanged; without parameters it is page 1 of 10 |
| Controller.GetBySlugHandler | internal/controllers/blog_post_controller.go:110-129 | 400 exactly for the empty slug; 404 with the not-found text exactly when the query runs and the slug is missing; 500 on a database error; a found post has the slug; no other status occurs |
| Controller.GetBySlugFindsStoredPost | internal/controllers/blog_post_controller.go:116-128 | on a valid store, the slug of a stored row is answered 200 with that row |
| Controller.CreateThenFetch | internal/controllers/blog_post_controller.go:29-129 | a well-formed form on an empty store is answered 201, and fetching the new slug answers 200 with the same post |
| Controller.UploadBeforeValidation | internal/controllers/blog_post_controller.go:47-58 | a form with an image and an empty title is answered 400, and the store stays empty, yet the image has been uploaded |

## Left out

- Utils.Lower: ASCII lower-casing only. Go's `strings.ToLower` and ent's ContainsFold use Unicode case mapping, and non-ASCII letters are left unchanged here. The search and slug properties hold for this folding.
- Service.CeilDivIsCeiling: `totalPages` is integer ceiling division. The code computes `math.Ceil(float64(total) / float64(limit))`, which agrees for totals below 2^53. Floating point is not modelled.
- Service.CreateBlogPost: one clock reading serves the suffix, the `published_at` default and both timestamps. The code reads `time.Now()` separately for each.
- Service.CreateBlogPost: lookup and insert form one step. The race between concurrent creates that both see a free slug is not modelled. The unique index still rejects the second insert, as `Save` shows.
- Service.NewestFirst: rows with equal `create_time` may come in any order. Only the non-increasing order is specified, as the SQL ordering leaves ties open.
- EntClient.SaveError: the error texts of ent and the database driver are approximations. Their exact wording is outside the repository.
- EntClient.PostStore.Save: ids come from a counter. A failed insert does not use up an id, whereas a database sequence may.
- Controller.CreateHandler: requires the title, excerpt and content keys to be present. The code indexes `[0]` and panics on a form that lacks one; the `middleware.Recover()` installed in `main.go:26` recovers that panic and the error handler answers 500. That path is not modelled.
- Controller.CreateThenFetch: timestamps are stored exactly. The row ent's Save returns carries the Go-side nanosecond clock readings for create_time, update_time and a defaulted published_at, while Postgres's timestamptz keeps microseconds, so the later GET can answer those three fields rounded. The other fields agree as stated.
- EntClient.PostStore.Save: the stored row is the returned row, with nanosecond timestamps. Postgres rounds create_time, update_time and published_at to microseconds; the database's rounding is not modelled.
- Controller.CreateHandler: the upload is the image service's answer, passed in. Writing the file, building its URL and the multipart size limit are not modelled.
- RFC 3339 parsing is a function parameter; its grammar is not modelled.
- `CustomHTTPErrorHandler`, which renders an `HTTPError` as JSON, is not modelled. It depends on Echo types and `errors.As`. Log output is not modelled either.
- The router, server set-up, configuration and database connection are plumbing and I/O. They are not part of this model.
- `UpdateBlogPostInput` is declared but never used.
- `image` and `published_at` have no schema constraint in `ent/schema/blogpost.go`, so the model stores them unconstrained.

## Findings

| source | as written | input that shows it | evidently intended | confidence | as-written member | corrected member |
|---|---|---|---|---|---|---|
| internal/services/blogpost_service.go:138 | `offset := (page - 1) * limit` in 64-bit `int`, which wraps on overflow; `page` and `limit` come unchecked from the query string | page = 4611686018427387905, limit = 4: both pass normalisation, and the offset wraps to 0, so the first page is served. With limit 2 the same page wraps to -2^63 (Service.OffsetOverflowCanBeNegative), a negative OFFSET that Postgres refuses; that request plausibly answers 500 from the fetch, and the database's refusal is not modelled | the exact offset, under which a page past the last row is empty | not executed | Service.OffsetOverflowServesFirstPage | Service.PagePastTheEndIsEmpty |
