# URL shortener controller, modelled in Dafny

This project models the request handlers of a small URL-shortening service
(`controllers/UrlController.js`). They work over two tables:

- `urls` holds one row per short link: code, long URL, creation time and a visit counter.
- `visits` holds one row per recorded redirect: code, client address, user agent, referrer and location.

The five handlers are modelled as follows:

- **encode** (`UrlStore.Encode`): answers 400 when `longUrl` is absent or empty. When the long URL is already stored, it returns that row's short URL with status 200, `isNew = false` and "URL already shortened". Otherwise it inserts one row under the code `nanoid(6)` produced and answers 201.
- **decode** (`Decode`): answers 400 when `shortUrl` is absent or empty. Otherwise it takes the last `/`-separated segment of the short URL as the code. It answers 404 "Short URL not found" or 200 with the stored long URL.
- **redirect** (`UrlStore.Redirect`): looks the code up and answers 404 when it is unknown. Otherwise it writes one visit row and only then answers 302 to the stored long URL. The referrer is the `Referrer` header, else `Referer`, and the location is null.
- **statistics** (`Statistics`): returns the stored row of a code as it is, or 404.
- **list** (`List`): returns every row, newest first, each with its short URL composed from the base URL.

Tables are sequences of rows in insertion order. The two writing handlers are
methods of the `UrlStore` class; the three reading handlers are functions of
the rows of `urls`. A handler's environment comes in as parameters:

- the code `nanoid(6)` returned;
- the text `process.env.BASE_URL` interpolates to;
- the creation time the database stamps on a new row;
- the request's address and headers;
- for each database call, whether it resolves or rejects with a message (`DbReply`).

Every rejection leads to the handler's 500 answer, with the same messages as the source.

A lookup without `ORDER BY` that the handler reads as `rows[0]` is modelled as
"the first matching row in insertion order" (`Tables.Select`).

**Code collisions.** Encode inserts the generated code without checking
whether it is already taken (`controllers/UrlController.js:31-32`). The model
keeps this behaviour. The properties that depend on unique codes are stated
only under that hypothesis:

- `UrlStore.Encode` keeps the tables well-formed (at most one row per code and per long URL, and codes without '/') only when the code is fresh.
- It promises the round trip only when the tables after the call are well-formed.

`CollisionShadowsNewRow` covers the other case. When the code is already taken, the new short URL decodes, under the first-in-insertion-order reading of the lookup above, to the older row's long URL; the database itself promises only that one of the two rows is returned. If the database declares `code` unique, the same collision instead rejects the insert. The model covers that as the insert-rejected path, which answers 500.

A service of this kind might be expected to record visits in the background, to aggregate visits into statistics, to list each link's code and to count visits on each redirect. The code does none of these, and the model follows the code:

- The visit is written before the redirect is sent, not in the background. When that write fails, the answer is 500 and no redirect is sent.
- Statistics returns the raw `urls` row; no visits are counted or grouped.
- List entries carry `shortUrl`, `longUrl`, `createdAt` and `visits`, but not `code`.
- No handler increments the `visits` counter.

## Model

| member | source | states |
|---|---|---|
| Js.Truthy | controllers/UrlController.js:15 | of an absent-or-string request field such as `longUrl` (and `shortUrl` at line 50), exactly `undefined` and the empty string are falsy |
| Js.Or | controllers/UrlController.js:79 | JavaScript's logical or of two optional strings is one of its operands, the left one whenever it is truthy and the right one otherwise, and it is truthy exactly when either operand is |
| Js.Split | controllers/UrlController.js:54 | `split('/')` yields at least one piece and no piece holds the separator |
| Js.SplitThenJoin | controllers/UrlController.js:54 | joining the pieces of a split with the separator gives back the original string |
| Js.JoinThenSplit | controllers/UrlController.js:54 | splitting a join of separator-free pieces gives back exactly those pieces |
| Js.SplitAfterPiece | controllers/UrlController.js:54 | a separator-free piece followed by the separator splits off as the first piece, before the pieces of the rest |
| Js.SplitWithoutSeparator | controllers/UrlController.js:54 | a string without the separator splits into itself alone |
| Js.LastPieceIsTail | controllers/UrlController.js:54 | the popped last piece is a suffix of the string, and it is either the whole string or preceded by the separator |
| UrlController.ShortUrl | controllers/UrlController.js:25 | the short URL is the base URL, then a '/', then the code, and nothing else |
| UrlController.CodeOf | controllers/UrlController.js:54 | the extracted code holds no '/', is a suffix of the short URL, and is the whole URL or follows its last '/' |
| UrlController.CodeOfShortUrl | controllers/UrlController.js:54 | for every base URL, the code extracted from `base + "/" + code` is `code` whenever `code` holds no '/' |
| Tables.Select | controllers/UrlController.js:21-23 | the lookup finds nothing exactly when no row matches; otherwise it finds the first matching row |
| Tables.SelectUnique | controllers/UrlController.js:56-58 | when a column is unique, looking up a stored row's value finds that very row |
| Tables.SelectAfterAppend | controllers/UrlController.js:21-32 | appending a row never changes what an earlier lookup found; it can only answer a lookup that found nothing |
| Tables.AppendKeepsUnique | controllers/UrlController.js:21-32 | inserting a row whose value is not yet stored keeps that column unique |
| Tables.AppendKeepsVisitsResolved | controllers/UrlController.js:32 | inserting into `urls` keeps every visit row pointing at a stored code |
| Tables.AppendVisitKeepsVisitsResolved | controllers/UrlController.js:71-86 | a visit row written only for a code the lookup found keeps every visit row pointing at a stored code |
| Tables.VisitCountZero | controllers/UrlController.js:82-86 | a code has no visits counted exactly when no visit row names it |
| Tables.VisitCountAppend | controllers/UrlController.js:82-86 | one new visit row adds one to its own code's count and nothing to any other code's count |
| Tables.InsertNewest | controllers/UrlController.js:114 | inserting into a newest-first sequence keeps it newest-first and adds exactly that one row |
| Tables.SortNewestFirst | controllers/UrlController.js:114 | `ORDER BY created_at DESC` gives a newest-first rearrangement of all rows |
| UrlController.Decode | controllers/UrlController.js:48-62 | 400 without a short URL; 500 on a rejected lookup; otherwise 404 exactly when no row has the extracted code, 200 whenever some row has it, and a 200 carries the long URL of a row with that code |
| UrlController.StoredCodeDecodes | controllers/UrlController.js:54-58 | when codes are unique, the short URL of every stored row whose code holds no '/' decodes to that row's long URL |
| UrlController.UnknownShortUrlNotFound | test.js:70-77 | decoding `https://example.com/abcdef` in tables without the code `abcdef` answers 404 "Short URL not found" |
| UrlController.CollisionShadowsNewRow | controllers/UrlController.js:31-32 | when the generated code is already taken, the new short URL decodes, under the first-in-insertion-order reading of the lookup, to the older row's long URL, not the one just encoded |
| UrlController.Statistics | controllers/UrlController.js:98-107 | 500 on a rejected lookup; otherwise 404 exactly when no row has the code, 200 with a row whenever some row has it, and a 200 carries a stored row with that code |
| UrlController.StatisticsOfStoredCode | controllers/UrlController.js:101-103 | with unique codes, the statistics of a stored code are exactly its row |
| UrlController.Format | controllers/UrlController.js:115-120 | a listed entry's short URL is the base URL, a '/' and the row's code; it carries the row's long URL, creation time and visit counter, and its short URL decodes back to the row's code |
| UrlController.FormatAll | controllers/UrlController.js:115-120 | `rows.map(...)` gives one entry per row, the i-th entry formatting the i-th row |
| UrlController.FormatPermutation | controllers/UrlController.js:115-120 | formatting two rearrangements of the same rows gives two rearrangements of the same entries |
| UrlController.List | controllers/UrlController.js:112-125 | 500 on a rejected query; otherwise 200 with one formatted entry per row, in newest-first order |
| UrlController.ListShowsEveryRow | controllers/UrlController.js:114-120 | every stored row is listed with its short URL, and every listed entry comes from a stored row |
| UrlController.VisitOf | controllers/UrlController.js:75-80 | the visit row carries the code, the client address and user agent, the `Referrer` header when it is truthy and else the `Referer` header, and a null location |
| UrlController.UrlStore.Encode | controllers/UrlController.js:13-42 | the full new state and answer for each case (400, 500, 200 with no insert, 201 with one inserted row, `visits` unchanged); the short URL handed out is the one a later lookup of the same long URL finds; well-formedness is kept when the code is fresh; the short URL decodes back to the long URL |
| UrlController.UrlStore.Redirect | controllers/UrlController.js:67-92 | `urls` unchanged; 500 or 404 with no visit row; otherwise one visit row with that code, the ip, user agent, referrer and a null location, followed by 302 to the stored long URL; each code's visit count grows by one exactly when a redirect is issued |
| UrlController.EncodeTwice | test.js:26-40 | encoding the same long URL twice gives the same short URL, and the second answer is 200, not new, "URL already shortened" |

## Left out

- The random generator `nanoid(6)` is not modelled. Its output is a parameter of `UrlStore.Encode`, so the model neither knows nor relies on its length or alphabet.
- UrlController.UrlStore.Encode: does not state that the code in the short URL has length 6, because that length comes from `nanoid(6)`, whose output is a parameter here.
- The environment variable `BASE_URL` is a parameter. When it is unset, the template turns it into the text "undefined"; that is the string passed in.
- The database assigns `created_at`, which comes in as a parameter. The `visits` column of a new row is taken to start at 0. The schema file is not part of this model, so neither default, nor any `id` column, nor constraints on the columns are modelled.
- A database uniqueness constraint on `code` is not modelled as such. Its effect, a rejected insert, is the insert-rejected case.
- Request fields are modelled as absent or a string. JSON bodies whose `longUrl` or `shortUrl` is a number, boolean, object or null are not modelled. That includes a non-string truthy `shortUrl`, which makes `split` throw outside the `try`.
- Express's `req.get` aliasing of the `Referrer` and `Referer` spellings is library behaviour and is not modelled. The model takes the two header values as `req.get` returns them and combines them with `||` as the handler does.
- A rejected database call is one outcome, with its message as `details`. The kinds of database errors and the connection pool (`models/db.js`) are left out.
- Strings are sequences of Unicode scalar values, while JavaScript strings are sequences of UTF-16 code units, so a request field holding a lone surrogate cannot be represented. Splitting on '/' and string equality are unaffected for every other string.
- Only the status and the body of each response are modelled. Headers, content types and JSON serialization are not.
- Concurrency between simultaneous requests and the async scheduling are left out. Each handler runs as one atomic step over the tables.
- The order of rows among equal `created_at` values is left open by the database. `SortNewestFirst` fixes one such order.
- UrlController.List: its contract states the order only up to rows with equal `created_at`, because the database does not define the order among them.
- Geo-IP lookup, user-agent parsing, visit-counter increments and statistics aggregation are not in the handlers, so they are not modelled.
- Routing (`routes/UrlRoutes.js`), server start-up (`index.js`), API documentation (`swagger.js`), the schema migration (`migrations/migration.js`) and the React front end (`UI/`) are not part of this model.
