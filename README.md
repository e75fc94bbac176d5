# TinyLink link table — a Dafny model

TinyLink is a URL shortener: an Express API over a single Postgres table
`links` (code, url, clicks, lastClicked, createdAt), with a React dashboard on
top. This project models what the API's handlers do to that table:

- **create** (`POST /api/links`) checks in a fixed order:
  1. the URL;
  2. the code, after `trim`, where a blank code counts as absent;
  3. the `^[A-Za-z0-9]{6,8}$` format;
  4. a conflict for a supplied code, or a bounded loop that draws random
     six-character codes.

  It then inserts one row.
- **list** (`GET /api/links`) returns every row, newest first.
- **stats** (`GET /api/links/:code`) reads one row.
- **delete** (`DELETE /api/links/:code`) removes one row, or reports not found.
- **redirect** (`GET /:code`) skips the reserved codes `api` and `healthz`. For a
  known code it adds one click, stamps the click time and redirects.

The model has two modules:

- `LinkRules` (`link_rules.dfy`) holds the pure parts as functions with
  contracts and lemmas: the record type, the error replies with their statuses
  and messages, JavaScript's `String.prototype.trim`, the code format, the
  random-code alphabet and candidates, the reserved codes, the short URL and
  the newest-first listing order.
- `LinkServer` (`link_server.dfy`) holds the class `LinkTable`. Its field
  `links: map<string, Link>` is the table; each handler is a method.

SQL statements become map operations. The inputs the server takes from outside
become parameters:

- `isWebUri` from the `valid-url` library is a function-valued field of the
  table, taken as given.
- `BASE_URL` is a field.
- The values `Math.floor(Math.random() * 62)` are a parameter `draws: nat -> CharIndex`.
  Draw `6k + i` is character `i` of candidate `k`.
- `NOW()` is a parameter `now`.

Two behaviours of the code are modelled explicitly:

- A `code` that is not a string (a JSON number, say) makes `code?.trim()`
  throw. The handler's `catch` turns that into a 500 "Server error" reply.
- `clicks` is a Postgres `INTEGER`. Incrementing it past 2147483647 makes the
  UPDATE fail, so the redirect answers 500 and changes nothing.

The table invariant `LinkTable.Valid` holds for every row:

- its code has the accepted format;
- its url passed the URL check;
- its click count fits the INTEGER column;
- `lastClicked` is null exactly when `clicks` is 0.

A generated code always satisfies the format (`CandidateIsValidCode`). A
consequence of the code format (`ReservedCodesAndFormat`): `healthz` is a
seven-letter code that create accepts when a client supplies it, but the redirect route always passes it on. A link created with
that code can never be followed.

`CREATE TABLE IF NOT EXISTS` keeps rows across restarts, so a restarted
server starts from the rows earlier runs left. Those rows satisfy `Valid`
because every handler keeps it, and every handler asks for nothing but
`Valid`, so each accepts such a table.

Create, delete and redirect also promise `RecordsEvolve`: a record that
survives a request keeps its url and creation time, and its click count does
not go down.

The created-link reply carries only the INSERT's `RETURNING` columns (code,
url, clicks, createdAt) plus `shortUrl`, so unlike the other replies it has no
`lastClicked`.

## Model

| member | source | states |
|---|---|---|
| `LinkRules.TrimStartIndex` | server/index.js:51 | trimming starts at the first non-whitespace character: everything before it is whitespace |
| `LinkRules.TrimEndIndex` | server/index.js:51 | trimming stops after the last non-whitespace character: everything after it is whitespace |
| `LinkRules.Trim` | server/index.js:51 | the result is a factor of the input with only whitespace on both sides, and neither starts nor ends with whitespace |
| `LinkRules.TrimUnique` | server/index.js:51 | any factor with only whitespace around it that neither starts nor ends with whitespace is the trimmed string |
| `LinkRules.TrimBlank` | server/index.js:51 | trimming yields the empty string exactly when the input is all whitespace |
| `LinkRules.NormalizeCode` | server/index.js:51 | `code?.trim() \|\| null`: a non-string is a TypeError; an absent or all-whitespace code is absent; otherwise the code is the trimmed, non-empty text |
| `LinkRules.PaddedCodeNormalizes` | server/index.js:51-53 | a code of the accepted format, with any whitespace around it, normalises to itself |
| `LinkRules.AlphabetIsAlnum` | server/index.js:59 | the generation alphabet has 62 characters, all ASCII letters or digits |
| `LinkRules.Candidate` | server/index.js:62 | a candidate has exactly 6 characters, each from the alphabet |
| `LinkRules.CandidateIsValidCode` | server/index.js:52-62 | every generated candidate matches the user-code format |
| `LinkRules.FirstFreeUnique` | server/index.js:60-67 | at most one attempt is the accepted one (free, all earlier ones taken, within 11 attempts), and when there is one, generation is not exhausted |
| `LinkRules.ReservedCodesAndFormat` | server/index.js:52-53 | "api" is reserved and fails the code format; "healthz" is reserved yet passes it |
| `LinkRules.ShortUrlRoundTrip` | server/index.js:78 | the path of a short URL under its base URL is exactly its code |
| `LinkRules.ShortUrlInjective` | server/index.js:78 | different codes give different short URLs under one base URL |
| `LinkRules.ListingCoversTable` | server/index.js:90 | a newest-first listing contains every record of the table |
| `LinkRules.NewestExists` | server/index.js:90 | a non-empty table has a record whose createdAt is not older than any other |
| `LinkRules.ListingExists` | server/index.js:89-92 | every table has a listing with each record exactly once, ordered by createdAt descending |
| `LinkServer.ClickEvolves` | server/index.js:135 | one click keeps the record's url and creation time, does not lower its count, and leaves every other record as it was |
| `LinkServer.ClickedAtCounts` | server/index.js:135 | following a record n times adds exactly n clicks, sets lastClicked to the last follow's time (unchanged for none), and keeps url and createdAt |
| `LinkServer.FollowedNewLink` | server/db.js:16-18 | a link inserted with the column defaults and then followed n times has n clicks, lastClicked null exactly when n = 0 (else the last follow's time), its url and its createdAt |
| `LinkServer.LinkTable.NewLinkWellFormed` | server/db.js:14-18 | the record an INSERT makes from the column defaults is a valid row for any accepted code and url |
| `LinkServer.LinkTable.ClickedWellFormed` | server/index.js:135 | one more click keeps a valid row valid exactly when its counter is below the INTEGER maximum |
| `LinkServer.LinkTable.FollowedWellFormed` | server/index.js:135 | a valid row stays valid through any number of follows that fit in the INTEGER counter |
| `LinkServer.LinkTable.constructor` | server/db.js:11-19 | a table created on first start is empty and satisfies the table invariant |
| `LinkServer.LinkTable.GenerateCode` | server/index.js:59-67 | returns the first free candidate among attempts 0..10, with every earlier candidate already taken; returns none exactly when all 11 candidates are taken |
| `LinkServer.LinkTable.ChooseCode` | server/index.js:48-68 | the checks before the INSERT, in order: URL (400), non-string code (500), trimmed code format (400), conflict (409) or generation exhausted (500); a chosen code is free and of the accepted format; reads the table only |
| `LinkServer.LinkTable.Create` | server/index.js:46-84 | runs ChooseCode's checks (same outcomes), so it checks the URL first (400), then non-string codes (500), then the trimmed code's format (400), then a conflict (409) or exhaustion of generation (500); nothing changes on an error; on success exactly one new record (url, 0 clicks, no last click, now) is added under a code not in the table, and the reply echoes it with `shortUrl`; the invariant is kept |
| `LinkServer.LinkTable.List` | server/index.js:87-92 | returns every record exactly once, ordered by createdAt, newest first |
| `LinkServer.LinkTable.Get` | server/index.js:100-110 | returns the record exactly when the code is in the table, otherwise not found (404); changes nothing |
| `LinkServer.LinkTable.Delete` | server/index.js:113-123 | removes exactly that code; an absent code gives not found (404), with the table unchanged |
| `LinkServer.LinkTable.Redirect` | server/index.js:126-141 | a reserved code passes through untouched; an unknown code gives 404, unchanged; a known code gets exactly one more click, lastClicked = now, others untouched, and redirects to its url; a full INTEGER counter gives 500, unchanged |
| `LinkServer.DeletedCodeIsGone` | server/index.js:100-132 | for a code other than `api` and `healthz`, after a delete the stats lookup and the redirect of that code both report not found |
| `LinkServer.SameCodeTwice` | server/index.js:55-79 | creating twice with one free valid code: the first echoes the code, the second conflicts (409), and exactly one record exists |
| `LinkServer.CreateThenFollow` | server/index.js:58-136 | a link created with a generated code can be followed; it then shows 1 click, lastClicked = the time of the redirect, the stored url and its creation time |

## Left out

- HTTP plumbing is not modelled. This covers Express routing and middleware,
  CORS and JSON parsing, static files, the single-page-app fallback, the
  health check route and the listening port (server/index.js:8-13, 43,
  143-150).
- Express matches routes case-insensitively, so `/HEALTHZ`, `/Healthz` and
  the other case variants of `/healthz` reach the health check route
  (server/index.js:43) before the redirect. They are valid codes that can be
  created but never followed. The model's Redirect treats them as ordinary
  codes and redirects them.
- Database I/O is not modelled: the connection pool, the `query` helper, the
  startup connection test and the table bootstrap (server/index.js:15-40,
  server/db.js:4-29). The bootstrap contributes only its column defaults
  (to `NewLink`) and an empty starting table (to the constructor). The
  surrogate `id` column is not modelled. It is a `SERIAL`, an INTEGER
  sequence (server/db.js:13), so after 2147483647 inserts `nextval` fails and
  every later create would answer 500 "Server error"; the model's Create has
  no such bound.
- Unexpected database errors are not modelled. Every handler would answer 500
  "Server error" on one. The only 500 "Server error" replies modelled are the TypeError on a
  non-string code and the INTEGER overflow of `clicks`.
- A `url` field that is present but not a string is not modelled. What
  happens depends on the `valid-url` library, which is not part of this model.
  A request's `url` is either absent or a string.
- `isWebUri`, `Math.random` and `NOW()` are inputs, not implementations. There
  is no claim about the distribution of random codes, and none about the clock.
  In particular, `lastClicked` is non-decreasing only if the clock is.
- Concurrency is not modelled: neither the gap between the redirect's lookup
  and its UPDATE nor two creates racing for one code. The model runs one
  request at a time.
- LinkServer.LinkTable.List: rows created at the same instant may come in any
  order, as ORDER BY leaves them. The model picks one such listing
  nondeterministically and does not fix the order the database would use.
- The GET stats query (server/index.js:103) and the create INSERT's
  `RETURNING` list (server/index.js:71) name the columns with mixed case but
  without quotes. Postgres therefore returns the keys `lastclicked` and
  `createdat` in the stats reply and `createdat` in the create reply. This key
  casing is not modelled; a row and the created reply have one field for each.
- The React client is not modelled (client/src/App.jsx, pages/Dashboard.jsx,
  pages/Stats.jsx, components/LinkRow.jsx). It is rendering, polling and
  clipboard code.
