# url-shortener: a Dafny model of the short-link core

The service accepts a long URL and returns a short link. The create handler
(`shortenURLHandler`) first checks that the URL starts with `http://` or
`https://`. It then generates 6-character IDs from the alphabet
`[a-zA-Z0-9]` until a lookup in the `urls` table reports "no rows", and
inserts one record `(id, original, created_at)`. The resolve handler
(`redirectHandler`) looks an ID up. It redirects (301) to the stored URL,
answers 404 "Short URL not found", or answers 500 "Database error" on any
other read failure.

The project has two modules:

- `ShortId` (`short_id.dfy`) models `charset` and `generateShortID`. The
  random source becomes an injected stream of draws. Each draw is an index
  in `[0, 62)`, the range `rand.Intn(len(charset))` returns. The method
  `GenerateShortId` is the builder loop. It is proved equal to the function
  `IdFromDraws`, and that function is proved to reach every alphanumeric
  string and to be injective.
- `Shortener` (`shortener.dfy`) models the `urls` table as a
  `map<string, ShortURL>` held in the `urls` field of class `App`. The
  class method `App.Shorten` is the create handler up to the insert. Its
  generate-and-check `while` loop is proved against the pure
  specification `ShortenSpec` / `FindFreeId`, and the service's properties
  are lemmas about that specification. The resolve flow is read-only, so it
  is the function `Resolve` over the table.

What the database and the clock would decide is passed in. For a create
request, an `Env` holds:

- the draws;
- the set of lookup numbers whose `SELECT` fails with an error other than
  "no rows";
- whether the insert fails;
- the timestamp stored as `createdAt`.

A resolve request takes a `readFails` flag.

The Go loop `for { ... }` has no bound. Here the loop is driven by the
finite stream of draws. When fewer than 6 draws remain, the model ends
with the outcome `CandidatesExhausted`. The source has no such outcome: it
would keep drawing. Every other outcome has the same branches, messages
and status codes as the source.

As in the source, the retry loop has no cap on the number of attempts, and
a failed insert is answered with "Failed to save URL" rather than retried
with a new ID.

## Model

| member | source | states |
|---|---|---|
| `ShortId.CharsetIsSourceAlphabet` | main.go:65 | The alphabet has 62 characters and is exactly the source's `charset` string. |
| `ShortId.CharsetIsAlphanumeric` | main.go:65 | Every alphabet entry is in `[a-zA-Z0-9]` and sits at its own index, so no character repeats. Every character of `[a-zA-Z0-9]` is in the alphabet (both directions). |
| `ShortId.CharsetIndex` | main.go:65 | Every alphanumeric character occurs in the alphabet, at the returned index below 62. |
| `ShortId.CharsetAt` | main.go:65 | Alphabet entry `k` is alphanumeric, and `k` is its index. |
| `ShortId.IdFromDraws` | main.go:67-73 | The generated ID has one character per draw. Character `k` is `charset[draw k]` and is alphanumeric. |
| `ShortId.DrawsFor` | main.go:70 | For an alphanumeric string, gives valid draws of the same length; draw `k` selects character `k` of the string. |
| `ShortId.GeneratorReachesEveryId` | main.go:67-73 | Every alphanumeric string is generated by some draws, so the whole ID space is reachable. |
| `ShortId.DrawsRecoverable` | main.go:67-73 | The draws can be read back from the ID. Distinct draws give distinct IDs, so uniform draws give uniform IDs. |
| `ShortId.GenerateShortId` | main.go:67-73 | The builder loop returns exactly `length` characters, each `charset[draw i]` and alphanumeric, equal to `IdFromDraws` of the first `length` draws. |
| `Shortener.HasPrefix` | main.go:81 | `strings.HasPrefix` holds exactly when `prefix` is a prefix of `s`. |
| `Shortener.ValidScheme` | main.go:81 | A URL passes the check exactly when it starts with `http://` or `https://`. A passing URL is at least 7 characters long and begins with `http`. |
| `Shortener.Candidate` | main.go:88 | `generateShortID(6)` on the next draws gives a well-formed ID: 6 alphanumeric characters. |
| `Shortener.Select` | main.go:130-137 | A `Scan` by ID reports a read error exactly when the database errs. Otherwise it returns the stored row exactly when the ID is present, and "no rows" exactly when it is absent. |
| `Shortener.ShortenOutcome.Status` | main.go:82-126 | The create handler answers 200 exactly on success, 400 exactly for an invalid URL, and 500 exactly for a failed lookup or a failed insert. |
| `Shortener.ShortenOutcome.Message` | main.go:82-107 | The error text is "Invalid URL", "Database error" or "Failed to save URL", each for exactly one failure. |
| `Shortener.RedirectOutcome.Status` | main.go:134-140 | The resolve handler answers 301 exactly on a redirect, 404 exactly for a missing ID, and 500 exactly on a read error. |
| `Shortener.RedirectOutcome.Message` | main.go:134-137 | The error text is "Short URL not found" exactly for a missing ID and "Database error" exactly on a read error. |
| `Shortener.Candidates` | main.go:87-88 | The loop's candidates are all well-formed IDs. There are none exactly when fewer than 6 draws are available. |
| `Shortener.CandidatesCount` | main.go:87-88 | There is one candidate per whole 6 draws: the number of draws divided by 6, rounded down. |
| `Shortener.CandidatesAt` | main.go:87-88 | Candidate `j` is `generateShortID(6)` on draws `6j` to `6j+5`, in order. |
| `Shortener.FindFreeId` | main.go:87-97 | The loop ends on a free ID only when that lookup did not fail and the ID is absent from the table; the ID is well formed. It ends on an error only when that lookup failed. |
| `Shortener.TracedDecides` | main.go:87-97 | When every lookup before `j` collided without error, lookup `j` decides the loop: it aborts there if lookup `j` failed, and ends on candidate `j` if that lookup found no row. |
| `Shortener.FindFreeIdTrace` | main.go:87-97 | The loop retries only on collisions: every lookup before the deciding one found a row without failing. It ends on the first failed lookup or the first "no rows", and runs out of draws only after every candidate collided. |
| `Shortener.ShortenAbortsOnLookupError` | main.go:87-93 | If lookup `j` fails after `j` collisions, the create answers "Database error" after exactly `j + 1` lookups and the table is unchanged. |
| `Shortener.ShortenTakesFirstFreeCandidate` | main.go:87-104 | If candidate `j` is absent and its lookup succeeds after `j` collisions, the create uses candidate `j` after exactly `j + 1` lookups. It inserts it, or answers "Failed to save URL" when the insert fails. |
| `Shortener.ShortenSpec` | main.go:81-104 | A URL is rejected as "Invalid URL" exactly when it lacks both prefixes. No failure writes to the table. A success picks a fresh well-formed ID and inserts exactly the record `(id, url, now)` under it. |
| `Shortener.ShortenLookups` | main.go:81-104 | A rejected URL issues no lookup. Otherwise every lookup before the last one found a row without failing. "Database error" follows a failed last lookup. An insert, or a failed insert, follows a last lookup that reported "no rows", and inserts that lookup's candidate. The draws run out only after every candidate collided. |
| `Shortener.Resolve` | main.go:128-140 | A present ID redirects to its record's `Original`. An absent ID is "Short URL not found". A read error is "Database error". Each case holds in both directions. |
| `Shortener.ShortenPreservesInvariant` | main.go:99-104 | After a create, every record is still stored under its own ID, has a well-formed ID, and has an http(s) URL. |
| `Shortener.ShortenAddsOneRecord` | main.go:99-104 | A successful create adds exactly one key, grows the table by one, and keeps every existing record. |
| `Shortener.ResolveAfterShorten` | main.go:99-140 | After a successful create, the new ID resolves to the submitted URL. Before the create it resolved to not-found. Every other ID resolves as before. |
| `Shortener.RunShortens` | main.go:75-108 | Create requests handled one after another give one outcome per request. No key is lost, and the table grows by exactly the number of issued IDs. |
| `Shortener.RunKeepsRecords` | main.go:99-104 | Over sequential creates, no existing record is changed or removed. |
| `Shortener.RunIssuesFreshLastingIds` | main.go:87-104 | Over sequential creates, every issued ID was absent from the initial table. At the end it still resolves to the URL it was issued for. |
| `Shortener.RunIssuesDistinctIds` | main.go:87-104 | Sequential creates never issue the same ID twice. |
| `Shortener.App.constructor` | main.go:173-178 | The service starts over whatever table exists, unchanged. The table invariant holds exactly when the given records satisfy it. |
| `Shortener.App.Shorten` | main.go:75-108 | The handler's loop and insert compute exactly `ShortenSpec`: the outcome, the new table and the number of `SELECT`s issued. A table that satisfied the table invariant still does. After a success, the new ID resolves to the URL. |

## Left out

- Request binding ("Invalid request body", main.go:76-79) and the JSON and
  redirect responses are not modelled. The outcomes are datatypes with
  their status codes and messages.
- Building the returned short URL (`SERVER_URL`, the TLS/Host fallback and
  `url.Parse`, main.go:110-125) is environment and library code. In the
  source, a `url.Parse` failure answers "Failed to save URL" after the
  record has already been inserted. The model does not capture this.
- `math/rand` is replaced by injected draws in `[0, 62)`, and `time.Now()`
  by an integer timestamp parameter. Statistical uniformity is captured
  only through injectivity and reachability of the draws-to-ID map.
- The ORM and database drivers (bun, SQLite/Postgres selection, `initDB`)
  are not modelled. The table is an in-memory map. Which reads fail and
  whether the insert fails are injected, not derived from a database.
- Concurrent requests and the race between the check and the insert are
  not modelled. Requests are handled one after another.
- The unbounded candidate loop runs on a finite draw stream. When the
  stream runs out, the model returns `CandidatesExhausted`. The source has
  no such outcome: it keeps looping.
- Go strings are byte strings. The model uses `seq<char>`, reading each
  `char` as one byte. The prefix check against `http://` and `https://`,
  the alphabet, and the key comparisons of `Select` then agree with the
  byte-wise comparisons of the source.
- Logging (`log.Println` at main.go:106, 118 and 121) has no effect on the
  outcome or the table, so it is not modelled.
- Startup is not modelled: the `-version` flag, the embedded static assets,
  route registration and the server start (main.go:143-192). The browser
  script `assets/static/app.js` is user interface only.
