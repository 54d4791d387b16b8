# recipe-echo: file ingestion and seen-file tracking, modelled in Dafny

recipe-echo is a small file-hosting service written in Go (`main.go`). An
upload is stored in an S3-compatible object store under a key derived from
the upload time and the file name. A row in the Postgres table `files` then
records the file's name, retrieval URL and size, and a notification mail can
be sent. Listing the home page shows the five newest files. Each one is
marked `Seen` when the browser session has opened its detail page, and
opening a detail page adds the file's id to the session's `seen_files` list.

This project models that core:

- `formats.dfy` (module `Formats`): the strings the pipeline computes. These
  are Go's `%d` for a non-negative integer, the object key `<unix>_<name>`,
  the catalog URL `<endpoint>/<bucket>/<key>` and the mail body. Each format
  has a parser as its partner, and round-trip lemmas connect the two.
- `catalog.dfy` (module `Catalog`): the `files` row, the `File` record, the
  lookup by id, and the listing query `ORDER BY created_at DESC LIMIT 5`
  (a stable insertion sort, then the first five).
- `seen_files.dfy` (module `SeenFiles`): reading `seen_files` from the
  session, the conditional append, and the session object with `Save`.
- `handlers.dfy` (module `Handlers`): the `GET /` listing and the
  `GET /detail/:id` handler, up to the point where they render.
- `ingestion.dfy` (module `Ingestion`): `insertFile` as a class `Handler`
  over three abstract stores. The stores are an object map, the catalog rows
  with the next serial id, and the outbox of mails handed to the relay. The
  same behaviour is also written as a function, `Ingest`, and the lemmas
  about failure points and retrieval are stated over that function.
- `outcomes.dfy` (module `Outcomes`): `Option` and `Result`.

External calls are abstracted. Every call that can fail takes a boolean
saying whether it succeeded: `PutObject`, the `INSERT`, the mail send,
`session.Get`, `s.Save` and the queries. The clocks are parameters.
`time.Now().Unix()` becomes `now` (Unix seconds), and the database's `now()`
for `created_at` becomes `dbNow`, a database timestamp in the database's own
units, so two uploads in the same second still get distinct, ordered times.

Two behaviours of the code are kept as written:

- A detail lookup for a missing id returns the generic `Scan` error, the
  same as any other query failure. There is no distinct "not found" outcome.
- The mail body is spelled "succesfully", as in the code.

## Model

| member | source | states |
|---|---|---|
| `Formats.Decimal` | main.go:311 | `%d` of a natural is a non-empty string of digits with no leading zero |
| `Formats.DecimalRoundTrip` | main.go:311 | reading back the printed digits gives the number |
| `Formats.DecimalOfValue` | main.go:311 | every canonical digit string is what `%d` prints for its value, so `%d` is a bijection onto canonical strings |
| `Formats.ParseDecimal` | main.go:311 | the parser accepts exactly the strings `%d` can print and inverts it |
| `Formats.SplitObjectKey` | main.go:311 | a key that splits into a timestamp and a name is exactly the key formatted from them |
| `Formats.ObjectKeyRoundTrip` | main.go:311 | the key `<unix>_<filename>` splits back into the Unix seconds and the original file name, whatever the name contains |
| `Formats.ObjectKeyInjective` | main.go:311 | two uploads share a key only when they happen in the same second with the same file name |
| `Formats.ObjectKeyOfUrl` | main.go:322 | a URL yields a key exactly when it starts with `<endpoint>/<bucket>/`, and then the URL is that key's catalog URL |
| `Formats.UrlRoundTrip` | main.go:322 | the catalog URL `<endpoint>/<bucket>/<key>` leads back to the stored key |
| `Formats.SplitTrailingNumber` | main.go:334 | a split into head, separator and number reassembles to the input |
| `Formats.SplitTrailingNumberRoundTrip` | main.go:334 | the size printed after ` - ` is found again whatever the key holds |
| `Formats.ParseMailBody` | main.go:334 | a body that parses is exactly the body formatted from the parsed key and size |
| `Formats.MailBodyRoundTrip` | main.go:334 | the body `File <key> - <size>B succesfully uploaded to s3.` reads back as the key and size |
| `Catalog.FindRow` | main.go:155-159 | the lookup returns a row of the catalog with the requested id, and fails exactly when no row has that id |
| `Catalog.FindRowAfterAppend` | main.go:155-159 | after appending a row with a new id, that id finds the new row and every other lookup is unchanged |
| `Catalog.InsertByCreated` | main.go:117 | inserting into a newest-first sequence keeps it newest first and adds exactly one row |
| `Catalog.SortByCreatedDesc` | main.go:117 | `ORDER BY created_at DESC` yields a newest-first permutation of the catalog |
| `Catalog.RecentRows` | main.go:117 | the listing query returns min(5, catalog size) catalog rows, newest first, and no row left out is newer than one returned |
| `Catalog.TakeNewest` | main.go:117 | the first k rows of a newest-first sequence are newest first, and no row after them is newer |
| `SeenFiles.MarkSeen` | main.go:169-171 | after marking, the id is in the list; the ids are the old ones plus this id; the old list is an unchanged prefix with at most one id appended; the list is unchanged exactly when the id was present; no duplicates are introduced |
| `SeenFiles.MarkSeenIdempotent` | main.go:169-171 | marking the same id twice gives the same list as marking it once |
| `SeenFiles.ViewAllKeepsSeenSet` | main.go:165-172 | after any sequence of detail views from any stored list, a duplicate-free list stays duplicate-free; the list keeps its old contents as a prefix, and holds exactly the old ids and the viewed ids |
| `SeenFiles.Session.constructor` | main.go:161-164 | the session as loaded holds the stored values |
| `SeenFiles.Session.Save` | main.go:173-176 | a successful save persists the edited values; a failed one persists nothing and reports an error |
| `Handlers.AnnotateRows` | main.go:123-134 | the loop's output has one file per row, in row order, each equal to the scanned row with `Seen` set exactly when its id is in the list |
| `Handlers.AnnotatedListing` | main.go:117-134 | the annotated listing has at most 5 files, newest first, `Seen` exactly for the session's ids, and otherwise equals the query rows |
| `Handlers.ListFiles` | main.go:106-141 | a `session.Get` error or a query error is returned; otherwise the result is the annotated listing of the query rows |
| `Handlers.ViewDetail` | main.go:150-180 | a failed lookup or a `session.Get` error returns before the session changes; otherwise the id is marked seen in the session values, a failed save returns an error and persists nothing, and success returns the scanned row with `Seen` false |
| `Handlers.ViewThenList` | main.go:130-132 | after a detail view, the listing marks the viewed file seen and keeps every other file's mark and fields |
| `Ingestion.IngestKeepsConsistent` | main.go:313-327 | whatever steps fail, serial ids stay increasing and below the next id, and every catalog row still points at a stored object |
| `Ingestion.IngestResult` | main.go:313-341 | an error is returned exactly when a step that ran failed, and then the id is 0; on success the id is the new row's serial id; each error names the first failed step |
| `Ingestion.IngestFailureEffects` | main.go:313-338 | a failed put changes nothing; a failed insert leaves the stored object orphaned and adds no row or mail; a failed mail still leaves the new row appended after the old rows, the serial advanced and no mail queued |
| `Ingestion.IngestThenFind` | main.go:318-341 | after a success, exactly one object is written (every other key unchanged) and exactly one row is appended after the old rows with the serial advanced; the returned id finds a row with the file's name, size and creation time; its URL leads to the derived key, which holds exactly the uploaded bytes; other lookups are unchanged; a mail is queued exactly when requested |
| `Ingestion.IngestThenListed` | main.go:319-324 | after a successful upload whose database timestamp is later than every existing row's, the listing query returns the new row first |
| `Catalog.ListingHeadIsNewest` | main.go:117 | the first row of the listing is at least as new as every catalog row |
| `Catalog.NewestRowListedFirst` | main.go:117 | a row newer than every catalog row heads the listing once added |
| `Ingestion.UploadMailDescribesUpload` | main.go:330-334 | the notification has the fixed sender, recipient and subject, and its body reads back as the stored key and size |
| `Ingestion.Handler.constructor` | main.go:302-307 | a fresh handler's stores are empty, serial ids start at 1, and the stores are consistent |
| `Ingestion.Handler.PutObject` | main.go:313-316 | a successful put stores the bytes under the key and reports the key and byte count; a failed put stores nothing |
| `Ingestion.Handler.InsertRow` | main.go:319-327 | a successful insert appends one row with the next serial id and returns that id; a failed one changes nothing |
| `Ingestion.Handler.SendMail` | main.go:335-338 | a sent mail joins the outbox; a failed send leaves it unchanged |
| `Ingestion.Handler.InsertFile` | main.go:310-342 | the stores, the returned id and the error are exactly what `Ingest` prescribes for the same inputs and step outcomes, and consistent stores stay consistent |

## Left out

- HTTP routing, middleware (logger, CSRF, sessions), redirects, static files and template rendering (main.go:88-104, 143-146, 178-180, 183-208, 222-230). These are framework plumbing. The handlers are modelled up to the value they would render.
- The `POST /upload` handler (main.go:183-204). It only reads the multipart field and calls `insertFile` with `sendEmail` true, which `Ingestion.Handler.InsertFile` covers.
- `NewHandler` and `Close` (main.go:239-308). These read environment variables and build clients. The endpoint and bucket appear as `Config`, and the clients appear as abstract store state.
- The seed bootstrap (main.go:59-85). This is filesystem and migration I/O. Each seed file goes through `insertFile` with `sendEmail` false, and the first error aborts, so it adds nothing beyond `InsertFile`.
- The real behaviour of `PutObject`, SQL execution, `DialAndSendWithContext` and `s.Save`. Each is one step that either succeeds or fails.
- Ingestion.Handler.PutObject: assumes a successful put reports the requested key and the number of bytes the reader yielded. The length hint `size` passed to `PutObject` is therefore not modelled.
- Ingestion.Handler.InsertRow: a failed insert leaves the serial counter unchanged. Postgres may consume a sequence value on a failed insert, so real ids can have gaps; the model's gap-free ids are one admissible behaviour.
- Catalog.SortByCreatedDesc: the database leaves the order of rows with exactly equal `created_at` timestamps open. The model fixes one order (stable insertion, earlier catalog row first). `RecentRows` states only what holds for every admissible order.
- Handlers.ListFiles: a `Scan` error on a row and a `rows.Err()` error (main.go:126-129, 136-139) are folded into the single query-failure flag.
- Handlers.ViewDetail: the id comes from the URL as text, and Postgres converts it to an integer. The model takes the id as a natural, so a malformed id shows up only as a failed lookup.
- Integer widths: ids (`uint64`), sizes (`int64`) and Unix seconds are unbounded naturals. Overflow is not modelled, and times before 1970 are not modelled.
- Concurrency, key collisions between concurrent uploads, and request cancellation. These belong to the context and the external stores. `ObjectKeyInjective` states when two keys can collide.
- `time.Now()` and the database clock are parameters (`now`, `dbNow`).
