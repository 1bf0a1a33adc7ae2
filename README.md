# Movie ratings: search normalisation and the rated-movie table

A model of the two pieces of behaviour in the movie-rating web application's
`main.py`:

- **Catalog search normalisation** (module `Catalog`, `catalog.dfy`). The
  search handler asks the external movie catalog for a query, and then turns
  the answer into movie entries. The model starts from the answer: a status code
  and the parsed `results` list. A status other than 200 fails with HTTP 400
  "Failed to fetch movies". Otherwise the first five raw records (Python's
  `results[:5]`) are mapped, in order, into `Movie` entries. `id` and `title`
  are copied. `year` is the first four characters of a present, non-empty
  `release_date`. `poster_path` is `https://image.tmdb.org/t/p/w500` followed
  by a present, non-empty raw poster path. A search result never has a rating.
- **The rated-movie table** (module `Store`, `store.dfy`). This is the SQLite
  table `movies`, keyed by `id INTEGER PRIMARY KEY`, with `title` and `rating`
  NOT NULL. It is modelled as the class `MovieTable`, whose state says whether
  the table has been created and which rows it holds. `Init` is
  `CREATE TABLE IF NOT EXISTS`. `Add` is the `add_movie` handler: first the
  rating gate, then one `INSERT`. `ListAll` is the home page's
  `SELECT * FROM movies` turned into movie entries. All contracts describe the
  table keyed by id (`Table()`), so no listing order is promised: SQL gives
  none without `ORDER BY`.
- Shared types live in `movies.dfy` (`Movie`, and the `Error` a handler can
  raise) and `outcomes.dfy` (`Option`, `Result`, `Outcome`).

Outcomes that the source signals by raising exceptions are results here. The
two `HTTPException`s are `HttpError(400, …)`. SQLite's duplicate-key failure is
`IntegrityError("UNIQUE constraint failed: movies.id")`. Using the table before
it exists gives `OperationalError("no such table: movies")`. An id outside
SQLite's 64-bit INTEGER range cannot be bound and gives Python's
`OverflowError("Python int too large to convert to SQLite INTEGER")`.

The model follows what `main.py` does:
- Any non-200 upstream status gives 400 "Failed to fetch movies" and is not
  forwarded. The test suite expects 503 on a transport error and a forwarded
  401 (tests/test_main.py:83-97); `main.py` does neither.
- A duplicate id is not overwritten: the `INSERT` fails on the PRIMARY KEY,
  and `add_movie` does not catch the error.
- `SELECT * FROM movies` has no `ORDER BY`, so rows come back in no promised
  order.

## Model

| member | source | states |
|---|---|---|
| Catalog.Take | main.py:82 | Python's `s[:n]`: the result has `min(n, |s|)` elements, each equal to the element of `s` at the same index |
| Catalog.Year | main.py:79 | the year is present exactly when the release date is present and non-empty, and then it is the first `min(4, |date|)` characters of the date |
| Catalog.YearOfFullDate | main.py:79 | a release date of at least four characters (an ISO date) yields exactly its first four characters |
| Catalog.PosterUrl | main.py:80 | the poster URL is present exactly when the raw path is present and non-empty, and then it is the fixed image base followed by the raw path, unchanged |
| Catalog.PosterUrlRoundTrip | main.py:80 | the raw poster path can be recovered from the URL built from it by stripping the image base |
| Catalog.PosterUrlInjective | main.py:80 | two present raw poster paths give the same URL only when they are equal |
| Catalog.Normalize | main.py:36-41 | a normalised record keeps the raw `id` and `title`, derives `year` and `poster_path` by the rules above, and has no rating |
| Catalog.NormalizeAll | main.py:75-83 | the comprehension keeps length and order: entry i is the normalisation of raw record i |
| Catalog.Search | main.py:71-83 | fails with 400 "Failed to fetch movies" if and only if the status is not 200; on success it returns `min(5, |results|)` entries, and entry i is the normalisation of raw record i |
| Catalog.NormalizeAllAppend | main.py:75-83 | normalising a concatenation is the concatenation of the normalised parts, so each entry depends only on its own record |
| Catalog.SearchIgnoresTail | main.py:82 | once there are five raw records, records appended after them never change the search result |
| Catalog.SearchPrefix | main.py:75-83 | searching a prefix of the raw records gives a prefix of the full search result, so order is preserved |
| Catalog.SearchIds | main.py:76-78 | every result of a successful search has no rating, and result i has the id and title of raw record i |
| Store.RecordMovie | main.py:49 | a stored row becomes a movie entry with the same id and a present rating |
| Store.RecordMovies | main.py:48-51 | the row comprehension keeps length and order, and converts each fetched row |
| Store.ListsTable | main.py:47-51 | when the stored ids are distinct, converting every fetched row lists the table: each row once, with unchanged fields, and nothing else |
| Store.MovieTable.Init | main.py:20-32 | afterwards the table exists; the stored rows are unchanged, so a second call changes nothing |
| Store.MovieTable.Add | main.py:98-108 | a rating outside 1..5 fails with 400 "Rating must be between 1 and 5"; then a missing table fails; then an id outside the 64-bit INTEGER range fails with OverflowError; then an id already in the table fails on the PRIMARY KEY; each failure leaves the rows unchanged; otherwise the table gains exactly the submitted row under its id and every other row is kept; stored ratings stay in 1..5 and ids stay unique 64-bit integers |
| Store.MovieTable.ListAll | main.py:45-51 | on a created table it returns every stored row exactly once, with its fields unchanged and a rating in 1..5, and nothing else; without the table it fails |
| Store.MovieTable.AddThenList | tests/test_main.py:41-54 | adding a valid rating under a fresh 64-bit id and then listing keeps the table valid and shows the submitted entry, every earlier row, and one more entry than before |

## Left out

- The HTTP request to the catalog (`httpx.AsyncClient`, the API key, query parameters, `response.json()`) is left out because it is network I/O. The status code and the parsed `results` list are inputs to `Catalog.Search`.
- A transport error from the catalog is not modelled, because the code does not catch it. The same goes for a response without `results` and a raw record without `id` or `title`: each raises an unhandled exception in the code.
- Pydantic validation and coercion of `Movie` fields is not modelled. Raw `release_date` and `poster_path` are taken to be strings or absent. The model assumes Pydantic v1 semantics, where `year: str = None` and `poster_path: str = None` (main.py:39-40) accept an explicit `None`, so an absent year or poster is an ordinary result: `Year`/`PosterUrl` returning `None` inside `Normalize`/`Search`, and a NULL `year`/`poster_path` row in `RecordMovie`. Under Pydantic v2 an explicit `None` for a `str` field is rejected, so main.py:79-80 and main.py:49 would raise `ValidationError` on exactly those records; the model does not capture that. FastAPI's `Form` coercion of strings to integers is not modelled either.
- FastAPI routing, template rendering, static files, the 303 redirect after a successful add, and `uvicorn` startup are presentation and framework glue.
- The SQLite connection, cursor, commit and the `movies.db` file path are abstracted to one in-memory table per `MovieTable` object. Each statement takes full effect or none. Concurrent requests on the same file are not modelled.
- The NOT NULL constraints on `title` and `rating` cannot be violated in the model: both are always present in its types, just as `add_movie` requires both form fields.
- The model keeps rows in append order, but no contract exposes that order. The order in which SQLite returns rows is not modelled.
