# autoscout sync core in Dafny

This project models the logic under the autoscout24 listing scraper, in three parts:

- **Listing normalisation.** Each raw listing from the site's JSON endpoint becomes one flat car record. Missing fields get fixed defaults. The detail array is folded into a feature map. The link is absolute.
- **The listing store.** The `car_listings` table is keyed by listing id and has three operations:
  - an upsert that reports a new listing exactly when the id was absent;
  - a retention purge of rows whose `updated_at` is strictly before `now - days`;
  - a row count.

  Every storage failure falls back to a safe default.
- **The sync loop.** `scrape_listings` does three things:
  - it rewrites `page=1` in the endpoint URL for each configured page (`[1, 2]`);
  - it upserts every listing that parses, and counts the new ones;
  - it returns 0 when any page-level fetch or decode fails, while earlier upserts stay in the store.

Modules:

- `Wrappers` holds `Option`.
- `Config` holds the configuration constants the logic reads.
- `Text` holds the Python string behaviour used: `str.strip()`, `str.replace`, and `str(int)`.
- `Utils` holds `format_price`, `extract_vehicle_features` and `build_car_url`.
- `Database` holds the row types, the table as a `map<string, StoredRow>`, and the class `DatabaseManager`.
- `Scraper` holds the parser, `_get_random_headers`, the page URL rewrite, the page decoding, and two versions of the sync:
  - a fold-left specification (`SyncPages`);
  - the imperative loop `ScrapeListings`, which calls the store's methods and is proved equal to that specification.
- `SyncProperties` proves what the sync guarantees about the specification.

`DatabaseManager.Valid()` is the PRIMARY KEY constraint of the table (src/database.py:36): every row is stored under its own id. The constructor requires it of an existing table, and every method keeps it. No other contract depends on it; it records that a table the program could build never holds a row under an id other than its own.

External effects become parameters:

- The clock is an integer number of seconds, `now`.
- A storage failure is a `fault` flag on each store method. In the sync it is an oracle `fault(page, position)`.
- The HTTP client is a total function `fetch` from URL to `FetchResult`.

## Model

| member | source | states |
|---|---|---|
| Text.Strip | src/scraper.py:57 | `.strip()` yields a slice of its input whose dropped prefix and suffix are all whitespace, and that slice is empty or has no whitespace at either end |
| Text.StripKeepsClean | src/scraper.py:57 | a string with no outer whitespace is left unchanged by stripping |
| Text.StripEmptyIff | src/scraper.py:57 | stripping gives "" exactly when every character is whitespace |
| Text.StripTrailingSpace | src/scraper.py:57 | a single space appended to a clean string is removed by stripping |
| Text.Replace | src/scraper.py:101 | `str.replace`: with a non-empty pattern and a replacement of the same length the result has the length of the input; with an empty pattern the result is longer by exactly the replacement's length times one more than the input's length |
| Text.ReplaceKeepsPrefix | src/scraper.py:101 | when no occurrence of a non-empty pattern starts before position `i`, the first `i` characters come through unchanged and the rest is replaced on its own |
| Text.ReplaceFirst | src/scraper.py:101 | when the first occurrence of a non-empty pattern starts at `i`, the result is the text before it, then the replacement, then the replaced remainder after that occurrence |
| Text.ReplaceSelf | src/scraper.py:101 | `str.replace(p, p)` is the identity, for every pattern including "" |
| Text.ReplaceAbsent | src/scraper.py:101 | replacing a non-empty pattern that does not occur leaves the string unchanged |
| Text.NatToDecimal | src/scraper.py:101 | the decimal rendering of the page number is non-empty, made of digits only, and has no leading zero |
| Text.IntToDecimal | src/scraper.py:101 | `str(n)` for the page number is non-empty, starts with "-" exactly when the number is negative, and the digits after that optional sign are digits only and read back as the number's absolute value |
| Text.NatToDecimalRoundTrip | src/scraper.py:101 | reading the decimal rendering back gives the original number |
| Utils.FormatPrice | src/utils.py:49 | `priceFormatted` when the price object is present and has it; "Unknown price" when the object is absent, empty or lacks it |
| Utils.FeaturesOf | src/utils.py:62-68 | the feature map is empty for no details and never has more entries than there are details |
| Utils.FeatureKeys | src/utils.py:63-67 | the feature map's keys are exactly the non-empty `iconName` values of the details |
| Utils.FeatureLastWins | src/utils.py:65-67 | the value under an icon name is the `data` of the last detail carrying it, and "Unknown" when that detail has no `data` |
| Utils.ExtractVehicleFeatures | src/utils.py:62-68 | the loop builds the folded feature map, whose keys are the non-empty icon names, with at most one entry per detail |
| Utils.BuildCarUrl | src/utils.py:82 | the link is the base URL followed by the relative URL: base as prefix, URL as suffix, lengths adding up, the bare base for "" |
| Database.Upsert | src/database.py:70-116 | the row for the id is added if absent; it carries the supplied fields with `updated_at = now` and `created_at` kept, or `now` for a new row; other rows are untouched |
| Database.UpsertSize | src/database.py:76-116 | the table grows by exactly one row when the id was absent and keeps its size otherwise |
| Database.UpsertKeepsWellKeyed | src/database.py:36 | after an upsert every row is still stored under its own primary key |
| Database.Expired | src/database.py:149-150 | defines the rows `WHERE updated_at < ?` selects, by id; `Database.Purge` and `DeleteOldCars` are stated with it |
| Database.Cutoff | src/database.py:147 | defines `datetime.now() - timedelta(days=days)` on the seconds clock; `DeleteOldCars` purges at it |
| Database.Purge | src/database.py:147-153 | exactly the rows with `cutoff <= updated_at` survive, unchanged; the number removed is the number of expired rows |
| Database.UpsertTwice | src/database.py:70-125 | upserting an absent id twice adds one row holding the second call's fields, the first call's `created_at` and the second call's `updated_at` |
| Database.FreshRowSurvives | src/database.py:147-150 | a row refreshed at `now` survives every purge whose cutoff is not after `now`, because the comparison is strict |
| Database.PurgeIdempotent | src/database.py:149-150 | a second purge at the same cutoff deletes nothing more |
| Database.DatabaseManager.constructor | src/database.py:29-48 | opening the store keeps the existing table (CREATE TABLE IF NOT EXISTS) |
| Database.DatabaseManager.InsertCar | src/database.py:55-132 | returns true exactly when the call succeeds and the id was absent; on success the table becomes the upsert, with the size rising by one exactly when the result is true; on a storage failure nothing changes and the result is false |
| Database.DatabaseManager.DeleteOldCars | src/database.py:134-164 | on success the table becomes the purge at `now - days`, and the result is the old count minus the new count, i.e. the number of expired rows; on a storage failure nothing changes and the result is 0 |
| Database.DatabaseManager.GetCarCount | src/database.py:166-181 | the number of rows, or 0 on a storage failure |
| Scraper.Title | src/scraper.py:54-57 | the title is "" or has no whitespace at either end |
| Scraper.TitleDefaults | src/scraper.py:51-57 | a listing without vehicle information gets the title "Unknown make Unknown model", with no trailing space |
| Scraper.TitleWithoutVersion | src/scraper.py:54-57 | with no version, the title is "make model", with defaults for missing parts and no trailing space |
| Scraper.TitleWithVersion | src/scraper.py:54-57 | with clean parts, the title is "make model version" |
| Scraper.TransmissionFromDetails | src/scraper.py:69-81 | the transmission is the `data` of the last "transmission" detail, and "Unknown" when there is none |
| Scraper.ParseListing | src/scraper.py:50-82 | no record exactly when `id` is missing; otherwise the record copies the id, has company "autoscout24", the stripped title, the formatted price, the first image or "Image not available", the absolute link (the base URL for a missing `url`), the folded feature map of its details (keyed by the icon names, last entry winning), and the "transmission" feature or "Unknown" |
| Scraper.GetRandomHeaders | src/scraper.py:36-38 | the headers are exactly one User-Agent, drawn from the configured pool |
| Scraper.PageUrlFirstPage | src/scraper.py:101 | page 1 is fetched from the endpoint URL itself |
| Scraper.PageUrlWithoutMarker | src/scraper.py:101 | if "page=1" does not occur in the endpoint URL, every page fetches that same URL |
| Scraper.PageUrlOneMarker | src/scraper.py:101 | for an endpoint URL holding "page=1" exactly once, page N is fetched from the same URL with that occurrence turned into "page=N" and nothing else changed |
| Scraper.PageUrlSecondPage | src/scraper.py:101 | the second page of "lst.json?page=1&sort=age" is "lst.json?page=2&sort=age" |
| Scraper.PageUrl | src/scraper.py:101 | defines the paged URL as `str.replace` of every "page=1" with "page=N"; `PageUrlFirstPage`, `PageUrlWithoutMarker` and `PageUrlOneMarker` state what that gives |
| Scraper.PageListings | src/scraper.py:105-110 | a page fails exactly when there is a transport error, a 4xx/5xx status, a non-JSON body, a non-object body, or a non-object `pageProps`; a missing `pageProps` or `listings` gives an empty page; a present `listings` array is returned as it is |
| Scraper.ListingStep | src/scraper.py:116-123 | defines one listing's effect: skipped when it does not parse or its upsert fails, otherwise upserted and counted when its id was absent; `StepGrowth` and `StorageFaultSkipsListing` state its properties |
| Scraper.ProcessListings | src/scraper.py:115-123 | defines the listings of one page folded in order, position by position; the `Process*` lemmas state its properties |
| Scraper.PageStep | src/scraper.py:97-123 | defines one page: nothing more once the sync has failed, a failure when the page fails, else its listings processed; `PageStepGrowth` states its properties |
| Scraper.SyncPages | src/scraper.py:97-123 | defines the configured pages processed in order, the first page failure stopping the loop; the `Sync*` lemmas state its properties |
| Scraper.SyncResult | src/scraper.py:125-142 | defines the value returned: the count, or 0 when a page failed; `AnyFailureReturnsZero` and `SyncCountsUnseenIds` state it |
| Scraper.UpsertListing | src/scraper.py:116-123 | one pass of the inner loop: parse, upsert when the listing parses, count it when the store reports it new; the same as one step of the specification |
| Scraper.UpsertListings | src/scraper.py:115-123 | the inner loop leaves exactly the store and the count that the specification's listing fold gives |
| Scraper.ScrapeListings | src/scraper.py:94-142 | the loop over `[1, 2]` leaves exactly the specification's store, and returns its count, or 0 once a page has failed |
| Scraper.FailureSticks | src/scraper.py:105-106 | after a page-level failure, the later pages change nothing |
| SyncProperties.StepGrowth | src/scraper.py:116-120 | one listing adds at most its own id (exactly it when storage succeeds) and counts exactly the row it adds |
| SyncProperties.StorageFaultSkipsListing | src/scraper.py:116-123 | a listing whose upsert hits a storage failure changes neither the store nor the count |
| SyncProperties.ProcessKeysGrow | src/scraper.py:115-123 | a page never removes an id and adds only ids of its parsable listings |
| SyncProperties.ProcessCountIsGrowth | src/scraper.py:115-123 | a page raises the count by exactly the number of rows it adds |
| SyncProperties.ProcessStoresAllIds | src/scraper.py:115-123 | without storage failures, every parsable listing of the page is stored |
| SyncProperties.PageStepGrowth | src/scraper.py:97-123 | one page grows the store only by its own ids, counts what it adds, and fails the sync exactly when it fails or the sync already had |
| SyncProperties.AnyPageFailsIff | src/scraper.py:97-106 | the recursive "some page fails" agrees with "some index holds a failing page" |
| SyncProperties.SyncFailedIsAny | src/scraper.py:97-106 | the sync ends failed exactly when some page fails |
| SyncProperties.SyncFailsIff | src/scraper.py:97-106 | the sync fails if and only if some configured page fails |
| SyncProperties.SyncKeysGrow | src/scraper.py:97-123 | over all pages the store only grows, and only by ids of fetched listings |
| SyncProperties.SyncCountIsGrowth | src/scraper.py:97-126 | the count of new cars equals the number of rows the sync added |
| SyncProperties.SyncStoresAllIds | src/scraper.py:97-126 | without storage failures, a sync that did not fail has stored every parsable id it saw |
| SyncProperties.AnyFailureReturnsZero | src/scraper.py:128-142 | any failing page makes the sync return 0 |
| SyncProperties.FirstFailureKeepsEarlierWrites | src/scraper.py:105-106 | when page `i` fails first, the sync returns 0 and the store is exactly what pages before `i` left |
| SyncProperties.SyncCountsUnseenIds | src/scraper.py:94-126 | without storage failures, a successful sync returns the number of distinct parsable ids on its pages that were not yet stored |
| SyncProperties.SyncIdempotent | src/scraper.py:94-126 | a second sync over the same upstream data succeeds, returns 0 and adds no row, at any clock value |
| SyncProperties.EmptyPageAddsNothing | src/scraper.py:110 | a page with no listings leaves the sync state unchanged |
| SyncProperties.UnparsableListingSkipped | src/scraper.py:116-123 | without storage failures, a listing that does not parse is processed as if it were absent, so later listings are still upserted and counted |

## Left out

- SQLite, connections, transactions and the SQL text are out. The table is a `map` from id to row. A storage error is the `fault` flag, which selects the same safe-default branch (`False` or `0`).
- Storage of `features` is simplified: the row holds the feature map itself, not `json.dumps` of it.
- Timestamps are an integer clock in seconds, passed in as `now`.
  - In the program, `CURRENT_TIMESTAMP` is UTC text, while the purge cutoff is a local-time `datetime.now()` compared as a string.
  - That time-zone and format mismatch is not modelled.
  - The text comparison also moves the boundary. A stored "YYYY-MM-DD HH:MM:SS" sorts below the cutoff's "YYYY-MM-DD HH:MM:SS.ffffff" within the same second. So the program deletes a row stamped in the cutoff's own second, which `Database.Purge` and `Database.FreshRowSurvives` keep.
  - One sync uses a single `now` for all its upserts.
- HTTP via `requests` is abstracted: the client, its timeout and its exceptions become the `fetch` function.
  - `fetch` is a function of the URL only, so the User-Agent header does not influence it. The sync loop therefore does not draw a header. `GetRandomHeaders` is modelled on its own, and `random.choice` becomes a nondeterministic pick from the pool.
  - Two fetches of the same URL give the same answer. When the endpoint URL lacks "page=1", both pages fetch the same URL, so a run where page 1 succeeds and page 2 times out cannot be expressed.
  - `raise_for_status` fails on 4xx and 5xx statuses only; other non-2xx statuses pass, as in the code.
- JSON values are modelled as present or missing only, through `Option`.
  - A JSON `null` or a wrongly typed value (a non-object `vehicle`, a non-list `images`, a non-string field) is not modelled.
  - In particular `"id": null` parses: `id TEXT PRIMARY KEY` accepts a NULL id (src/database.py:36), and `WHERE id = ?` with `None` never matches (src/database.py:70-74). So such a listing is inserted again and counted as new on every sync. `SyncIdempotent` and `SyncCountsUnseenIds` do not describe the program for such data.
  - A non-object body and a non-object `pageProps` are modelled as page failures.
- Storage faults are an oracle keyed by (page number, position on the page). The model cannot express a fault that depends on anything else.
- `Text.Strip`: whitespace is Python's `str.isspace()` set, written out by code point; there is no Unicode normalisation.
- Endpoint discovery with a headless browser (src/browser.py) is not part of this model. Its response handler overwrites the captured URL on every match, so the last matching response wins, not the first.
- The notifier (src/notifier.py) is not part of this model.
  - In the program, `insert_car` itself sends the "new car" notification.
  - Error notifications are sent by `_create_tables`, `insert_car` and `delete_old_cars` on a storage error, by the page-level failures of `scrape_listings`, and by the browser discovery.
  - `get_car_count`'s storage error and a per-listing parse failure are only logged.
  - None of these notifications appears in the model.
- Logging, `setup_logger` (src/utils.py:8-36), the scheduler loop and signal handling in main.py are not part of this model.
- Environment loading in src/config.py is out. Only the constants the logic reads are kept:
  - the base URL;
  - the page list;
  - the User-Agent pool.
- The default `days=7` of `delete_old_cars` is not modelled: `DeleteOldCars` always takes `days` from its caller.
