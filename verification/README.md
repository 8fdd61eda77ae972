# Warehouse balances and documents, modelled in Dafny

The WareHouse web API keeps documents (receipts and shipments) and their
line items, and reports balances per resource and unit: for every
(resource, unit) pair, the receipt counts minus the shipment counts. Reports
go through a process-wide memory cache. The document controller writes
documents and lines, then invalidates that cache.

This project models the two places with real logic:

- `BalanceReportService` does the balance aggregation (join, type filter,
  resource and unit filters, grouping, signed sum, name join, ordering). It
  also builds the canonical cache key, serves reads through the cache, and
  invalidates four keys.
- `DocumentsController` holds the decision logic. That is model-binding and
  foreign-key validation, the header actions (`PostDocument`, `PutDocument`,
  `DeleteDocument`), `CreateWithItems` and the row synchronisation of
  `UpdateWithItems`. It also has `Search` with its `ParseIntCsv` tokenizer,
  and the cache invalidation after every successful write.

Everything is modelled with immutable values and pure functions:

- The database is a `Ledger.Store`: documents, line items, reference
  tables, and the two identity sequences.
- The memory cache is a `map<string, CacheValue>`.
- An action is a function from a store to an `Outcome`, which holds the HTTP
  answer and the store afterwards.
- `WriteService` composes an action with the cache invalidation the
  controller performs.

Modules follow the program's structure:

| module | file | models |
|---|---|---|
| `Wrappers` | wrappers.dfy | `Option` |
| `Seqs` | seqs.dfy | LINQ `Distinct` (first occurrences, in order), first index |
| `Sorting` | sorting.dfy | a stable insertion sort by a total preorder; uniqueness of sorted permutations |
| `Text` | text.dfy | `string.Split`, `string.Join`, `string.Trim` with the .NET white-space set |
| `Decimal` | decimal.dfy | `int.ToString`, `int.TryParse` with the integer number style |
| `Ledger` | ledger.dfy | `Document`, `Document_resource`, `BalanceRowDto`, reference tables, `TypeDocKind` |
| `BalanceReport` | balances.dfy | the report query of `GetBalancesAsync` |
| `BalanceCache` | cache.dfy | `CacheKey`/`Part`, the read-through cache, `InvalidateBalancesCache` |
| `DocumentSearch` | search.dfy | `Search` and `ParseIntCsv` |
| `Documents` | documents.dfy | the write actions of `DocumentsController` |
| `WriteService` | service.dfy | a write request followed by the controller's cache invalidation |
| `Scenarios` | scenarios.dfy | worked runs on small warehouses |

Modelling choices:

- **Collation.** String collation for `orderby r.Name, u.Name` is the
  parameter `lt`. It is assumed to be a strict total order where that
  matters. The database's comparison of a document number with the entries
  of the number filter is the parameter `sameNumber`. The number filter
  itself is a `HashSet` built in the controller with
  `StringComparer.OrdinalIgnoreCase`, the parameter `ignoreCase`. Of tokens
  equal under it, only the first reaches the database.
- **Dates.** A `DateOnly` is an integer day number. `DateTimeOffset` line
  timestamps are integers that the model only copies.
- **Identity keys.**
  - A key of 0 draws the next value of an identity sequence.
  - A non-zero key is inserted as sent.
  - An insert whose key is already stored fails the save, so the action
    answers `ServerError` and commits nothing.
  - The identity sequences are not transactional. A value drawn by a failed
    save stays used, so after a `ServerError` the tables are as they were but
    the sequences may have moved on (`Documents.RolledBack`).
- **Model binding.** The controller carries `[ApiController]`, so the
  `[Required]` check on `Document.Number` runs before any action body. The
  number must hold a character that is not white space. In `PutDocument` this
  check therefore comes before the route/body key comparison written at
  `DocumentsController.cs:130`.
- **Document delete.** Deleting a document deletes its lines, because the
  foreign key cascades (`ClassLibrary/Date/AppDbContext.cs:30-33`).
- **What the code checks and evicts.** The model keeps to the code:
  - There is no status gate and no cache of countable statuses.
    `BalanceReportService.cs:52-55` filters on the document type only, and
    `BalanceReport.ConditionDoesNotCount` proves that a document's condition
    never changes a balance.
  - Scoped invalidation removes exactly the four keys at
    `BalanceReportService.cs:98-101`. The entry for resources {5} and units
    {7} is not one of them, so invalidating for resource 5 keeps it
    (`BalanceCache.ScopedInvalidationKeepsNarrowerEntry`).
  - The comment at `BalanceReportService.cs:94` asks for the invalidation
    after every successful save that changes documents or lines. The
    controller calls it with no arguments, which leaves filtered entries
    stale (see Findings).

## Model

| member | source | states |
|---|---|---|
| BalanceReport.JoinItemSpec | WebAPI/Service/BalanceReportService.cs:52-55 | a line joins one entry per receipt or shipment document carrying its document id, and nothing else |
| BalanceReport.SelectedSpec | WebAPI/Service/BalanceReportService.cs:52-60 | every entry of the filtered join comes from a receipt or shipment and passes both filters; every line of a receipt or shipment that passes both filters is in it |
| BalanceReport.FilterKeepsAdmitted | WebAPI/Service/BalanceReportService.cs:57-60 | a filter keeps exactly those unfiltered join entries whose resource id and unit id it admits |
| BalanceReport.AdmitsBySet | WebAPI/Service/BalanceReportService.cs:57-60 | a missing or empty filter admits every id; a non-empty one admits exactly its members |
| BalanceReport.NoMatchingLines | WebAPI/Service/BalanceReportService.cs:57-58 | a non-empty resource filter that names no stored line selects nothing |
| BalanceReport.EmptyFilterIsNotNoMatch | WebAPI/Service/BalanceReportService.cs:57-60 | an empty filter gives the unfiltered report, while a filter that matches nothing gives the empty report, so the two differ whenever the unfiltered report is non-empty |
| BalanceReport.OnlyReceiptsAndShipmentsCount | WebAPI/Service/BalanceReportService.cs:52-55 | adding a line whose document is neither a receipt nor a shipment (or is missing) leaves every report unchanged |
| BalanceReport.ConditionDoesNotCount | WebAPI/Service/BalanceReportService.cs:52-55 | changing the condition of any documents leaves every report unchanged: there is no status gate |
| BalanceReport.SelectedPermutation | WebAPI/Service/BalanceReportService.cs:52-60 | reordering the line items only reorders the filtered join |
| BalanceReport.GroupSumIsReceiptsMinusShipments | WebAPI/Service/BalanceReportService.cs:62-71 | over receipts and shipments, a group's signed sum is its receipt total minus its shipment total |
| BalanceReport.GroupSumPermutation | WebAPI/Service/BalanceReportService.cs:62-71 | a group's signed sum does not depend on the order of the entries |
| BalanceReport.GroupSumBound | WebAPI/Service/BalanceReportService.cs:68-70 | with 32-bit counts, a group of n entries sums to within ±2^31·n, so the `long` accumulator cannot overflow for fewer than 2^32 lines |
| BalanceReport.ReportRows | WebAPI/Service/BalanceReportService.cs:62-84 | every row is a group of the filtered join whose resource and unit both exist, carries their names and receipts minus shipments; every such group has a row; no group has two |
| BalanceReport.SingleGroupReport | WebAPI/Service/BalanceReportService.cs:62-84 | when all selected entries form one group whose names resolve, the report is exactly that group's row |
| BalanceReport.RowOrderIsTotalPreorder | WebAPI/Service/BalanceReportService.cs:76 | ordering by resource name, then unit name is a total preorder when the collation is a strict total order |
| BalanceReport.ReportSorted | WebAPI/Service/BalanceReportService.cs:76 | the report is ascending by resource name, then by unit name |
| BalanceReport.ReportIgnoresItemOrder | WebAPI/Service/BalanceReportService.cs:52-84 | the report is a function of the multiset of line items, not of their order |
| BalanceReport.ReportDependsOnFilterSets | WebAPI/Service/BalanceReportService.cs:57-60 | filters naming the same id sets give the same report; a missing filter acts as an empty one |
| BalanceCache.Canonical | WebAPI/Service/BalanceReportService.cs:30 | the canonical ids are strictly increasing and are exactly the given ids |
| BalanceCache.Part | WebAPI/Service/BalanceReportService.cs:29-30 | a key part never contains the field separator `:` |
| BalanceCache.KeyRoundTrip | WebAPI/Service/BalanceReportService.cs:27-32 | reading a key back gives the canonical (sorted, distinct) resource and unit ids it was made from |
| BalanceCache.CacheKeyIff | WebAPI/Service/BalanceReportService.cs:27-32 | two requests share a key exactly when their resource id sets and their unit id sets are equal |
| BalanceCache.CacheKeyExample | WebAPI/Service/BalanceReportService.cs:29-31 | `[2,1,1]` with no unit filter and `[1,2]` with an empty unit filter give the same key |
| BalanceCache.CacheKeyIsBalanceKey | WebAPI/Service/BalanceReportService.cs:31 | every key starts with `balances:r=`, decodes as a balance key, and is never `_context` |
| BalanceCache.UnfilteredKey | WebAPI/Service/BalanceReportService.cs:31 | the key of the unfiltered request is `balances:r=all:u=all` |
| BalanceCache.ContextKeyIsNotBalanceKey | WebAPI/Controllers/DocumentsController.cs:24 | the `_context` key does not decode as a balance key |
| BalanceCache.ContextEntryCoherent | WebAPI/Controllers/DocumentsController.cs:20-32 | parking the database context under `_context` keeps a coherent cache coherent and changes no balance lookup |
| BalanceCache.GetBalances | WebAPI/Service/BalanceReportService.cs:39-92 | a hit serves the stored list and leaves the cache unchanged; a miss serves the report and stores it under the key; no other key changes |
| BalanceCache.GetBalancesCoherent | WebAPI/Service/BalanceReportService.cs:39-92 | from a coherent cache a read serves the current report and leaves the cache coherent |
| BalanceCache.GetBalancesRepeat | WebAPI/Service/BalanceReportService.cs:39-48 | a second read with filters naming the same ids returns the same list and changes nothing |
| BalanceCache.Remove | WebAPI/Service/BalanceReportService.cs:98 | removing a key drops that entry only |
| BalanceCache.InvalidateBalancesCache | WebAPI/Service/BalanceReportService.cs:96-102 | exactly the four keys for (none, none), (r, none), (none, u) and (r, u) are removed; every other entry is kept as it was |
| BalanceCache.InvalidateEvicts | WebAPI/Service/BalanceReportService.cs:96-102 | an entry survives invalidation exactly when its resource filter or its unit filter is neither missing nor the same as the invalidated one |
| BalanceCache.InvalidateAllArgumentsMissing | WebAPI/Service/BalanceReportService.cs:96-102 | invalidation without arguments removes `balances:r=all:u=all` and nothing else |
| BalanceCache.ScopedInvalidationKeepsNarrowerEntry | WebAPI/Service/BalanceReportService.cs:96-102 | invalidating for resource 5 keeps the entry for resource 5 and unit 7 |
| BalanceCache.ExpireCoherent | WebAPI/Service/BalanceReportService.cs:86-90 | an entry expiring at any moment keeps a coherent cache coherent |
| BalanceCache.InvalidateAllBalances | WebAPI/Service/BalanceReportService.cs:96-102 | the corrected invalidation: no balance key remains, and every other entry is kept as it was |
| BalanceCache.InvalidateAllCoherent | WebAPI/Service/BalanceReportService.cs:96-102 | after the corrected invalidation the cache is coherent with any tables, and `_context` is still there |
| Text.Trim | WebAPI/Controllers/DocumentsController.cs:361 | the result is the part of the input after its leading white space, only white space follows it, and it does not end in white space |
| Text.JoinSplit | WebAPI/Controllers/DocumentsController.cs:361 | joining the pieces of a split with its separator gives the input back, so splitting loses no character |
| Text.SplitJoin | WebAPI/Service/BalanceReportService.cs:30 | splitting a join of separator-free pieces gives the pieces back |
| Decimal.TryParseInt32 | WebAPI/Controllers/DocumentsController.cs:362 | a parse yields a 32-bit value that the text spells as leading white space, an optional sign, digits, trailing white space and trailing NULs; every 32-bit value the text spells that way is the one yielded, so the parse fails exactly when no such spelling exists |
| Decimal.TrailingNulAccepted | WebAPI/Controllers/DocumentsController.cs:362 | `"5\0"` parses to 5 |
| Decimal.SignedPaddedAccepted | WebAPI/Controllers/DocumentsController.cs:362 | `" -007 \0"` parses to -7 |
| Decimal.ParseIntText | WebAPI/Service/BalanceReportService.cs:30 | reading back the text of an integer gives the integer |
| DocumentSearch.Tokens | WebAPI/Controllers/DocumentsController.cs:356-361 | every token is non-empty, free of commas and trimmed; each comes from, and every non-blank comma-separated piece gives, a token |
| DocumentSearch.TrimIdempotent | WebAPI/Controllers/DocumentsController.cs:361 | trimming twice is trimming once |
| DocumentSearch.ParseIntCsv | WebAPI/Controllers/DocumentsController.cs:360-363 | the ids are distinct, positive 32-bit values; an id is present exactly when it is positive and some token parses to it |
| DocumentSearch.ParseIntCsvFirstOccurrenceOrder | WebAPI/Controllers/DocumentsController.cs:362-363 | the ids come in the order of the first tokens that give them |
| DocumentSearch.MissingListParsesEmpty | WebAPI/Controllers/DocumentsController.cs:360 | a missing or empty list gives no ids |
| DocumentSearch.NumberSet | WebAPI/Controllers/DocumentsController.cs:356-358 | the case-insensitive set of number tokens: every entry is a token, every token is an entry or equals one, no entry equals a later one, and a token that equals no earlier token is an entry, so the first of equal tokens wins |
| DocumentSearch.NumberSetMatchesLikeTokens | WebAPI/Controllers/DocumentsController.cs:356-373 | when the database comparison cannot tell apart numbers equal under the comparer, matching against the set is matching against any token |
| DocumentSearch.CaseDuplicateDropped | WebAPI/Controllers/DocumentsController.cs:356-373 | `numbers=ab,AB` gives the tokens `ab` and `AB` but the set `[ab]`, so under a case-sensitive database comparison a document numbered `AB` is not listed |
| DocumentSearch.TwoCaseTokens | WebAPI/Controllers/DocumentsController.cs:356-357 | the number list `ab,AB` splits into the tokens `ab`, `AB` in that order |
| DocumentSearch.Where | WebAPI/Controllers/DocumentsController.cs:368-382 | each document is kept as often as stored when it matches type, date bounds, an entry of the number set under the database comparison, and the line filter, and dropped otherwise |
| DocumentSearch.Search | WebAPI/Controllers/DocumentsController.cs:354-390 | a type id of 0 or less is refused; otherwise exactly the matching documents (number filter through the case-insensitive set), ordered by date descending, then id descending |
| DocumentSearch.SearchIgnoresStoredOrder | WebAPI/Controllers/DocumentsController.cs:368-390 | the result does not depend on the order the tables return documents and lines in |
| Documents.DocumentFkErrors | WebAPI/Controllers/DocumentsController.cs:38-48 | no errors exactly when type, client and condition exist; one error per missing reference |
| Documents.RowErrors | WebAPI/Controllers/DocumentsController.cs:50-60 | no errors exactly when the action's own row rule holds and the resource and unit exist and the count is at least 1; one error per failed rule |
| Documents.ItemsErrors | WebAPI/Controllers/DocumentsController.cs:182-191 | no errors exactly when every row passes; each kind of error is present exactly when some row has that fault |
| Documents.AssignIds | WebAPI/Controllers/DocumentsController.cs:200-206 | sent non-zero keys are kept; zero keys get increasing values from the identity sequence, which moves past them |
| Documents.AssignIdsDraws | WebAPI/Controllers/DocumentsController.cs:200-206 | a save draws one sequence value per row with key 0 |
| Documents.PostDocument | WebAPI/Controllers/DocumentsController.cs:112-124 | a blank number or a missing reference gives a validation problem and changes nothing; a taken key gives a server error that changes no table but uses the drawn sequence value; otherwise the header is appended under its key, which the answer carries, the lines stay, and the document sequence moves on exactly when the key was drawn |
| Documents.PutDocument | WebAPI/Controllers/DocumentsController.cs:128-150 | a key mismatch gives Bad Request, a missing document Not Found, a missing reference a validation problem; otherwise the stored header takes the body's fields |
| Documents.DeleteDocument | WebAPI/Controllers/DocumentsController.cs:154-163 | a missing document gives Not Found and changes nothing; otherwise the document and its lines are gone, the store is exactly the two tables filtered by `WithoutDocument` and `WithoutLinesOf`, which keep every other header and line, and neither sequence moves |
| Documents.CreateWithItems | WebAPI/Controllers/DocumentsController.cs:175-211 | a validation problem exactly when the number, a header reference or a row fails, and it changes nothing; a server error exactly when a key is taken, and it changes no table but uses the values drawn before the failure; otherwise header and stamped rows are appended |
| Documents.CreateWithItemsRows | WebAPI/Controllers/DocumentsController.cs:198-204 | on success the old lines stay and every sent row is a new line of the new document with the sent values, an existing resource and unit, and a count of at least 1 |
| Documents.SentKeys | WebAPI/Controllers/DocumentsController.cs:249-250 | the keys of `incomingById` are exactly the non-zero keys of the sent rows |
| Documents.ForeignRow | WebAPI/Controllers/DocumentsController.cs:271-279 | no foreign row exactly when every sent non-zero key names a line of the document; otherwise a sent non-zero key that names no line of the document, and every row before it in the request has key 0 or names one |
| Documents.SyncLines | WebAPI/Controllers/DocumentsController.cs:245-286 | lines of other documents stay; a line of the document with a sent key takes the sent values; every result line comes from a stored one |
| Documents.NewRows | WebAPI/Controllers/DocumentsController.cs:257-270 | the rows to insert are the sent rows with key 0, each as often as it was sent, and nothing else |
| Documents.SyncLinesUnique | WebAPI/Controllers/DocumentsController.cs:245-286 | synchronising keeps line keys unique |
| Documents.UpdateWithItems | WebAPI/Controllers/DocumentsController.cs:215-293 | the answers in the code's order (binding, Not Found, header references, rows, repeated keys, foreign rows, taken keys); a failure changes no table, and only a failed save uses sequence values, one per key-0 row; on success the header is replaced and the lines synchronised |
| Documents.UpdateWithItemsRows | WebAPI/Controllers/DocumentsController.cs:245-286 | on success unsent lines are gone, matched lines hold the sent values, and other documents' lines are untouched; the table ends with exactly one new line of the document per key-0 row, in request order, with the sent values, under pairwise different keys not stored before; every line before them has a key stored before |
| Documents.WithoutLinesOf | ClassLibrary/Date/AppDbContext.cs:30-33 | the cascade keeps exactly the lines of other documents and keeps keys unique |
| Documents.WithoutLinesOfCopies | ClassLibrary/Date/AppDbContext.cs:30-33 | every line of another document survives the cascade as often as it was stored |
| Documents.WithoutDocumentCopies | WebAPI/Controllers/DocumentsController.cs:159-160 | every other document survives the delete as often as it was stored |
| Documents.PostDocumentWellFormed | WebAPI/Controllers/DocumentsController.cs:119-120 | a header insert keeps document keys unique and every line's document stored |
| Documents.PutDocumentWellFormed | WebAPI/Controllers/DocumentsController.cs:140-146 | a header update keeps the tables well formed |
| Documents.DeleteDocumentWellFormed | WebAPI/Controllers/DocumentsController.cs:159-160 | a delete with its cascade keeps the tables well formed |
| Documents.CreateWithItemsWellFormed | WebAPI/Controllers/DocumentsController.cs:193-207 | a create with rows keeps the tables well formed |
| Documents.UpdateWithItemsWellFormed | WebAPI/Controllers/DocumentsController.cs:235-289 | an update with rows keeps the tables well formed |
| WriteService.Execute | WebAPI/Controllers/DocumentsController.cs:110-293 | a failed write leaves the tables as they were and never moves a sequence back; a failure other than a server error changes nothing at all; no write changes the reference tables |
| WriteService.ExecuteWellFormed | WebAPI/Controllers/DocumentsController.cs:110-293 | every write keeps the tables well formed |
| WriteService.ReadBalances | WebAPI/Service/BalanceReportService.cs:34-93 | a balance request reads through the cache and never changes the tables |
| WriteService.HandleAsWritten | WebAPI/Controllers/DocumentsController.cs:121 | a successful write removes only `balances:r=all:u=all`; a failed one changes neither the cache nor the tables |
| WriteService.HandleAsWrittenKeepsFilteredEntries | WebAPI/Controllers/DocumentsController.cs:208 | after a successful write, every entry whose request named resources or units is still cached, unchanged |
| WriteService.Handle | WebAPI/Controllers/DocumentsController.cs:290 | the corrected write answers as the action does, drops every balance list after a success, keeps `_context` as it was, and changes neither the cache nor the tables after a failure |
| WriteService.HandleCoherent | WebAPI/Controllers/DocumentsController.cs:290 | the corrected write keeps the cache coherent with the tables |
| WriteService.FreshBalanceAfterReceipt | WebAPI/Controllers/DocumentsController.cs:208 | after a corrected write, every balance request serves the current report |
| Scenarios.CreateOneLine | WebAPI/Controllers/DocumentsController.cs:193-210 | creating a document with one line on free keys stores both under the next keys of their sequences |
| Scenarios.SignCorrectness | WebAPI/Service/BalanceReportService.cs:68-70 | five bolts received and three shipped leave a balance of two |
| Scenarios.ReceiptThenShipment | WebAPI/Service/BalanceReportService.cs:39-101 | receive ten, read all balances (10), ship four, read again: the unfiltered entry was evicted, so the answer is 6 |
| Scenarios.StaleBalanceAfterReceipt | WebAPI/Controllers/DocumentsController.cs:208 | after a receipt through the controller as written, the balance request for that resource still serves the empty list cached before it |

## Left out

- Expiry timers (absolute 10 minutes, sliding 2 minutes) depend on the wall
  clock. `BalanceCache.Expire` drops an entry at any moment instead, and
  `BalanceCache.ExpireCoherent` shows that doing so is harmless.
- Async/await, cancellation, concurrent requests and cache races, and the
  console logging in `GetBalancesAsync` are not modelled.
- EF Core and SQL query translation, `AppDbContext` and the migrations are
  replaced by the in-memory `Ledger.Store`.
- The database collation of names and of document numbers is not modelled,
  nor is the case mapping of `StringComparer.OrdinalIgnoreCase`. All three
  are parameters (`lt`, `sameNumber`, `ignoreCase`).
- `DocumentSearch.Search` takes its query already bound. A query string
  whose `typeDocId`, `dateFrom` or `dateTo` does not bind (such as
  `dateFrom=abc`) gets a 400 answer from model binding before `Search`
  runs, and that answer is not modelled.
- `BalanceReport.ReportSorted` states only the order by resource name, then
  unit name, as the query does. The model breaks ties between equal name
  pairs by resource id, then unit id. SQL leaves that order open; fixing it
  makes the report a function of the ledger.
- `BalanceReport.GroupSum` uses unbounded integers. The 32-bit width of
  `Count` is not enforced on stored lines. `BalanceReport.GroupSumBound`
  states when the 64-bit sum cannot overflow.
- `Documents.AssignIds` gives generated keys to the new rows in payload
  order. The model does not say which generated value EF gives to which row
  beyond that.
- `Documents.CreateWithItems`: after a row's key collides, the model counts
  a drawn value for every row with key 0. The database stops at the failing
  row, so the model's item sequence can run ahead of the real one. The same
  holds when EF refuses two sent rows with one key before saving.
- `Documents.UpdateWithItems`: after a failed save the model counts a drawn
  value for every new row, as for `CreateWithItems`.
- `Documents.UpdateWithItems` answers `ServerError` when a generated key is
  already stored, even if the line holding it is deleted in the same save.
- `Documents.NumberPresent` folds a JSON `null` number into the empty
  string. A missing document object or a `null` item list in the body is
  not modelled.
- `Decimal.TryParseInt32` uses the invariant culture's signs `+` and `-`.
  Culture-specific sign strings are not modelled. A negative value is dropped
  by `v > 0` in `ParseIntCsv` in any case. White space and trailing NUL
  characters are modelled as `int.TryParse` accepts them.
- The read endpoints `GetDocuments`, `GetDocument`, `GetItems` and
  `GetFilterOptions` are not modelled. They are query composition with no
  decision logic.
- Hosting (`WebAPI/Program.cs`) and the Blazor front end are not modelled.
- The thin CRUD controllers are not modelled: `UnitController`,
  `ResourcesController`, `ConditionsController`, `TypeDocsController`,
  `RefsController`, `ReportsController` and `Document_resourceController`.
  The writes of `Document_resourceController` (`Document_resourceController.cs:47-100`)
  change line items without invalidating the balance cache at all.
- The database-context-in-cache construction of `DocumentsController` is
  modelled only as the `_context` entry that shares the cache.

## Findings

| source | as written | input that shows it | evidently intended | confidence | as-written member | corrected member |
|---|---|---|---|---|---|---|
| WebAPI/Controllers/DocumentsController.cs:208 | every successful write (lines 121, 147, 161, 208, 290) calls `InvalidateBalancesCache()` without arguments, which removes only `balances:r=all:u=all` | cache `balances:r=1:u=all ↦ []` over an empty warehouse; `POST with-items` a receipt of 5 bolts (resource 1, unit 1); then `GetBalancesAsync([1], null)` returns `[]` though the report now has 5 bolts | a write makes every cached balance list stale that its lines can reach, so it should evict all of them | not executed | WriteService.HandleAsWritten, Scenarios.StaleBalanceAfterReceipt | WriteService.Handle, BalanceCache.InvalidateAllBalances, WriteService.HandleCoherent |
