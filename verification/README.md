# Guest reviews service — a Dafny model

This project models the review-handling engine of a NestJS/Prisma backend for a
short-let property manager. Guest reviews come from the Hostaway provider, or
from a bundled mock dataset when the provider has nothing. They are stored as
rows in a review table. A manager dashboard reads them back filtered, sorted and
paginated, hides or shows them, and asks for a listing's average visible rating.

The database is replaced by an in-memory table (`ReviewStore`):
- Rows are keyed by a store-assigned id. It counts up from 1 and is never reset, not even by `deleteMany`.
- The `hostawayId` column has a unique index.
- `Snapshot` is the table as a value.
- `Store` is the object the services update in place. Each of its methods is proved against the `Snapshot` function that gives its effect.

Two versions of the service share the row type (`ReviewModel`), the text matching (`Text`) and the query semantics (`ReviewQuery`):

- `IncomingReviews` models the current service.
  - The normaliser with its defaults.
  - The wipe-and-reload sync from the mock dataset. It deletes every row, then creates one visible row per record.
  - The provider/mock source resolver and the normalised passthrough view.
  - `findAll`, and `findAllPaginated` with its `total`/`lastPage` meta.
  - The visibility toggle.
  - The per-listing visible-rating average.
- `LegacyReviews` models the older service.
  - The reconciling upsert sync, keyed on `hostawayId`. It creates hidden rows and, on a repeated id, overwrites only `rating` and `content`.
  - `findAll`, with its query objects built field by field.
  - The same visibility toggle.

The legacy reconciliation is specified by a fold over the batch, `UpsertAll`. The service's loop is proved to leave the store in the fold's table. The lemmas say what that table is:
- the unique index holds;
- old rows only get `rating`/`content` from the last record with their id;
- new rows are hidden `create` payloads of the first record with their id;
- every record's id is present;
- a second run over the same batch changes nothing and ends the same way, whether the first run succeeded or stopped at a refused record.

Behaviour of the source that the model keeps as written:
- The legacy upsert rewrites only `rating` and `content`. `status` and the date of an existing row stay as they were.
- The current sync deletes every row before anything else, so a failed reload loses every earlier row: an unreadable file leaves the table empty, and a repeated id leaves only the rows created before it.
- Only the mock dataset is tagged, with the `_source` property `'mock_file'`. The model returns it as a `Provenance` value, and the `.map` in the passthrough view drops it.
- The source gives sorts no tie-break. The model's sort is stable over the table in ascending id order.

The read operations (`IncomingReviews.FindAll`, `FindAllPaginated`, `GetListingRating` and `LegacyReviews.FindAll`) take the table as a sequence of rows. In the services that sequence is `store.Rows()`: every stored row exactly once, in ascending id order (`ReviewStore.Table`). So `count` and `total` count stored rows.

Two normalisations of a provider record exist: the sync's normaliser (`ToStoredReview`) and the passthrough view's `mapToDomainModel`. The source never reads a row back as a record and never stores the passthrough view. `AsRaw`, `StoredRoundTrip` and `StoreAfterMapAgrees` exist only to compare the two normalisations:
- `StoredRoundTrip` shows that a default never replaces a value that was there.
- `StoreAfterMapAgrees` shows that the view's coercions of `rating` and `reviewCategory` agree with the sync's.

## Model

| member | source | states |
|---|---|---|
| Text.Lower | src/modules/incoming/reviews/reviews.service.ts:184-188 | the case-folded text the `mode: 'insensitive'` comparisons use: the same length, each letter lower-cased |
| ReviewStore.FindHostawayId | src/reviews/reviews.service.ts:28 | the index lookup finds a row holding the `hostawayId` below the bound, or proves there is none |
| ReviewStore.Lookup | src/reviews/reviews.service.ts:28 | on a well-formed table, finds a row exactly when some row holds the `hostawayId` |
| ReviewStore.CreateRow | src/modules/incoming/reviews/reviews.service.ts:36-50 | `create` fails with a unique violation exactly when the id is taken; otherwise adds the row under the next id and keeps the table well-formed |
| ReviewStore.UpsertRow | src/reviews/reviews.service.ts:27-45 | `upsert` on a held id overwrites `rating` and `content` of the row holding it and nothing else; on a new id it adds the `create` payload under the next id; the unique index is kept |
| ReviewStore.UpdateOnlyHolder | src/reviews/reviews.service.ts:27-32 | under the unique index, updating the one holder of an id is updating every row with that id, and the index still holds |
| ReviewStore.SetVisibility | src/modules/incoming/reviews/reviews.service.ts:148-151 | `update` fails with NotFound exactly on an unknown id; otherwise only that row's `isVisible` changes, to the given value |
| ReviewStore.SetVisibilityIdempotent | src/modules/incoming/reviews/reviews.service.ts:148-151 | setting the same visibility twice equals setting it once |
| ReviewStore.SetVisibilityWellFormed | src/modules/incoming/reviews/reviews.service.ts:148-151 | toggling visibility keeps ids and the unique index intact |
| ReviewStore.Listing | src/modules/incoming/reviews/reviews.service.ts:95-98 | a scan returns exactly the stored rows, in strictly ascending id order |
| ReviewStore.Table | src/modules/incoming/reviews/reviews.service.ts:95-98 | the whole table holds exactly the stored id/row pairs, in strictly ascending id order, so each stored row appears once |
| ReviewStore.Store.FindUnique | src/modules/incoming/reviews/reviews.service.ts:143 | `findUnique` returns the row exactly when the id is stored |
| ReviewStore.Store.DeleteMany | src/modules/incoming/reviews/reviews.service.ts:23 | every row goes; the id counter is kept |
| ReviewStore.Store.Create | src/modules/incoming/reviews/reviews.service.ts:36-50 | the store changes as `CreateRow` says and returns the new id, the rows gaining exactly the new row under it; or fails unchanged |
| ReviewStore.Store.Upsert | src/reviews/reviews.service.ts:27-45 | an Invalid Date in the `create` payload is refused with `InvalidDate` and nothing changes, whichever branch would run; otherwise the store changes as `UpsertRow` says and the call succeeds |
| ReviewStore.Store.Update | src/modules/incoming/reviews/reviews.service.ts:148-151 | the store changes as `SetVisibility` says and returns the updated row, or fails unchanged with NotFound |
| ReviewQuery.Select | src/modules/incoming/reviews/reviews.service.ts:95-98 | `findMany({ where })` keeps exactly the rows satisfying the where-object, each as many times as the table holds it, and no others |
| ReviewQuery.Matching | src/modules/incoming/reviews/reviews.service.ts:178-193 | the reference filter: exactly the rows matching every truthy filter field, each as many times as the table holds it, and no others |
| ReviewQuery.SelectIsMatching | src/modules/incoming/reviews/reviews.service.ts:178-193 | a where-object meaning what the filter means selects the filter's rows, in the same order |
| ReviewQuery.InsertPermutes | src/modules/incoming/reviews/reviews.service.ts:95-98 | inserting a row into a sorted result adds exactly that row |
| ReviewQuery.InsertKeepsFirst | src/modules/incoming/reviews/reviews.service.ts:95-98 | a row that may precede `x` and every row of a list may precede every row after `x` is inserted |
| ReviewQuery.InsertSorted | src/modules/incoming/reviews/reviews.service.ts:95-98 | inserting into a sorted result keeps it sorted |
| ReviewQuery.SortRows | src/modules/incoming/reviews/reviews.service.ts:95-98 | `orderBy` gives a sorted permutation of its input |
| ReviewQuery.FindMany | src/modules/incoming/reviews/reviews.service.ts:95-98 | `findMany({ where, orderBy })` is a sorted permutation of the selected rows |
| ReviewQuery.Slice | src/modules/incoming/reviews/reviews.service.ts:123-128 | `skip`/`take` returns at most `take` rows, the ones starting at `skip`, and none when `skip` is past the end |
| ReviewQuery.CeilDiv | src/modules/incoming/reviews/reviews.service.ts:135 | `Math.ceil(total / limit)`: the least page count whose pages hold `total` rows |
| ReviewQuery.Page | src/modules/incoming/reviews/reviews.service.ts:117-128 | a page holds at most `limit` rows, row `i` being row `(page-1)*limit + i` of the result; when that offset is inside the result it holds exactly `limit` rows or all rows left, whichever is fewer; it is empty exactly when the offset is past the end or `limit` is 0 |
| ReviewQuery.OffsetInsideIffNotPastLastPage | src/modules/incoming/reviews/reviews.service.ts:117-135 | the page's first row index is below `total` exactly when the page number is at most `lastPage` |
| IncomingReviews.CoerceRating | src/modules/incoming/reviews/reviews.service.ts:41 | the rating as a number, falling back to 0: the number itself, and 0 exactly when it is not a number or is 0 |
| IncomingReviews.ToStoredReview | src/modules/incoming/reviews/reviews.service.ts:33-49 | every text field is the record's non-empty value or its default; `rating` is the number or 0; `date` is the valid date or `now`; categories or []; visible |
| IncomingReviews.StoredRoundTrip | src/modules/incoming/reviews/reviews.service.ts:38-48 | defaults never overwrite data: normalising a stored row's own record gives the row back |
| IncomingReviews.MapToDomainModel | src/modules/incoming/reviews/reviews.service.ts:242-255 | every field passes through except `rating` (coerced) and `reviewCategory` (defaulted to []) |
| IncomingReviews.MapToDomainModelIdempotent | src/modules/incoming/reviews/reviews.service.ts:242-255 | mapping an already mapped record changes nothing |
| IncomingReviews.StoreAfterMapAgrees | src/modules/incoming/reviews/reviews.service.ts:242-255 | storing the passthrough view of a record stores the same row as storing the record |
| IncomingReviews.GetMockData | src/modules/incoming/reviews/reviews.service.ts:219-240 | the mock records tagged as mock data, or [] when the file cannot be read; never an error |
| IncomingReviews.FetchRawReviews | src/modules/incoming/reviews/reviews.service.ts:195-217 | live records exactly when the provider returned a non-empty list; otherwise the mock data or []; never an error |
| IncomingReviews.FetchEmptyOnlyWithoutData | src/modules/incoming/reviews/reviews.service.ts:195-240 | the resolver comes back empty exactly when neither the provider nor the mock file has a record |
| IncomingReviews.GetAndNormalizeHostawayReviews | src/modules/incoming/reviews/reviews.service.ts:63-76 | `count` equals `data.length` equals the fetched length; element `i` is the mapped fetched record `i` |
| IncomingReviews.Reloaded | src/modules/incoming/reviews/reviews.service.ts:32-52 | the reload writes exactly the ids from `base` up to `base` plus the record count, one per record |
| IncomingReviews.ReloadedAt | src/modules/incoming/reviews/reviews.service.ts:32-52 | record `i`'s normalised row is stored under id `base + i` |
| IncomingReviews.ReloadedOneMore | src/modules/incoming/reviews/reviews.service.ts:32-52 | one more record adds exactly its row under the next id |
| IncomingReviews.ReloadedOneVisibleRowPerRecord | src/modules/incoming/reviews/reviews.service.ts:32-52 | a reload holds exactly one row per record, each visible and holding its record's id |
| IncomingReviews.ReloadStepFails | src/modules/incoming/reviews/reviews.service.ts:36-50 | after a duplicate-free prefix, the next record's id is already in the table exactly when that record is the batch's first repeated id |
| IncomingReviews.ReloadStepSucceeds | src/modules/incoming/reviews/reviews.service.ts:36-51 | an accepted record keeps the prefix duplicate-free and adds its row |
| IncomingReviews.SyncReviews | src/modules/incoming/reviews/reviews.service.ts:21-60 | no earlier row survives; on success the table is exactly the reload of the batch, the count is the batch length and the id counter moved by that many; an unreadable file leaves an empty table, the counter and an error; a repeated id fails after the rows before it, the counter moved by their number |
| IncomingReviews.BuildWhereClause | src/modules/incoming/reviews/reviews.service.ts:178-193 | a row satisfies the where-object exactly when it matches every truthy filter field (`isVisible` through `String(v) === 'true'`) |
| IncomingReviews.OrderFor | src/modules/incoming/reviews/reviews.service.ts:84-93 | the order is by `rating` exactly when `sortBy` is `rating`, by `date` otherwise, in the requested direction or `desc` |
| IncomingReviews.FindAll | src/modules/incoming/reviews/reviews.service.ts:79-99 | a permutation of the matching rows, sorted by `rating` when asked and by `date` otherwise, descending unless told |
| IncomingReviews.NumberOr | src/modules/incoming/reviews/reviews.service.ts:117-118 | a page or limit falling back to its default: the given number unless absent or 0, then the default; never 0 with a positive default |
| IncomingReviews.FindAllPaginated | src/modules/incoming/reviews/reviews.service.ts:102-139 | page and limit default to 1 and 10 when absent or 0; `total` counts every match; `data` is that page of the `findAll` result; `lastPage` is the least page count whose pages hold `total` rows |
| IncomingReviews.PageHasRowsIffNotPastLastPage | src/modules/incoming/reviews/reviews.service.ts:117-135 | a page has rows exactly when its number is at most `lastPage` |
| IncomingReviews.PaginationOfTwentyFive | src/modules/incoming/reviews/reviews.service.ts:117-138 | 25 matches in pages of 10: page 3 has 5 rows, page 4 none, `lastPage` is 3 |
| IncomingReviews.UpdateVisibility | src/modules/incoming/reviews/reviews.service.ts:142-152 | NotFound and no change on an unknown id; otherwise only that row's `isVisible` changes and the row is returned |
| IncomingReviews.VisibleRowsOf | src/modules/incoming/reviews/reviews.service.ts:163-166 | exactly the visible rows whose listing name is equal to the one asked for, each as many times as the table holds it, so the count is the number of such rows |
| IncomingReviews.Mean | src/modules/incoming/reviews/reviews.service.ts:156-159 | the average of `n` values: `n` times it is their sum |
| IncomingReviews.GetListingRating | src/modules/incoming/reviews/reviews.service.ts:155-176 | `count` is the number of visible rows of the listing; with none the result is 0 and 0; otherwise `rating` is the mean of their ratings |
| IncomingReviews.SumWithinBounds | src/modules/incoming/reviews/reviews.service.ts:156-159 | the rating sum of `n` rows lies between `n` times the lower and upper bounds |
| IncomingReviews.MeanWithinBounds | src/modules/incoming/reviews/reviews.service.ts:156-159 | the mean rating of rows within bounds lies within the same bounds |
| IncomingReviews.ListingRatingWithinBounds | src/modules/incoming/reviews/reviews.service.ts:155-176 | the average lies between the least and the greatest possible rating |
| LegacyReviews.CreatePayload | src/reviews/reviews.service.ts:33-44 | the `create` branch writes the record's id, descriptive fields, rating and content, its categories or [], the default status, and hides the row |
| LegacyReviews.UpsertOne | src/reviews/reviews.service.ts:27-45 | one upsert keeps the unique index, and adds no row exactly when the record's id is already held |
| LegacyReviews.LastWith | src/reviews/reviews.service.ts:24-45 | the last record of the batch with a given id, or none when no record has it |
| LegacyReviews.Refreshed | src/reviews/reviews.service.ts:29-32 | a row after the batch differs at most in `rating` and `content`, and not at all when no record has its id |
| LegacyReviews.RefreshedSnoc | src/reviews/reviews.service.ts:27-32 | one more record is one more update branch on the row holding its id |
| LegacyReviews.RefreshedIdempotent | src/reviews/reviews.service.ts:29-32 | refreshing twice from the same batch is refreshing once |
| LegacyReviews.UpsertOneEffect | src/reviews/reviews.service.ts:27-45 | one upsert keeps every row, overwrites only `rating`/`content` of the holder of the id, creates only the record's payload under the next id when the id was new, and leaves the id present |
| LegacyReviews.UpsertAll | src/reviews/reviews.service.ts:24-47 | the loop keeps the unique index, succeeds exactly when every date is valid and then counts every record; otherwise it stops at the first invalid date with that record's error |
| LegacyReviews.UpsertAllLast | src/reviews/reviews.service.ts:24-47 | a batch of dated records is reconciled as its prefix followed by one upsert of the last record |
| LegacyReviews.UpsertAllStopped | src/reviews/reviews.service.ts:24-55 | once a record has been refused, one more record changes nothing |
| LegacyReviews.FailureIsFinal | src/reviews/reviews.service.ts:24-55 | after a refused record the remaining records change nothing |
| LegacyReviews.FailureKeepsEarlierUpserts | src/reviews/reviews.service.ts:24-55 | a failed sync leaves exactly the table of the successful upserts before the refused record |
| LegacyReviews.UpsertAllReconciles | src/reviews/reviews.service.ts:24-47 | after a successful sync: unique index, no row lost, old rows only refreshed, new rows hidden `create` payloads of the first record with their id, every record's id present |
| LegacyReviews.EarlierCreateKept | src/reviews/reviews.service.ts:27-44 | a row created for a first record stays that record's payload after one more record, refreshed by it |
| LegacyReviews.LaterCreateFirst | src/reviews/reviews.service.ts:27-44 | when every earlier record's id is held and `x`'s is not, `x` is the first record with its id and its payload is unchanged by the refresh |
| LegacyReviews.ExistingRowsOnlyRefreshed | src/reviews/reviews.service.ts:29-32 | an existing row keeps every field but `rating`/`content`, which come from the last record with its id; a row no record names is untouched |
| LegacyReviews.NewRowsAreHiddenCreates | src/reviews/reviews.service.ts:25-44 | a created row holds an id that was not in the table, is hidden, has the default status, and carries the fields of the first record with its id, with categories or [] |
| LegacyReviews.RefreshAll | src/reviews/reviews.service.ts:29-32 | refreshing every row adds and removes none |
| LegacyReviews.UpsertAllOnPresent | src/reviews/reviews.service.ts:27-45 | when every record's id is already stored, the sync creates nothing and only refreshes |
| LegacyReviews.RefreshAllStep | src/reviews/reviews.service.ts:27-45 | upserting a stored id is one more refresh of every row |
| LegacyReviews.RefreshedByAll | src/reviews/reviews.service.ts:27-45 | a table whose rows went through a prefix and then one record is the refresh of the original by the longer batch |
| LegacyReviews.RefreshAllUnchanged | src/reviews/reviews.service.ts:29-32 | refreshing a table whose rows are already refreshed changes nothing |
| LegacyReviews.ReconciledIsFixed | src/reviews/reviews.service.ts:27-45 | a reconciled table is already refreshed from its batch |
| LegacyReviews.SyncTwiceChangesNothing | src/reviews/reviews.service.ts:24-55 | a second sync of the same batch, after a success or after a refused record, leaves the table identical (row count, every `isVisible`, every field) and ends with the same count and the same error |
| LegacyReviews.SyncTwiceDatedChangesNothing | src/reviews/reviews.service.ts:24-47 | a second run of a successful sync changes nothing and counts every record |
| LegacyReviews.UpsertAllAdvances | src/reviews/reviews.service.ts:24-47 | after a clean prefix, a record with a valid date is one more upsert of the table the prefix produced |
| LegacyReviews.UpsertAllRefuses | src/reviews/reviews.service.ts:24-47 | after a clean prefix, a record with an Invalid Date ends the whole batch with the prefix's table and that record's `InvalidDate` |
| LegacyReviews.SyncReviews | src/reviews/reviews.service.ts:15-57 | the store ends as `UpsertAll` says; success exactly when every date is valid, then the count is the batch length; otherwise the refusal's error; an unreadable file changes nothing |
| LegacyReviews.BuildQuery | src/reviews/reviews.service.ts:63-86 | a row satisfies the where-object exactly when it matches every truthy filter (exact `isVisible`); the order is the requested field with `desc` default, else `date desc` whatever `sortOrder` says |
| LegacyReviews.FindAll | src/reviews/reviews.service.ts:59-92 | a permutation of the matching rows, sorted as `BuildQuery` orders them |
| LegacyReviews.UpdateVisibility | src/reviews/reviews.service.ts:94-104 | NotFound and no change on an unknown id; otherwise exactly one field of exactly one row changes |

## Left out

- Prisma itself is not modelled: the driver, the connection, and the atomicity of single calls are replaced by the in-memory `Store`. `hostawayId` is taken to carry a unique index, since the legacy upsert's `where: { hostawayId }` needs one; the schema file is not part of this model.
- The live provider call, the HTTP client and its configuration become a `ProviderResult` parameter: a list, null, or a thrown error.
- Reading and parsing `mock-reviews.json` becomes a `FileRead` parameter: the records, or unreadable. Records that parse into other shapes are not modelled.
- Logging, `console.error`, and the `status`/`message` strings of the sync response are left out. The response is the count or the error.
- Dates are milliseconds with a validity flag. "Now" is one parameter per sync call, where the source reads the clock once per record.
- Ratings are unbounded reals. JavaScript's `Number(x)` on arbitrary values is reduced to "a number or NaN".
- IncomingReviews.GetListingRating: the `toFixed(2)` rounding of the average is not modelled. The contract gives the exact mean.
- Text.Lower: case-insensitive matching lower-cases ASCII letters only. Other Unicode case folding and collation are not modelled.
- LegacyReviews.SyncReviews: the store's refusal of a write is modelled only for an unparsable `submittedAt`, where `new Date` gives an Invalid Date. Other database errors are not modelled.
- LegacyReviews.CreatePayload: the column default of `status` is a parameter, because the schema is not part of this model.
- Sorting: `sortBy` is one of `rating` or `date`, as the request type declares. A sort on another column name is not modelled. Ties keep ascending id order, which the database does not promise.
- IncomingReviews.FindAllPaginated: the model takes `page` and `limit` as naturals. Request validation also accepts signed and fractional numeric strings, and these are not modelled: a fractional page gives a `skip` between two pages, a fractional `limit` a non-integer `take` that Prisma refuses, and a negative page a negative `skip`.
- Controllers, modules, `main.ts`, the configuration and the request validation decorators are left out. The filter arrives as a typed `ReviewFilter`.
- The legacy request filter type is not part of this model. `LegacyReviews` uses the same `ReviewFilter` as the current service.
- Concurrent requests against the store are not modelled.
- Id sequence: the model hands out ids without gaps. `ReviewStore.Store.Create` leaves `nextId` unchanged when it refuses a row, `IncomingReviews.SyncReviews` ends at `nextId + k` after a repeated id at record `k`, and `LegacyReviews.SyncTwiceChangesNothing` keeps `nextId` equal. A database sequence does not promise this: a refused insert or upsert can still use up an id, so on the database only the rows, not the next id, are as these contracts say.
