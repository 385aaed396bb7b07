# Job-listing store: a Dafny model

This project models the request-handling core of a small job-listing
service (`api/list.js`): a collection of job records keyed by a unique
`apply_url`, served newest first in pages by `GET /jobs`, and filled by
`POST /jobs`, which inserts only the submitted jobs whose URL is not yet
stored.

Files:

- `wrappers.dfy` — `Option` (a query parameter that may not parse) and `Result`.
- `job_schema.dfy` — the schema: `Posting` (what a client sends), `Job` (what
  is stored, with `date_posted`, `createdAt`, `updatedAt` filled in), the
  unique index on `apply_url` (`UniqueUrls`), the 60-day TTL constant
  (`RetentionSeconds` = 5184000) and the single error value
  `InternalServerError` ("Internal server error").
- `listing.dfy` — `GET /jobs` as pure functions: JavaScript's
  `parseInt(q) || d` defaulting, the newest-first sort, the `skip`/`limit`
  window, `Math.ceil(total / limit)`, and the handler `ListJobs`.
- `ingest.dfy` — `POST /jobs`: payload normalisation, the existing-URL
  lookup, the filter, the unordered `insertMany` under the unique index,
  and the class `JobStore`, whose `BulkInsert` method updates the stored
  sequence in place.

Inputs that come from outside the handlers are parameters: the parsed
query values (`Option<int>`, `None` standing for `NaN`), the insertion time
`now`, and `reachable`, which is false when the database cannot be reached
(every such failure ends in the generic error value).

The model follows what the code does, including these less obvious
behaviours:

- A negative `page` (or `limit`) is truthy and survives the defaulting;
  only a non-numeric value or zero falls back to 1 (or 100). A negative
  offset `(page - 1) * limit` is refused by MongoDB, so the handler answers
  with the generic error. A negative `limit` asks MongoDB for at most
  `|limit|` records in a single batch, and `pages` is then `Math.ceil` of a
  negative quotient.
- Two new entries sharing one URL in a single batch are not filtered out.
  With `ordered: false`, `insertMany` commits one of them, the unique index
  rejects the other, and the call fails with the generic error. The
  committed record stays stored (`Ingest.InBatchDuplicateFails`); the caller
  is not told `added = 1, skipped = 1`, and a retry of the same body skips
  every entry (`Ingest.ResubmissionSkipsAll`).
- `job_title` and `apply_url` are `required` (api/list.js:16, 18). Mongoose's
  validator rejects a missing or empty string, and the model writes both as
  `""`. With `ordered: false`, `insertMany` drops such a document without
  throwing and writes the rest. The handler still counts it in `added`,
  because `added` is the length of the filtered batch, not the number of
  records written (`Ingest.DroppedPostingReportedAdded`). A retry sends it
  again.
- A posted `createdAt` or `updatedAt` is kept, since Mongoose fills a
  timestamp only when the document has none. A posted `date_posted: null`
  stays `null`, since the default applies only to a field that was left out.

## Model

| member | source | states |
|---|---|---|
| `JobSchema.Stamp` | api/list.js:14-23 | an inserted record keeps the posted fields; `date_posted` becomes the insertion time only when it was left out and stays null when posted as null; `createdAt` and `updatedAt` keep a posted value and are the insertion time otherwise |
| `JobSchema.Validated` | api/list.js:16-18 | a posting survives validation exactly when it is in the batch and has a non-empty `job_title` and `apply_url` |
| `JobSchema.MeetsRequired` | api/list.js:16-18 | the `required` validator on `job_title` and `apply_url`: both must be non-empty strings (its consequences are stated by `Validated`, `ValidatedKeepsAll`, `StampAllStorable` and `DroppedPostingReportedAdded`) |
| `JobSchema.ValidatedConcat` | api/list.js:16-18 | validation works posting by posting: one posting survives exactly when it passes, and a concatenation is validated part by part, so every valid posting reaches the insert, repeats included, in batch order |
| `JobSchema.ValidatedKeepsAll` | api/list.js:16-18 | a batch whose postings all pass validation is kept whole |
| `JobSchema.ValidatedDistinct` | api/list.js:16-18 | dropping invalid postings keeps distinct URLs distinct |
| `JobSchema.StampAllStorable` | api/list.js:16-18 | every record stamped from validated postings has a non-empty title and URL |
| `JobSchema.StampAllUrls` | api/list.js:18 | stamping keeps every URL, so a stamped batch meets the unique index exactly when its postings have distinct URLs |
| `Listing.OrDefault` | api/list.js:44-45 | JavaScript `parseInt(q)` or-default: a non-numeric or zero query yields `d`, and any other integer, negative ones included, is kept |
| `Listing.RequestedPage` | api/list.js:44 | the page is never 0; it is the parsed value when that is non-zero and 1 otherwise |
| `Listing.RequestedLimit` | api/list.js:45 | the limit is never 0; it is the parsed value when that is non-zero and 100 otherwise |
| `Listing.InsertByAge` | api/list.js:48 | inserting into a newest-first sequence keeps it newest first and adds exactly that record |
| `Listing.SortNewestFirst` | api/list.js:48 | the sorted store is in non-increasing `createdAt` order and is a permutation of the store |
| `Listing.Window` | api/list.js:49-50 | `skip(n).limit(m)`: element `i` is element `n + i` of the input, and there are `min(m, size - n)` of them, none when `n` is past the end |
| `Listing.CeilDiv` | api/list.js:58 | `Math.ceil(total / limit)`: the least `q` with `total <= q * limit` for a positive limit, and with `q * limit <= total` for a negative one |
| `Listing.ListJobs` | api/list.js:41-63 | succeeds exactly when the store is reachable and the offset is not negative; then `total` is the store size, `page` the defaulted page, at most abs(limit) jobs in newest-first order taken from the store, `pages` the ceiling of `total / limit`, and no jobs exactly when the offset is at or past the end; any failure is the generic error |
| `Listing.WindowOfNewestFirst` | api/list.js:47-50 | a window of a newest-first sequence is newest first |
| `Listing.WindowSubMultiset` | api/list.js:47-50 | a window holds only records of the sequence it is cut from |
| `Listing.ListJobsIsWindow` | api/list.js:47-50 | the returned jobs are exactly the slice of the newest-first store starting at `(page - 1) * limit` |
| `Listing.PositivePagingSucceeds` | api/list.js:44-58 | with positive page and limit the request succeeds, returns at most `limit` jobs, reports the store size and `(pages - 1) * limit < total <= pages * limit` |
| `Listing.PastLastPage` | api/list.js:49-58 | page `p` starts past the last record exactly when `p > pages` |
| `Listing.PageNonEmptyIff` | api/list.js:47-58 | a positive page is non-empty exactly when it is at most `pages`; a page past the last is empty rather than an error |
| `Ingest.Payload` | api/list.js:70 | an array body is the batch as it is; any other body is a batch of one |
| `Ingest.ExistingUrls` | api/list.js:71-74 | the lookup finds exactly the stored URLs that some payload entry names |
| `Ingest.FilterNew` | api/list.js:76 | an entry is selected exactly when it is in the payload and its URL is not in the existing set; selected plus `CountStored` entries make up the whole payload |
| `Ingest.FilterNewConcat` | api/list.js:76 | the filter keeps the payload's order: filtering a concatenation concatenates the filtered parts |
| `Ingest.LookupMatchesStore` | api/list.js:71-76 | filtering against the looked-up URLs selects and skips the same entries as checking against every stored URL |
| `Ingest.InsertMany` | api/list.js:79 | `insertMany(docs, { ordered: false })`: the old records stay a prefix, and every document is committed, rejected by the unique index, or dropped by validation, with nothing counted twice (the rest is in `InsertionFacts`, `DroppedPostingReportedAdded` and `InBatchDuplicateFails`) |
| `Ingest.InsertUnordered` | api/list.js:79 | the database side of an unordered insert, on the documents that passed validation (`Ingest.InsertMany` validates first): it leaves the old records as a prefix, and committed plus rejected documents account for the whole batch |
| `Ingest.InsertUnorderedUrls` | api/list.js:79 | afterwards every URL of the batch is stored, whether its document was committed or rejected |
| `Ingest.InsertUnorderedKeepsUnique` | api/list.js:18 | the unique index on `apply_url` still holds after an unordered insert, and every added record comes from the batch |
| `Ingest.InsertUnorderedCleanIff` | api/list.js:79 | the insert rejects nothing exactly when the batch has distinct URLs none of which is stored |
| `Ingest.InsertUnorderedCleanAppends` | api/list.js:79 | an insert that rejects nothing appends the whole batch in order |
| `Ingest.InsertionFacts` | api/list.js:73-79 | for one request the lookup selects `ToInsert`; `insertMany` on it keeps the unique index and keeps every record valid; it rejects nothing exactly when the URLs of the postings that pass validation are distinct, and then appends those postings |
| `Ingest.ResubmissionSkipsAll` | api/list.js:73-85 | after any call that reached the store, a failed in-batch collision included, a retry of the same body skips every entry that passes validation and only resends entries the validator dropped; when all entries pass, the retry adds nothing and skips everything |
| `Ingest.FreshBatchAddsAll` | api/list.js:66-85 | `n` distinct new postings are all reported added and none skipped; those that pass validation are appended, so a later listing's `total` grows by their number, which is exactly `n` when all pass |
| `Ingest.InBatchDuplicateFails` | api/list.js:76-89 | on any store lacking their URL, two new valid entries with one URL: one is committed (in the model's batch order, the first) and the other rejected, so the call fails |
| `Ingest.DroppedPostingReportedAdded` | api/list.js:76-85 | a new posting with an empty `job_title` is selected for insertion and counted as added, yet `insertMany` writes nothing and rejects nothing |
| `Ingest.JobStore.BulkInsert` | api/list.js:66-89 | keeps the unique index, the validity of every record and the old records; with the store unreachable nothing changes and the result is the generic error; otherwise the store is the result of `insertMany` on the new entries, unchanged when there are none; success exactly when the valid new entries have distinct URLs, and then those are appended, `added` counts every new entry (dropped ones too), `skipped` the payload entries whose URL was stored, and the two sum to the payload size |

## Left out

- Express, CORS, the body-size limit and the `serverless-http` export (api/list.js:2-11, 93): framework plumbing.
- `connectDB` and its `isConnected` flag (api/list.js:28-34): a lazy connection to an external database; its failure is the `reachable` parameter.
- `server.js`: process bootstrap, environment loading and `app.listen`.
- The `/ping` route (api/list.js:37-39): a constant reply.
- The TTL sweep (api/list.js:25): the database removes expired records in the background; only the constant `RetentionSeconds` is recorded.
- `Date.now` and Mongoose timestamps (api/list.js:20, 22): the clock is the parameter `now`, shared by every document of one `insertMany`; per-document millisecond differences are not modelled, and neither is the casting of posted date strings.
- JavaScript `parseInt` on arbitrary strings and the precision of JavaScript numbers: the parsed value is an unbounded `Option<int>`.
- The request body is a typed record (`Ingest.Body` of `JobSchema.Posting`). An array element that is not an object is not represented; in the source, a `null` element makes `payload.map` throw (api/list.js:71), so the reply is the generic 500 and nothing is written. An optional string posted as `null` is not told apart from one left out (both are `None`), though Mongoose stores and returns the `null`.
- Validation beyond `required` on the two string paths (casting of non-string values, other fields' types): not modelled. Validation is modelled as in Mongoose without `throwOnValidationError`, where invalid documents of an unordered `insertMany` are dropped silently.
- Extra document fields (`_id`, `__v`) and fields a client could post beyond the schema.
- Concurrency: requests are modelled one at a time on a single store state, so races between concurrent inserts, and a store that changes between the `find` and the `countDocuments` of one listing, are not captured.
- `Listing.ListJobs`: for a negative `limit` the model returns the whole window of `|limit|` records (and `Listing.ListJobsIsWindow` proves that exact length), whereas MongoDB answers `limit(-n)` with a single batch, which can hold fewer (at most 16 MiB, 101 documents by default in a first batch); batch sizes are not modelled.
- `Ingest.InsertUnordered`: the model tries the documents in batch order, so of two same-URL documents the first is committed and records are appended in batch order; an unordered `insertMany` fixes neither which same-URL document is committed nor the order of commits (this also applies to `Ingest.InBatchDuplicateFails` and to the store `Ingest.JobStore.BulkInsert` leaves after a failed call).
- `Listing.SortNewestFirst`: MongoDB leaves the order of records with equal `createdAt` unspecified; the model fixes one order (earlier-inserted first).
- A failure part-way through an operation other than an in-batch URL collision (the connection dropping during `insertMany`): `reachable` is one flag for the whole request.
- JSON serialisation and console logging.
