# URL monitor: a Dafny model

The repository holds two small URL-monitoring services, and this project keeps them apart.

- **The backend and its worker** share two MongoDB collections:
  - `urls`: the monitored targets, each with an `isActive` flag;
  - `checks`: the append-only history of probe results.

  The REST handlers of `backend/routes/urls.js` list, create, update and delete URLs. Creating a URL also probes it once with `runCheck`. Deleting a URL cascades to its checks. The worker `runChecks` (`worker/worker.js`) visits every active URL. It skips a URL checked less than `CHECK_INTERVAL` ago. Otherwise it probes the URL and appends one record: a success record, or a failure record whose status is the rejected response's status, or 500 when there is none (`err.response?.status || 500`). A throw from the latest-check lookup, or from the failure record's own insert, ends the cycle with no record for that URL.
- **The root application** has two parts:
  - an instant check (`routes/checkRoutes.js`) that fetches a trimmed URL and reports status, time and UTF-8 size, with a zeroed fallback when the fetch throws;
  - a `tracked_sites` collection (`routes/trackedRoutes.js`) that keeps trimmed URLs with no duplicates.

The modules are:

- `Options`: the `Option` type.
- `JsValues`: request values and JavaScript truthiness, `String.prototype.trim`, and the UTF-16 and UTF-8 lengths of a string.
- `Probe`: `runCheck`, and the `/<a /g` link counter.
- `Collections`: the `urls` and `checks` documents, their consistency predicates, and the `Database` class holding both collections.
- `Worker`: the check cycle. The specification functions `Step`, `CycleFrom` and `Cycle` describe it. The imperative method `RunChecks` carries out the loop and is proved equal to `Cycle`.
- `UrlRoutes`: the handlers of `backend/routes/urls.js`, as methods on `Database`.
- `CheckRoutes`: the instant check, as pure functions.
- `TrackedRoutes`: the `TrackedSites` class and its three handlers.

The outside world is an input everywhere:

- **HTTP:** the outcome of a fetch is a datatype (`Outcome`, `FetchResult`).
- **Clocks:** every clock reading is an integer parameter.
- **Database faults:** each database call that may throw is a boolean or a `Fault` value.
- **Document ids:** a fresh `ObjectId` is the next value of a counter.

A string is its sequence of Unicode code points. `html.length` is modelled as the UTF-16 length (`Utf16Length`). `Buffer.byteLength(s, "utf8")` is modelled as the UTF-8 length (`Utf8Length`).

## Model

| member | source | states |
|---|---|---|
| JsValues.Truthy | backend/routes/urls.js:23 | `!url` for a request value: a missing value, the empty string and a falsy non-string are refused |
| JsValues.TrimStart | routes/checkRoutes.js:33 | what remains is a suffix of the input that does not start with white space, and everything removed was white space |
| JsValues.TrimEnd | routes/checkRoutes.js:33 | what remains is a prefix of the input that does not end with white space, and everything removed was white space |
| JsValues.Trim | routes/checkRoutes.js:37 | `url.trim()`: leading, then trailing, white space stripped (properties in the lemmas below) |
| JsValues.TrimIsSlice | routes/checkRoutes.js:37 | `trim` returns one contiguous slice of its input |
| JsValues.TrimIsMaximalStrip | routes/checkRoutes.js:37 | only white space lies around the slice `trim` keeps, and the slice neither starts nor ends with white space |
| JsValues.TrimEmptyIffAllSpace | routes/checkRoutes.js:33 | `url.trim() === ""` holds exactly when the string is white space only |
| JsValues.TrimIdempotent | routes/trackedRoutes.js:18 | trimming a trimmed URL changes nothing |
| JsValues.TrimStartSkipsSpace | routes/checkRoutes.js:37 | leading white space does not change what `trim` keeps from the start |
| JsValues.TrimEndSkipsSpace | routes/checkRoutes.js:37 | trailing white space does not change what `trim` keeps from the end |
| JsValues.TrimStartAppend | routes/checkRoutes.js:37 | stripping leading white space stops at the first other character and keeps everything after it |
| JsValues.TrimIgnoresPadding | routes/trackedRoutes.js:18 | white space around a string does not change its trimmed form |
| JsValues.TrimmedUrl | routes/trackedRoutes.js:14-18 | a `url` is accepted exactly when it is a string that is not white space only; the accepted value is its trimmed form and is non-empty |
| JsValues.TrimmedUrlEdges | routes/trackedRoutes.js:18 | an accepted URL has no white space at either end |
| JsValues.Utf16Length | backend/utils/runCheck.js:11 | `html.length` counts one or two UTF-16 units per code point |
| JsValues.Utf8Length | routes/checkRoutes.js:21 | the UTF-8 byte length is between one and four bytes per code point, and at least the UTF-16 length |
| JsValues.Utf8LengthAppend | routes/checkRoutes.js:21 | the byte length of a concatenation is the sum of the byte lengths |
| JsValues.Utf8LengthAscii | routes/checkRoutes.js:21 | ASCII text has one byte per character |
| Probe.FailureStatus | backend/utils/runCheck.js:17 | `err.response?.status \|\| 500`: the response status when present and non-zero, else 500; never 0 |
| Probe.CountAnchors | backend/utils/runCheck.js:7 | the global match of `<a ` finds disjoint three-character matches, so three times the count is at most the length |
| Probe.CountAnchorsIsOccurrences | backend/utils/runCheck.js:7 | the left-to-right global match counts every position where `<a ` starts |
| Probe.OccurrencesZeroIffAbsent | backend/utils/runCheck.js:7 | the reference count is zero exactly when `<a ` occurs nowhere |
| Probe.NoAnchorsIffZero | backend/utils/runCheck.js:7 | the link count is zero exactly when the body contains no `<a ` |
| Probe.AnchorPrefix | backend/utils/runCheck.js:7 | a body starting with `<a ` has one more link than the rest of it |
| Probe.PlainTextPrefix | backend/utils/runCheck.js:7 | text without `<` before a body adds no links |
| Probe.AnchoredText | backend/utils/runCheck.js:7 | `<a ` followed by text without `<` adds exactly one link to what follows |
| Probe.TwoAnchors | backend/utils/runCheck.js:7 | two anchors, each followed by text without `<` (as in `<a href=1><a href=2>`), are two links |
| Probe.OccurrencesSkip | backend/utils/runCheck.js:7 | a prefix with no occurrence start adds nothing to the reference count |
| Probe.NoLinkExamples | backend/utils/runCheck.js:7 | matching is case-sensitive and needs the space: `<A href=1>` and `<a>` have no links |
| Probe.RunCheck | backend/utils/runCheck.js:3-23 | total on every outcome, with `checkedAt` set; a response with text gives its status, its length and its count of `<a `; anything else gives zeroed sizes and the caught status or 500; a rejection never yields status 0; links times three never exceed the size |
| Collections.Attach | backend/routes/urls.js:41-44 | `{ urlId, ...checkResult }` carries the URL id and, with it removed, is exactly the result |
| Collections.ActiveUrls | worker/worker.js:14 | `find({ isActive: true })` returns exactly the active documents |
| Collections.ActiveUrlsKeepIds | worker/worker.js:14 | the active documents of a collection with distinct ids have distinct ids |
| Collections.WithoutChecksOf | backend/routes/urls.js:61 | `deleteMany({ urlId })` removes every check of that URL and keeps every other check as often as it was there |
| Collections.WithoutUrl | backend/routes/urls.js:64 | `deleteOne({ _id })` removes the document with that id and keeps every other document |
| Collections.PrependKeepsIds | backend/routes/urls.js:64 | a document with a fresh id below the bound, in front of documents with distinct ids, keeps the ids distinct and below the bound |
| Collections.SetUrl | backend/routes/urls.js:88-91 | `$set: { url }` changes only the `url` of the matching document; its id, `isActive` and `createdAt` and all other documents are kept |
| Collections.CascadeKeepsChecksAttached | backend/routes/urls.js:60-64 | deleting the checks and then the URL leaves every remaining check attached to a remaining URL |
| Collections.SetUrlKeepsChecksAttached | backend/routes/urls.js:88-91 | an update keeps the ids, so checks stay attached and ids stay distinct |
| Collections.RemovingUrlAloneOrphansItsChecks | backend/routes/urls.js:60-64 | deleting the URL without its checks would leave orphan checks, so the cascade is needed |
| Collections.ChecksOfOthersStayAttached | backend/routes/urls.js:61 | after the check deletion alone, every check is still attached |
| Collections.WithoutUrlKeepsIds | backend/routes/urls.js:64 | a deletion keeps the ids distinct and below the next fresh id |
| Collections.NoMatchRemovesNothing | backend/routes/urls.js:64-68 | deleting an id no document has changes nothing (the 404 case) |
| Collections.NoMatchUpdatesNothing | backend/routes/urls.js:88-95 | updating an id no document has changes nothing (the 404 case) |
| Collections.InsertKeepsConsistency | backend/routes/urls.js:32-44 | a new document with a fresh id, and checks of it, keep ids distinct and every check attached |
| Collections.Database.constructor | backend/routes/urls.js:29-30 | both collections start empty and consistent |
| Worker.CheckInterval | worker/worker.js:4 | `Number(CHECK_INTERVAL) \|\| 60000`: the configured value unless it is missing, NaN or 0, then 60000; never 0 |
| Worker.IsDue | worker/worker.js:23-28 | a URL with no check is due; otherwise it is skipped while less than the interval has passed since its latest check |
| Worker.DueBoundaryInclusive | worker/worker.js:23-28 | a URL never checked is due; exactly one interval after its last check it is due again; one millisecond earlier it is skipped |
| Worker.LatestCheckedAt | worker/worker.js:18-21 | `checkedAt` of the newest check of a URL, by scanning the log from its end (characterised by `LatestIsMaximum`) |
| Worker.LatestIsMaximum | worker/worker.js:18-21 | the newest check of a URL is absent exactly when it has no check; otherwise it is the greatest `checkedAt` among its checks, failures included |
| Worker.LatestIgnoresOtherUrls | worker/worker.js:18-21 | checks of other URLs do not change a URL's newest check |
| Worker.SuccessRecord | worker/worker.js:39-45 | the record of a successful probe: status, UTF-16 length of the body, `<a ` count, timestamp |
| Worker.FailureRecord | worker/worker.js:51-57 | the catch block's record: `err.response?.status \|\| 500`, zero sizes, timestamp |
| Worker.ProbeRecord | worker/worker.js:31-57 | the record written when no insert throws: the success record for a text response, else the failure record |
| Worker.Step | worker/worker.js:16-58 | one iteration of the loop: skip, append one record, or leave the loop (see `StepAbortIff`) |
| Worker.CycleFrom | worker/worker.js:16-59 | the loop over the remaining URLs, stopping at the first step that leaves it (see `CycleFromExtends`) |
| Worker.Cycle | worker/worker.js:6-65 | one run of `runChecks`: nothing when listing the active URLs throws, else the loop over them |
| Worker.ProbeRecordIsRunCheck | worker/worker.js:36-57 | the record the worker writes equals `runCheck`'s result plus `urlId` |
| Worker.StepAbortIff | worker/worker.js:16-64 | handling a URL leaves the loop exactly when the lookup throws, or the URL is due and its record's insert throws with no successful fallback; any record appended belongs to the URL |
| Worker.CycleFromExtends | worker/worker.js:16-59 | the loop only appends: the old checks stay as a prefix, with at most one new record per URL visited |
| Worker.CycleFromAppendsForVisited | worker/worker.js:39-40 | every record the loop appends belongs to a URL it visits |
| Worker.RunChecks | worker/worker.js:6-65 | the loop leaves `urls` untouched, keeps the database consistent, and leaves `checks` equal to the cycle specification under the configured interval |
| Worker.CycleKeepsChecksAttached | worker/worker.js:14-59 | a cycle appends only checks of existing URLs |
| Worker.InactiveNeverProbed | worker/worker.js:14 | an inactive URL receives no new record |
| Worker.RecentlyCheckedIsSkipped | worker/worker.js:18-28 | less than one interval after a recorded check, success or failure, the same URL is skipped |
| Worker.DueRecords | worker/worker.js:23-58 | the records a fault-free cycle plans, judged against the log before the cycle; never more records than URLs visited (one per due URL is `DueRecordsExactlyOnce`) |
| Worker.DueRecordsForVisited | worker/worker.js:39-52 | every due record belongs to a visited URL |
| Worker.DueRecordsIgnoreOtherUrls | worker/worker.js:18-25 | a record of a URL outside the list does not change which URLs are due |
| Worker.FaultFreeFrom | worker/worker.js:16-58 | the loop when no database call throws: each URL due against the log as it then stands gets its probe record |
| Worker.FaultFreePrefix | worker/worker.js:16-58 | failure isolation: while no database call throws, each due URL gets its probe record, judged against the log as it stands then, whatever its probe outcome, and the loop moves on to the next URL |
| Worker.FaultFreeFromIsDueRecords | worker/worker.js:18-45 | with distinct ids, the records appended never change which later URLs are due, so the fault-free cycle appends exactly the records planned against the log before the cycle |
| Worker.DueHeadJoins | worker/worker.js:31-45 | the inductive step when the first URL is due: its record, then the rest, is the whole plan |
| Worker.SkippedHeadJoins | worker/worker.js:23-28 | the inductive step when the first URL is skipped: nothing is appended for it |
| Worker.HeadIdNotInRest | worker/worker.js:14 | with distinct ids, the first URL visited is not among the following ones, which keep distinct ids |
| Worker.FaultFreeCycle | worker/worker.js:16-59 | a cycle without database faults appends exactly the due records, in visit order |
| Worker.FailureInsertStopsCycle | worker/worker.js:16-64 | after fault-free URLs, a due URL whose catch-block insert throws (after a failed probe, or after a successful probe whose own insert threw) ends the cycle: the log keeps what the earlier URLs produced, and later URLs get nothing |
| Worker.LookupFailureStopsCycle | worker/worker.js:18-21 | after fault-free URLs, a throw from the latest-check lookup ends the cycle, due or not |
| Worker.AbortStopsCycle | worker/worker.js:16-64 | a URL whose handling throws out of the loop ends the cycle: nothing more is appended |
| Worker.FallbackRecordContinues | worker/worker.js:39-58 | a successful probe whose insert throws gets, when the catch-block insert succeeds, a failure record with status 500 and zero sizes, and the loop goes on to the next URL |
| Worker.CountForAppend | worker/worker.js:39-57 | the records of one URL in a concatenation are those of both parts |
| Worker.CountForAbsent | worker/worker.js:39-57 | a log with no record of a URL counts zero for it |
| Worker.LaterRecordsSkipHead | worker/worker.js:39-57 | with distinct ids, no record planned for the later URLs belongs to the first |
| Worker.DueRecordsExactlyOnce | worker/worker.js:23-58 | in a fault-free cycle each due URL gets exactly one record and each skipped URL none |
| Worker.NeverCheckedIsProbedOnce | worker/worker.js:23-45 | an active URL with no previous check has exactly one check after a fault-free cycle |
| UrlRoutes.List | backend/routes/urls.js:8-18 | every URL document, or 500 when connecting or the query throws; only 200 or 500 |
| UrlRoutes.Post | backend/routes/urls.js:20-50 | 400 and no change for a falsy `url`; 500 and no change when connecting or the URL insert throws; otherwise one active document with a fresh id, then its `runCheck` record, and 201 with the id; if the check insert throws, the URL stays and the answer is 500; the status is always one of 201, 400 or 500 |
| UrlRoutes.Delete | backend/routes/urls.js:52-75 | 500 and no change on connection failure, invalid id or check-deletion failure; otherwise every check of the id is deleted first; 500 if the URL deletion throws; else 404 with the URL list unchanged when no document has the id, or the document deleted; consistency kept in every case; the status is always one of 200, 404 or 500 |
| UrlRoutes.Put | backend/routes/urls.js:77-102 | 500 on connection failure; 400 for a falsy `url`; 500 for an invalid id or a failed update; 404 with no change on no match; otherwise only that document's `url` changes; checks never change; the status is always one of 200, 400, 404 or 500 |
| CheckRoutes.Status | routes/checkRoutes.js:30-52 | 400 exactly for a rejected request and 200 for every report, including the fallback |
| CheckRoutes.AnalyzeUrl | routes/checkRoutes.js:11-24 | the report carries the URL, the status, the time between the two clock readings (non-negative when the clock does not go back), and the UTF-8 size, at least the character count |
| CheckRoutes.FallbackReport | routes/checkRoutes.js:42-51 | the catch block reports status, time and size 0 and the error message |
| CheckRoutes.PostCheck | routes/checkRoutes.js:30-52 | 400 exactly for a missing, non-string or blank `url`; otherwise 200 with the trimmed URL; the status, time and byte size of the fetched body when the fetch returns; zeroed metrics and the message when it throws |
| CheckRoutes.PaddedUrlSameReply | routes/checkRoutes.js:33-40 | white space around the URL changes neither what is fetched nor the answer |
| CheckRoutes.OnlyTrimmedUrlIsFetched | routes/checkRoutes.js:37-40 | only the outcome of fetching the trimmed URL affects the answer |
| CheckRoutes.AsciiBodySize | routes/checkRoutes.js:21 | a plain ASCII body's size is its character count |
| TrackedRoutes.IndexOf | routes/trackedRoutes.js:23 | the first document with the URL, absent exactly when none has it |
| TrackedRoutes.HasSite | routes/trackedRoutes.js:23-24 | `findOne({ url })` finds a document: some document has exactly that URL |
| TrackedRoutes.RemoveAt | routes/trackedRoutes.js:69 | one document fewer: exactly the one at that position |
| TrackedRoutes.RemoveAtShifts | routes/trackedRoutes.js:69 | the documents after the deleted one move down one position, those before it stay |
| TrackedRoutes.RemoveUniqueUrl | routes/trackedRoutes.js:69-75 | with unique URLs, deleting the document of a URL leaves none with that URL and keeps every other document |
| TrackedRoutes.RemoveKeepsInvariants | routes/trackedRoutes.js:69 | a deletion keeps URLs unique and clean and ids fresh |
| TrackedRoutes.AppendKeepsInvariants | routes/trackedRoutes.js:28-29 | appending a document with a new clean URL and a fresh id keeps URLs unique and clean and ids fresh |
| TrackedRoutes.CleanIffTrimmed | routes/trackedRoutes.js:18 | clean URLs are exactly the non-empty strings that `trim` leaves unchanged |
| TrackedRoutes.TrackedSites.constructor | routes/trackedRoutes.js:21 | the collection starts empty and valid |
| TrackedRoutes.TrackedSites.Post | routes/trackedRoutes.js:9-35 | 503 without a database; 400 for a missing, non-string or blank `url`; 500 if the lookup throws; 409 with the URL if the trimmed URL is already stored; 500 if the insert throws; otherwise exactly one `{ url: cleanUrl, createdAt }` document is appended and echoed with 201, as `Add` states; only a 201 changes the collection; URLs stay unique; the status is always one of 201, 400, 409, 500 or 503 |
| TrackedRoutes.TrackedSites.Add | routes/trackedRoutes.js:20-34 | for a clean URL: 500 if the lookup throws, 409 if it is stored, 500 if the insert throws, else one document appended with a fresh id and 201; the invariants hold afterwards; the status is always one of 201, 409 or 500 |
| TrackedRoutes.TrackedSites.List | routes/trackedRoutes.js:40-50 | 503 without a database, 500 if the query throws, otherwise every document; the status is always one of 200, 500 or 503 |
| TrackedRoutes.TrackedSites.Delete | routes/trackedRoutes.js:55-79 | 503, 400 or 500 with no change; 404 with no change when no document has the trimmed URL; otherwise exactly that one document is deleted, all others kept, and the URL echoed, as `Remove` states; the status is always one of 200, 400, 404, 500 or 503 |
| TrackedRoutes.TrackedSites.Remove | routes/trackedRoutes.js:66-78 | for a trimmed URL: 500 if the deletion throws, 404 with no change if no document has it, else the first such document deleted and the URL echoed; the invariants hold afterwards; the status is always one of 200, 404 or 500 |
| TrackedRoutes.PaddedDuplicateConflicts | routes/trackedRoutes.js:14-26 | a stored URL sent again with white space around it trims to the stored URL, so POST answers 409 and cannot create a duplicate |

## Left out

- HTTP: `axios.get` and `fetch` are not modelled. Their outcomes are inputs, and so are the 10000 ms timeout and axios's parsing of the response body. A non-string `response.data` is the `Parsed` outcome: `html.match` throws on it and the failure record is written.
- Clocks: `Date.now()` and `new Date()` are integer inputs. ISO date formatting is not modelled.
- Clock reads in the worker: the clock reads at lines 44 and 56 of worker/worker.js are one `stamp` per URL, because only one of the two records is written.
- The timer: the worker's `setInterval` schedule is not modelled, and neither are overlapping cycles. The model describes one cycle at a time.
- Concurrency: the find-then-insert race in routes/trackedRoutes.js:23-29 is not modelled. Neither is a worker cycle interleaved with a DELETE, which can leave a check of a deleted URL.
- `Number(process.env.CHECK_INTERVAL)`: string parsing and fractional or infinite values are not modelled. The converted number is an `Option<int>`, with `None` standing for NaN.
- `ObjectId`: the string format and the parsing of `req.params.id` are not modelled. An invalid id is `None`, and a fresh id is the next value of a counter.
- MongoDB internals: the query and sort implementation is not modelled. Collections keep insertion order, and the "newest check" is characterised by its `checkedAt` value rather than by which tied document `findOne` returns.
- UTF-16 lone surrogates: a Dafny string holds Unicode scalar values, so strings containing lone surrogates are not modelled.
- Error messages: the `error` texts of the JSON responses are not modelled, apart from the message carried by the instant check's fallback.
- Not part of this model: backend/routes/checks.js (a single sorted query), server.js and backend/index.js (application wiring), frontend/src/services/api.js (client configuration), and console logging.
- CheckRoutes.PostCheck: the error message is passed through as given. Whether it is non-empty depends on the runtime's error and is not stated.
- Collections.WithoutUrl: states which documents remain, not how often each does. Under `DistinctIds`, which the model keeps as an invariant, each document occurs at most once.
