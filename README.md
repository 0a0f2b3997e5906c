# Job application tracker — Dafny model

`tracker.js` keeps a list of job applications in a page-wide `jobs` array. It
saves that array to browser storage after every change and redraws a table from
it. This project models the list and what the page does to it:

- `addJob` puts a record built from the form at the front.
- `deleteJob` asks for confirmation and then filters out every record with a
  given id.
- `updateStatus` changes the status of the first record with a given id.
- `calculateStats` counts the records and the responses (interviews and
  offers) and computes a rounded response-rate percentage.
- `getStatusClass` picks the CSS badge class for a status.

Layout:

- `jobs.dfy`: module `Wrappers` (an `Option` type) and module `Jobs`. `Jobs`
  holds the `Job` record and the list functions that specify the mutations:
  `Without` (the filter), `FirstIndex` (the `find`) and `WithStatus`. It also
  holds the lemmas about them.
- `stats.dfy`: module `Stats`, the derived values and their lemmas.
- `tracker.dfy`: module `Tracker`, class `Tracker`. Its field `jobs` is the
  list and its field `stored` is the storage slot. Its methods change both in
  place and are proved against the functions in `Jobs`.

The page's inputs become parameters:

- The form field values and `Date.now()` are parameters of `AddJob`.
- The answer to the `confirm` dialog is the `confirmed` parameter of
  `DeleteJob`.
- The contents of the storage slot at start-up are the constructor's `slot`
  parameter.

## Model

| member | source | states |
|---|---|---|
| Tracker.Tracker.constructor | tracker.js:4 | the list starts as the saved list, or empty when nothing was saved |
| Tracker.Tracker.SaveJobs | tracker.js:15-18 | afterwards the storage slot holds exactly the current list |
| Tracker.Tracker.AddJob | tracker.js:20-36 | the new record is at index 0; the earlier records follow unchanged and in order; the length grows by one; the list is saved |
| Tracker.Tracker.DeleteJob | tracker.js:38-43 | when confirmed, the list becomes the old list without the records carrying the id and is saved, and it is unchanged when no record had that id; when refused, neither the list nor the slot changes |
| Tracker.Tracker.UpdateStatus | tracker.js:45-51 | only the status of the first record with the id changes; every other record, the length and the order stay; with the id absent neither the list nor the slot changes |
| Jobs.Without | tracker.js:40 | the result is no longer than the input, holds no record with the id, and holds only records of the input |
| Jobs.WithoutConcat | tracker.js:40 | filtering distributes over concatenation, so the kept records stay in their relative order |
| Jobs.WithoutCount | tracker.js:40 | each record without the id keeps its number of occurrences; records with the id occur zero times |
| Jobs.WithoutUnchanged | tracker.js:40 | deleting leaves the list equal exactly when no record has the id, and shortens it otherwise |
| Jobs.WithoutIdempotent | tracker.js:40 | deleting an id twice is the same as deleting it once |
| Jobs.AddThenDelete | tracker.js:32-40 | adding a record with a new id and then deleting that id restores the previous list exactly |
| Jobs.FirstIndex | tracker.js:46 | finds nothing exactly when no record has the id; otherwise returns the first position holding it |
| Jobs.WithStatus | tracker.js:45-51 | keeps the length; the first record with the id gets the new status and keeps every other field; all other records stay |
| Jobs.WithStatusAtFirst | tracker.js:46-48 | changing the status at the position `find` returns gives the same list as `WithStatus`; when `find` finds nothing the list is untouched |
| Jobs.WithStatusKeepsIds | tracker.js:45-51 | a status change keeps every id present or absent as it was |
| Jobs.WithStatusIdempotent | tracker.js:45-51 | setting the same status twice is the same as setting it once |
| Jobs.DeleteAfterUpdate | tracker.js:38-51 | updating a record's status and then deleting its id gives the same list as deleting it |
| Stats.CountResponses | tracker.js:64 | the response count is at most the total; it is 0 exactly when no record is an interview or offer, and equals the total exactly when every record is one |
| Stats.CountStatus | tracker.js:65 | the count of one status is at most the total, and is 0 exactly when no record has that status |
| Stats.ResponsesSplit | tracker.js:64-65 | the response count is the interview count plus the offer count |
| Stats.CountResponsesConcat | tracker.js:64 | the response count distributes over concatenation |
| Stats.RoundedPercent | tracker.js:70 | the result is 0 when the total is 0; otherwise it is 100·part/total rounded half up; it lies in [0,100] when the part is at most the total, is 0 for no responses and 100 when every record is a response |
| Stats.PercentEnds | tracker.js:70 | a correctly rounded rate is 0 for no responses and 100 when every record responded |
| Stats.CalculateStats | tracker.js:62-72 | total is the list length; offers ≤ interviews ≤ total; the rate lies in [0,100], is 0 when the total is 0 and otherwise is the rounded percentage; interviews equals the total exactly when every record is an interview or offer |
| Stats.StatsAfterAdd | tracker.js:63-64 | after an add the total grows by one, and the response count grows by one exactly when the new record is an interview or offer |
| Stats.StatsAfterDelete | tracker.js:63-64 | deleting never raises the response count, and lowers it by no more than the number of records removed |
| Stats.StatsAfterUpdate | tracker.js:63-64 | a status change keeps the total and moves the response count by at most one |
| Stats.StatusClass | tracker.js:53-59 | `Interview`, `Rejected` and `Offer` map to their own classes, each exactly for that status; every other string maps to `status-applied` |
| Stats.ResponseBadge | tracker.js:53-64 | a record counts as a response exactly when its badge is the interview or offer class |

## Left out

- Rendering: `render` and the table it builds, the page text written by
  `calculateStats`, the modal, the form reset and the submit listener
  (tracker.js:74-101, tracker.js:113-121). These are presentation only.
- Storage is modelled as a single slot holding the list. JSON encoding is not
  modelled. A slot whose text fails to parse is also not modelled:
  `JSON.parse` throws at tracker.js:4 and the rest of the script does not run.
  The model covers a saved list and an empty slot.
- `exportData` (tracker.js:103-111) builds a download link. This is browser
  I/O.
- `Date.now()` and `confirm` are parameters. Nothing stops two records created
  in the same millisecond from sharing an id. The model keeps that possibility:
  `DeleteJob` then removes every such record and `UpdateStatus` changes only
  the first.
- Records are values in a sequence. The code mutates the record object that
  `find` returns. No record object is shared between two list positions, so
  replacing the element at that index has the same effect.
- Stats.RoundedPercent: computes `Math.round((interviews / total) * 100)` over
  exact rationals as `(200·interviews + total) / (2·total)`. Floating-point
  division and multiplication can land just below an exact half, for example
  29/200·100. Math.round then gives one less than the exact rounding, and the
  model does not capture this.
- Statuses are kept as free strings, as the code takes them from the form.
  The model has no closed status vocabulary. Follow-up state, notes, CSV and
  JSON import, automatic rejection, sorting and grouping by category do not
  exist in tracker.js and are not modelled.
