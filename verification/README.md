# buhgalter-aktobe request desk, modelled in Dafny

The site (`app.py`) is a Flask application for an accounting firm. Visitors
submit a consultation form. The site keeps a client directory
(`clients.json`) deduplicated by e-mail. Each request is filed in a
per-month partition file, `requests_{year}_{month:02d}.json`. An
administrator lists, filters, re-statuses, annotates, assigns, deletes and
exports the requests of a month.

This project lifts the data logic of those handlers out of Flask. Each
handler becomes a pure function over immutable records:

- `Records`: clients, requests, the form, and the store (a map from month
  to request list, plus the client list). It also holds load, save and
  month resolution.
- `Intake`: `consultation`, which validates the form, upserts the client
  and appends the request.
- `Ledger`: `delete_request`, `update_status`, `add_note` and
  `assign_request`.
- `Query`: the filter, sort and statistics block of `admin_panel`, and
  `/api/stats`.
- `Partitions`: `get_filename`, the export file name and the directory
  scan of `get_available_months`.
- `Export`: the rows of `export_requests`.
- `Invariants`: store-wide properties the handlers keep, and the one they
  do not keep.
- Python's semantics for the primitives the handlers rely on:
  - `Text`: `str.strip`, `startswith`, `endswith`, `replace` and `split`.
  - `Numerals` and `Reading`: `str(n)`, `f'{n:02d}'` and `int(s)`.
  - `Ordering`: string order and `sorted(..., reverse=True)`.
  - `Selection`: list comprehensions and the `for ... break` update loop.
  - `Outcomes`: `Option` and `Result`.

Effects become parameters:

- The clock is a `Clock` value holding the current month and the two
  timestamps `consultation` writes.
- `uuid.uuid4()` is the `freshId` argument.
- The directory listing is a sequence of names.
- Disk contents are the `Store` value.

## Model

| member | source | states |
|---|---|---|
| Records.SaveMonth | app.py:79-87 | Saving a month makes that month read back as the saved list, creates its file if absent, and changes no other month and not the clients |
| Text.Strip | app.py:142-147 | A stripped field neither starts nor ends with whitespace and is no longer than the original |
| Text.StripTrims | app.py:142-147 | `strip()` removes only outer whitespace: the result is a slice of the field with nothing but whitespace before and after it |
| Text.StripBlank | app.py:150 | A field strips to the empty string exactly when it is all whitespace (Python's `isspace` set), so `all([...])` rejects it exactly then |
| Text.StripIdempotent | app.py:142-147 | Stripping twice is stripping once |
| Text.JoinSplit | app.py:96 | Rejoining the pieces of `split('_')` with `_` restores the string |
| Text.SplitJoin | app.py:96 | Splitting a join of underscore-free pieces gives back exactly those pieces |
| Text.RemoveAllShrinks | app.py:96 | `replace(pat, '')` shortens a string whenever the pattern occurs in it |
| Numerals.ValueOfDigits | app.py:98 | The decimal numeral of a natural number reads back as that number |
| Numerals.DigitsInjective | app.py:61 | Different natural numbers have different numerals |
| Reading.StrRoundTrip | app.py:98 | `int(str(n)) == n` for every integer, negatives included |
| Reading.Pad2RoundTrip | app.py:98 | `int(f'{n:02d}') == n` for every integer, so zero padding never changes the month read back |
| Reading.SeparatorNotSkipped | app.py:98 | `int()` skips less whitespace than `strip()`: the ASCII separator U+001C is stripped but makes `int()` raise |
| Ordering.BelowTotal | app.py:94 | Python string order is a strict total order: distinct names compare one way, never both |
| Ordering.BelowTransitive | app.py:94 | Python string order is transitive |
| Ordering.SortDescending | app.py:94 | `sorted(names, reverse=True)` is a permutation of the listing in which no name is below a later one |
| Selection.KeepContents | app.py:253 | A comprehension keeps exactly the satisfying elements, each with its original multiplicity |
| Selection.KeepAppend | app.py:292 | A comprehension preserves order: it acts on each part of a concatenation separately |
| Selection.UpdateFirstChanges | app.py:314-317 | The `for ... break` loop changes the first match only, and into `f` of itself; every other position keeps its element |
| Intake.ReadSubmission | app.py:142-152 | The form is rejected exactly when one of name, email, phone or service_type is missing or blank. Otherwise each text field is the form's value stripped ("" when missing), urgency is the raw value ("standard" when missing), and the four required fields are non-empty and trimmed |
| Intake.FirstWithEmail | app.py:159-165 | Finds the first client whose e-mail is exactly the submitted one, or reports that none matches |
| Intake.UpsertSpec | app.py:159-178 | With a matching client, only the first match changes: its counter (default 1) goes up by one, its id is reused and the list length is kept. Without one, exactly one client with counter 1 and the fresh id is appended |
| Intake.UpsertKeepsDirectory | app.py:159-178 | Upserting keeps e-mails unique, and keeps ids unique when the fresh id is unused; the returned id names a client with the submitted e-mail |
| Intake.UpsertAllStep | app.py:159-165 | A submission with the e-mail of a client that no earlier client has bumps that client in place, wherever it sits, and changes nothing else |
| Intake.UpsertAllExisting | app.py:159-165 | Any number of submissions with the e-mail of a client that no earlier client has only add that many to its counter, wherever it sits; every other client is unchanged |
| Intake.RepeatedSubmissionsCount | app.py:159-178 | n submissions with a new e-mail leave exactly one new client with that e-mail, the first fresh id and counter n, after the untouched earlier clients |
| Intake.MaxId | app.py:187 | The largest id in a partition bounds every id and is one of them (0 for a partition with no positive id) |
| Intake.NextIdFixed | app.py:187 | The corrected id exceeds every id in the partition |
| Intake.FileRequest | app.py:180-202 | Saving the directory and then the month with one request appended leaves the old requests as a prefix, the new one last, the month's file in existence (created if absent), and the other months untouched |
| Intake.Submit | app.py:141-202 | A blank required field writes nothing. Otherwise the month grows by one request at the end: id length+1, status new, empty assignee and notes, the request stamp, the form's fields as read, and the id of the client the upsert found or created. The client list becomes the upsert's result, the current month's file exists afterwards (created if absent), and no other month or file changes |
| Intake.SubmitFixed | app.py:183-202 | As `Submit`, with the same fields and client list, but the new request's id exceeds every id already in the month |
| Ledger.Delete | app.py:292 | Deleting never lengthens a month, and deleting an absent id changes nothing |
| Ledger.DeleteContents | app.py:292 | A delete keeps exactly the requests whose id differs, each as often as before, so every match goes and not just the first |
| Ledger.DeletePreservesOrder | app.py:292 | The surviving requests keep their relative order |
| Ledger.DeleteIdempotent | app.py:291-293 | Deleting the same id twice equals deleting it once |
| Ledger.DeleteMiddle | app.py:292 | Deleting id 2 from ids 1, 2, 3 leaves the first and the third, in order |
| Ledger.SetStatus | app.py:308-317 | An unrecognised status is an error. A valid one changes only the status field of the first request with the id; length, order and all other requests are kept, and an absent id changes nothing |
| Ledger.SetNotes | app.py:335-338 | Only the first request with the id changes, and only its notes, which become the new note; an absent id changes nothing |
| Ledger.SetAssignee | app.py:356-359 | Only the first request with the id changes, and only its assignee; an absent id changes nothing |
| Ledger.NotesOverwrite | app.py:337 | Notes are overwritten, not appended to: writing two notes leaves just the second |
| Ledger.AssigneeOverwrite | app.py:358 | Assigning twice leaves just the second assignee |
| Ledger.FirstIndex | app.py:314-316 | When some request carries the id, a first one exists, no later than any other |
| Ledger.HandleDelete | app.py:282-293 | `delete_request` rewrites the resolved month with the delete applied, creating its file if absent, and leaves other months, the set of other files and the clients alone |
| Ledger.HandleUpdateStatus | app.py:299-318 | `update_status` fails on an unrecognised status before anything is loaded or saved; otherwise it rewrites only the resolved month, creating its file if absent |
| Ledger.HandleAddNote | app.py:324-339 | `add_note` writes the stripped note into the resolved month only, creating its file if absent |
| Ledger.HandleAssign | app.py:345-360 | `assign_request` writes the stripped assignee into the resolved month only, creating its file if absent |
| Ledger.AbsentIdLeavesContents | app.py:291-360 | Each of the four handlers, given an id the month does not hold, leaves every month's requests as they were; the month is still saved, so a month without a file gets an empty one |
| Query.ByStatus | app.py:252-253 | An empty filter keeps every request; any other keeps exactly the requests with that status, each with its multiplicity |
| Query.InsertById | app.py:255 | Inserting into an id-descending list keeps it id-descending and adds exactly the one request |
| Query.InsertByIdStable | app.py:255 | An inserted request stays ahead of the later requests that share its id |
| Query.SortByIdDesc | app.py:255 | The sort is a permutation with ids non-increasing that keeps requests sharing an id in their original order, as Python's stable sort does |
| Query.Stats | app.py:258-263 | `total` is the length, and new + in progress + completed never exceeds it; they are equal when every status is one of the three |
| Query.CountStatusAdditive | app.py:259-262 | Counting a status adds up over the parts of a list, and one request counts 1 exactly when it has that status |
| Query.StatsAdditive | app.py:258-263 | The statistics of a list are the sums of those of its parts, and one request counts once in total and once under its own status if it is one of the three; so each count is the number of requests with that status |
| Query.StatusCountsSum | app.py:258-263 | The three status counts add up to at most the length, and exactly to it when every status is recognised |
| Query.CountStatusPermutation | app.py:255-263 | Sorting does not change any status count |
| Query.FilteredCounts | app.py:252-263 | After filtering on a status, every listed request counts under that status and none under another |
| Query.AdminPanel | app.py:252-263 | The panel lists the filtered requests newest id first, as a permutation of the filtered list that keeps requests sharing an id in their file order, with counts over that list |
| Query.ClientStatsOf | app.py:428-431 | `recurring` counts clients whose counter (missing read as 0) exceeds 1: never more than `total`, 0 exactly when none recurs, `total` exactly when all do |
| Query.ClientStatsAdditive | app.py:428-431 | The client counts of a list are the sums of those of its parts, and one client is recurring exactly when its counter exceeds 1; so `recurring` is the number of such clients |
| Partitions.InnerChars | app.py:61 | The `{year}_{month:02d}` part holds no `r` and no `.`, and its two numerals hold no `_` |
| Partitions.RemovePrefix | app.py:96 | Removing `requests_` from a partition name leaves the month part and `.json` |
| Partitions.RemoveExt | app.py:96 | Removing `.json` then leaves just the month part |
| Partitions.SplitInner | app.py:96 | The month part splits into exactly two pieces, the year and month numerals |
| Partitions.NameEnds | app.py:95 | A partition name passes both the prefix and the extension test |
| Partitions.FileNameRoundTrip | app.py:94-99 | The scan reads every name `get_filename` writes back as the month it was written for, whatever the year and month |
| Partitions.FileNameInjective | app.py:58-61 | Distinct months never share a partition file |
| Partitions.ExportNameInjective | app.py:410 | Distinct months never share an export attachment name |
| Partitions.ClientsFileSkipped | app.py:95 | `clients.json` is never taken for a partition |
| Partitions.BelowPad2 | app.py:61 | Two-digit padded months compare as strings as the months compare as numbers |
| Partitions.FileNameOrder | app.py:94 | With years 1000-9999 and months 1-12, string order of partition names is chronological order of the months |
| Partitions.MonthOutOfRangeMisordered | app.py:94 | Outside months 1-12 the two orders part ways: "month 100" of 2024 sorts below December 2024 |
| Partitions.CollectSiteNames | app.py:94-99 | Scanning partition names of any months, and `clients.json`, succeeds and collects exactly the months whose partition file is listed |
| Partitions.CollectedFromScans | app.py:94-99 | The loop invents no month: each collected month is the month of one of the scanned names |
| Partitions.CollectCalendar | app.py:94-99 | Every collected month is the month of a scanned name, so it is within years 1000-9999 and months 1-12 when they all are |
| Partitions.CollectSiteNamesDistinct | app.py:94-99 | Scanning partition names that are all different, and `clients.json`, collects no month twice |
| Partitions.CollectSiteNamesOrdered | app.py:94-99 | Scanning a reverse-sorted listing of partition names with years 1000-9999 and months 1-12 yields the months newest first |
| Partitions.ListingPartitions | app.py:94 | A month's file is in the data folder exactly when that month was saved |
| Partitions.ListedScans | app.py:94-98 | In any order of the listing, each name scans as the client file or as one of the saved months |
| Partitions.AvailableMonthsExact | app.py:89-101 | For any data folder the site leaves, the scan raises nothing and the available months are exactly the saved ones, whatever their year and month, each listed once |
| Partitions.ListingNoRepeats | app.py:94 | Distinct saved months have distinct file names, none of them `clients.json` |
| Selection.NoRepeatsPermutation | app.py:94 | Sorting the listing, or any other reordering, keeps its names distinct |
| Partitions.AvailableMonthsNewestFirst | app.py:89-101 | When every saved month has a year 1000-9999 and a month 1-12, the available months come newest first |
| Export.RowIdReadsBack | app.py:393 | A row's id cell reads back as the request's id |
| Export.ExportRows | app.py:378-402 | An empty month exports nothing and is an error. Otherwise the rows are the header, then one row per request in stored order, each as wide as the header and carrying that request's id and fields |
| Invariants.UpsertKeepsIds | app.py:159-178 | An upsert never loses a client id |
| Invariants.SubmitKeepsInvariants | app.py:141-202 | A submission keeps every stored request referring to a client in the directory, and every status valid |
| Invariants.DeleteKeepsIdsUnique | app.py:292 | Deleting keeps the ids of a month unique |
| Invariants.DeleteKeepsInvariants | app.py:282-293 | `delete_request` keeps client references, valid statuses and unique ids in every month |
| Invariants.NotesKeepIdentity | app.py:335-338 | A note changes no request's id, client or status |
| Invariants.AssigneeKeepsIdentity | app.py:356-359 | An assignment changes no request's id, client or status |
| Invariants.StatusKeepsIdentity | app.py:314-317 | A status update changes no id or client, and any status it changes becomes the new one |
| Invariants.AddNoteKeepsInvariants | app.py:324-339 | `add_note` keeps client references, valid statuses and unique ids in every month |
| Invariants.AssignKeepsInvariants | app.py:345-360 | `assign_request` keeps client references, valid statuses and unique ids in every month |
| Invariants.UpdateStatusKeepsInvariants | app.py:299-318 | An accepted `update_status` keeps client references, valid statuses and unique ids in every month |
| Invariants.SubmitFixedKeepsIdsUnique | app.py:187 | Under the corrected id rule, a submission keeps ids unique in every month |
| Invariants.SubmitKeepsConsecutive | app.py:187 | As written, a month never touched by a delete keeps its ids 1, 2, ..., n after a submission |
| Invariants.ConsecutiveAgrees | app.py:187 | On such a month the ids are unique, and the corrected rule assigns the same id as the written one |
| Invariants.DuplicateIdAfterDelete | app.py:184-201 | From ids 1, 2, 3, deleting id 2 and then submitting files a second request with id 3, so ids are no longer unique |
| Invariants.SubmitIsolated | app.py:183-202 | A submission never changes the admin view of another month |
| Invariants.ApiStatsAddUp | app.py:421-431 | With valid statuses, the `/api/stats` status counts add up to the total, and recurring clients never exceed all clients |

## Left out

- Flask routing, `redirect` and `flash` messages, templates, the `SERVICES`
  table, static files, the error handlers, and the session login with
  `login_required`. These are presentation and framework state.
- JSON encoding and the file system. A month with no file reads as empty,
  and a save creates the file. `ensure_data_folder` and the `data/`
  directory prefix are not modelled: they do not affect which name
  belongs to which month.
- `datetime.now()` and `uuid.uuid4()`. They are parameters: a `Clock`
  value and a `freshId` string. Timestamps are opaque strings.
- CSV quoting by Python's `csv` module and the HTTP response. Only the
  list of rows is modelled.
- Concurrency. Two submissions at once may lose an update; handlers are
  modelled as one atomic step each.
- The `month_names` table of `admin_panel`: a display constant.
- Numerals.ParseInt: reads ASCII digits only. Python's `int` also accepts
  other Unicode decimal digits and `_` between digits. A `_` cannot
  reach it after `split('_')`. Its whitespace is CPython's: " \t\n\v\f\r"
  and the non-ASCII characters `str.isspace()` accepts.
- Text.IsSpace: follows Python's `str.isspace` for the characters listed
  there. Strings are code-point sequences with no normalisation.
- Partitions.FileNameOrder: proved only for years 1000-9999 and months
  1-12. Outside that range, string order and chronological order differ
  (year 999 sorts after year 1000; `Partitions.MonthOutOfRangeMisordered`
  shows month 100 sorting below month 12).
- Partitions.AvailableMonthsNewestFirst: newest-first is promised only
  for a data folder whose partitions all have years 1000-9999 and months
  1-12. The admin handlers save whatever month the query names, so they
  can create partitions outside that range, and for those the order does
  not hold. `Partitions.AvailableMonthsExact` covers every month.
- Partitions.AvailableMonths: only listings the site itself produces are
  characterised. A foreign file named like a partition with a non-numeric
  part makes `int` raise; the scan models that as `None`.
- Query.ClientStatsOf: the counter is an arbitrary integer, as stored. The
  model does not tie it to the number of live requests; it drifts once
  requests are deleted.
- Intake.Upsert: its own contract only says the list never shrinks. What
  it does is stated by `Intake.UpsertSpec`.
- Ledger.Delete: its own contract says only the length bound and the
  absent-id case. Its contents and order are stated by
  `Ledger.DeleteContents` and `Ledger.DeletePreservesOrder`.
- The handlers do not signal an id that no request carries. The model
  follows the code: such a call saves the month unchanged, and on a month
  with no file it creates an empty one.

## Findings

| source | as written | input that shows it | evidently intended | confidence | as-written member | corrected member |
|---|---|---|---|---|---|---|
| app.py:187 | a new request's id is `len(requests_list) + 1` | a month holding ids 1, 2, 3; delete id 2, then submit a form: the new request gets id 3, which the remaining third request already carries | ids unique within a month: one more than the largest id present | high (not executed) | Invariants.DuplicateIdAfterDelete | Invariants.SubmitFixedKeepsIdsUnique |

`Intake.Submit` models the written rule. `Intake.SubmitFixed` uses
`Intake.NextIdFixed` (largest id plus one). `Invariants.ConsecutiveAgrees`
shows the two rules agree on every month no delete has touched.
