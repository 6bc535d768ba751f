# stravacli, modelled in Dafny

stravacli is a command-line client for the Strava fitness service. It creates,
updates, uploads and downloads activities in bulk from CSV files. This project
models the parts of it that decide things:

- the record checks (`VerifyForCreate`, `VerifyForUpdate`, the upload and
  manual-upload `Verify` methods with their allow-lists);
- the batch loops of the `create`, `update`, `upload` and `uploadmanual`
  commands. Each walks the rows in file order, skips or handles each row,
  stops at the first failure with its 1-based line, and counts the rows it
  handled;
- the in-place ID write-back of `create`, whose output can be fed back in;
- the status-poll loop of `upload`;
- the page loops of `download` and of the original `main` program, which
  makes every private activity public.

The service is an oracle, `Api.Remote`. It answers each call from the
history of calls made so far in the run, with the current call last. The
listing endpoints are a finite sequence of page answers, and every page past
its end is empty. Each command's `while` loop is a `method` proved equal to a
specification function. `Batch.Drive` is the row loop shared by the four
batch commands, `Download.PageLoop` is the download loop and
`PrivateSweep.SweepFrom` is main's loop. The lemmas state the properties of
those functions.

Modules and files:

| file | module | source |
|---|---|---|
| base.dfy | Base | timestamps, errors, `%d`/`FormatInt`, `FormatBool`, `int32(...)` |
| api.dfy | Api | the REST calls and the service oracle |
| batch.dfy | Batch | the row loop the four batch commands share |
| activity.dfy | Activities | cmd/activity.go |
| create.dfy | Create | cmd/create.go |
| update.dfy | Update | cmd/update.go |
| upload.dfy | Upload | cmd/upload.go |
| uploadmanual.dfy | UploadManual | cmd/uploadmanual.go |
| download.dfy | Download | cmd/download.go |
| sweep.dfy | PrivateSweep | main.go, lines 11-56 |

## Model

| member | source | states |
|---|---|---|
| Activities.String | cmd/activity.go:45-51 | The message text is "[name on day]", with " (ID=id)" before the closing bracket exactly when the ID is non-zero. |
| Activities.StringTellsIDsApart | cmd/activity.go:45-51 | Two rows that differ only in their ID print the same text exactly when their IDs are equal, so a row without an ID never reads like one with an ID. |
| Activities.VerifyForCreate | cmd/activity.go:55-66 | Passes iff Start is set, Name is non-empty and Private is false. Missing Start is reported first, then missing Name, then the Private refusal, each exactly in its own case. |
| Activities.LockedChange | cmd/activity.go:80-89 | Passes iff Duration, Distance and Private are unchanged. Otherwise it names the first changed one, in that order. |
| Activities.VerifyForUpdate | cmd/activity.go:70-90 | As written: passes iff the ID is set, Start is Equal, both Descriptions are empty and the locked fields are unchanged. A zero ID is reported before anything else, then Start, then Description, then the locked fields. |
| Activities.UnchangedDescriptionRejected | cmd/activity.go:77-79 | As written, a row with an ID and a non-empty Description is refused against itself with "can't modify Description". |
| Activities.VerifyForUpdateIntended | cmd/activity.go:70-90 | Corrected check: Description may not change but may be kept. It passes iff the ID is set and Start, Description and the locked fields are unchanged, with the errors in the same order. |
| Activities.IntendedAcceptsUnchangedRows | cmd/activity.go:70-90 | The corrected check accepts every unchanged row that has an ID. |
| Activities.EditsPassAsWritten | cmd/activity.go:70-90 | A row that differs from its original only in Name, Type, Commute or Trainer, has an ID and has no Description passes the check as written. |
| Activities.EditsPassIntended | cmd/activity.go:70-90 | Such an edit passes the corrected check whatever its Description. |
| Activities.ChecksDifferOnlyOnKeptDescriptions | cmd/activity.go:77-79 | The two checks disagree only on rows that keep a non-empty Description, which the check as written refuses. |
| Base.DecimalRoundTrip | cmd/download.go:135 | Reading back the decimal text of an integer gives the integer. |
| Base.DecimalInjective | cmd/activity.go:48 | Different integers print differently. |
| Base.Bool | cmd/download.go:142-144 | Prints "true" or "false", and "true" exactly for true. |
| Base.Int32 | cmd/download.go:124 | int32(x) lies in the 32-bit range, agrees with x modulo 2^32, and equals x when x fits. |
| Api.CreateActivityOptions | cmd/create.go:100-112 | Description, Distance, Trainer and Commute are sent only when non-empty, non-zero or true. Trainer and Commute are sent as 1. |
| Batch.Drive | cmd/upload.go:165-171 | The shared row loop. A failure is reported at a line after the rows already passed and within the file. The rows keep their number. |
| Batch.CompletedCountsHandledRows | cmd/create.go:72-82 | A batch that completes counts exactly the rows its step does not skip. |
| Batch.FailureIgnoresLaterRows | cmd/create.go:78-80 | Rows after the failing line are never looked at: a file that agrees up to that line fails the same way, with the same calls. |
| Batch.SameDecisionsSameVerdict | cmd/create.go:83-87 | Two runs whose steps decide every row alike reach the same verdict. |
| Create.CreateOne | cmd/create.go:91-125 | A row that fails VerifyForCreate fails with that error and no call. A dry run passes it unchanged with no call. Otherwise exactly one create call is sent. The row passes iff the service accepts, with the ID set to the one returned. A refusal fails with the service's message. |
| Create.DoCreate | cmd/create.go:59-89 | The loop over the row array equals CreateRun. The array afterwards holds the rows of that run, IDs written back in place, and the verdict and calls are those of the run. |
| Create.StepCases | cmd/create.go:73-80 | A row is skipped iff it has an ID. No row aborts the batch. A handled row changes only its ID, not even that in a dry run. The only call is the row's own create, never in a dry run. |
| Create.CompletedCountsNewRows | cmd/create.go:72-82 | A run that completes has created exactly the rows without an ID. |
| Create.DryRunChangesNothing | cmd/create.go:95-98 | A dry run sends no call and leaves every row as it was. |
| Create.OutputOnlyFillsIDs | cmd/create.go:113-123 | The rows written out differ from the input only by IDs filled into rows that had none. The failing row and all rows after it are written as read. |
| Create.FailureNamesANewRow | cmd/create.go:74-80 | A failure names the 1-based line of a row without an ID. Its error is that row's VerifyForCreate error or, in a live run, the service's refusal. |
| Create.FailureStopsTheBatch | cmd/create.go:78-80 | Files that agree up to the failing line fail the same way, with the same calls. |
| Create.PassedRowsHaveIDs | cmd/create.go:122-123 | After a live run against a service that never returns ID 0, every row before the failing line has an ID. When the run completes, every row does. |
| Create.RerunResumesAtFailure | cmd/create.go:74-77 | Running create again on the output of a live run skips every row created or skipped before. It behaves as if it started at the failing line, and after a complete run it does nothing. |
| Create.DryRunPredictsLiveRun | cmd/create.go:83-87 | Against a service that accepts every create, a dry run reports the same verdict as a live run. |
| Update.Index | cmd/update.go:84-87 | The index of the original rows has exactly their IDs as keys. |
| Update.IndexKeepsLastRow | cmd/update.go:84-87 | Each ID maps to the last row carrying it. |
| Update.IndexNoLarger | cmd/update.go:84-87 | The index has at most as many IDs as the file has rows. |
| Update.DuplicateShrinksIndex | cmd/update.go:84-96 | A duplicated ID makes the index smaller than the file, so an edited file with as many rows as the original is refused by the count check. |
| Update.BuildIndex | cmd/update.go:84-87 | The map-filling loop builds Index of the rows. |
| Update.UpdateOne | cmd/update.go:124-151 | The check runs first, and a failing row fails with its error and no call. In a dry run a passing row sends no call. Otherwise a single update goes out carrying only Commute, Trainer, Name and Type. It succeeds iff the service accepts; a refusal fails with the service's message. |
| Update.DoUpdate | cmd/update.go:79-122 | The count check and then the loop over the edited rows equal UpdateRun: same verdict, same calls. |
| Update.CountMismatchMakesNoCalls | cmd/update.go:94-96 | When the edited file's row count differs from the number of original IDs, the run is refused with both counts before any call. |
| Update.StepCases | cmd/update.go:102-115 | A row aborts iff its ID is not among the originals and is skipped iff it equals its original. It fails only in its check or at the service. Its only call is its own update, never in a dry run. |
| Update.UnknownIDAborts | cmd/update.go:103-106 | When the first row that is not skipped has an unknown ID, the run aborts naming that ID, with no call. Update.StepCases gives the per-row iff: a row aborts exactly when its ID is unknown. |
| Update.CompletedCountsChangedRows | cmd/update.go:107-114 | A run that completes counts exactly the rows that differ from their original. |
| Update.UnchangedFilesAreQuiet | cmd/update.go:107-110 | When every edited row equals its original, the run completes with 0 updates and no call. |
| Update.DryRunMakesNoCalls | cmd/update.go:128-131 | A dry run never calls the service. |
| Update.DryRunPredictsLiveRun | cmd/update.go:102-131 | Against a service that accepts every update, a dry run reports the same verdict as a live run: the same count, or the same failing line and error. |
| Update.CallsCarryEditableFields | cmd/update.go:133-140 | Every call is an update of one of the edited rows, carrying that row's ID and editable fields only. |
| Update.FailureNamesAChangedRow | cmd/update.go:102-113 | A failure names the 1-based line of an edited row whose ID is in the original file and which differs from its original row. Its error is that row's check error or, in a live run, the service's refusal. Every row before it has a known ID and is either unchanged or passes the check. |
| Update.FailureStopsTheBatch | cmd/update.go:111-113 | A failure reports a line within the file. Files that agree up to that line fail the same way, with the same calls. |
| Upload.Verify | cmd/upload.go:130-153 | Passes iff the type is in the allow-list, Name is non-empty, the file type is one of the six accepted, and Filename is non-empty and exists. Each error is stated for exactly its case, in check order, and a missing type or file type is told apart from an invalid one. |
| Upload.UploadOptions | cmd/upload.go:207-225 | Name, type, file type and file are always sent. External ID and Description are sent only when non-empty. Trainer and Commute are sent as 1 only when set. |
| Upload.PollStep | cmd/upload.go:228-241 | A failed call is read first, then a recorded upload error, then a non-zero activity ID as success. Anything else is still pending, under the upload's ID. |
| Upload.Await | cmd/upload.go:226-245 | The poll loop makes only status requests, at most `polls` of them. It ends in success, a transport error or an upload error, or (out of polls only) StillProcessing. A first reply that is not pending ends it without a request. A pending reply with polls left always leads to a status request about the upload it names. |
| Upload.AwaitFollowsLastReply | cmd/upload.go:227-245 | The loop's answer is what the last reply it read says: success exactly when that reply names an activity, StillProcessing exactly when it is still pending, and its error when it carries one. |
| Upload.MorePollsSameAnswer | cmd/upload.go:227-245 | Allowing more polls never changes an answer already reached. |
| Upload.PollsFollowTheUpload | cmd/upload.go:242-244 | Each status request asks about the upload ID in the reply just before it. |
| Upload.Attempt | cmd/upload.go:193-248 | A row that fails Verify fails with that error and no call. A file that cannot be opened fails, dry run or not. A ready row passes with no call in a dry run. Otherwise the upload request is followed by the poll loop, and the row passes iff that loop succeeds. |
| Upload.AwaitUpload | cmd/upload.go:227-245 | The `for` loop that reassigns the reply computes Await. |
| Upload.UploadOne | cmd/upload.go:193-248 | uploadOne computes Attempt. |
| Upload.DoUpload | cmd/upload.go:155-178 | The loop over the rows equals UploadRun. |
| Upload.UploadVerdict | cmd/upload.go:165-171 | An upload batch never aborts. A batch that completes counts every row, and every row was ready. |
| Upload.UploadFailure | cmd/upload.go:166-169 | The rows before the failing line were ready. In a dry run the failing row is not. |
| Upload.DryRunChecksEveryRow | cmd/upload.go:194-204 | A dry run never calls the service, and it completes exactly when every row is ready. |
| Upload.DryRunPredictsLiveRun | cmd/upload.go:172-176 | Against a service that turns every upload into an activity at once, a dry run reports the live run's verdict. |
| Upload.UploadsCarryTheirRows | cmd/upload.go:207-244 | A live batch sends only status requests and the upload requests of its own rows. |
| UploadManual.Verify | cmd/uploadmanual.go:80-88 | Passes iff Start is set and Name is non-empty, with Start checked first. |
| UploadManual.CheckLooksAtStartAndName | cmd/uploadmanual.go:80-88 | Rows that agree on Start and Name get the same answer: nothing else is checked. |
| UploadManual.ManualOne | cmd/uploadmanual.go:129-162 | A row failing Verify fails with no call. A dry run passes it with no call. Otherwise one create call is sent, and the row passes iff the service accepts. |
| UploadManual.DoUploadManual | cmd/uploadmanual.go:90-114 | The loop over the rows equals ManualRun. |
| UploadManual.LiveCallsFollowTheRows | cmd/uploadmanual.go:102-107 | A live batch that completes sends one create per row, in file order. |
| UploadManual.LiveCallsStopAtFailure | cmd/uploadmanual.go:102-105 | A live batch that fails has sent the creates of the rows before the failing line, in order. It sends the failing row's own create exactly when that row passed Verify. |
| UploadManual.ManualVerdict | cmd/uploadmanual.go:101-107 | The batch never aborts. A batch that completes counts every row, and every row passed Verify. |
| UploadManual.ManualFailure | cmd/uploadmanual.go:103-105 | The rows before the failing line passed Verify. In a dry run the failing row failed it, with the reported error. |
| UploadManual.DryRunChecksEveryRow | cmd/uploadmanual.go:133-136 | A dry run never calls the service, and it completes exactly when every row passes Verify. |
| UploadManual.DryRunPredictsLiveRun | cmd/uploadmanual.go:108-112 | Against a service that accepts every create, a dry run reports the live run's verdict. |
| Download.Row | cmd/download.go:133-145 | A row has the header's 10 columns in order: ID in decimal, start day, type, name, distance with two decimals, duration in decimal, gear ID and the three flags as true/false. |
| Download.RowReadsBack | cmd/download.go:134-145 | The ID column reads back as the activity's ID, and each flag column is "true" exactly when the flag is set. |
| Download.RowsTellIDsApart | cmd/download.go:135 | Rows with the same ID column belong to activities with the same ID. |
| Download.ListRequest | cmd/download.go:115-128 | A listing request asks for the page with 25 per page. Before and after are attached only when set, as the 32-bit truncation of Unix seconds, which is the exact Unix time when it fits in 32 bits. |
| Download.WriteRows | cmd/download.go:133-152 | The inner loop writes one row per activity in order. It stops exactly when a positive max is reached; a max of 0 or -1 never stops it. |
| Download.DownloadActivities | cmd/download.go:98-161 | The header comes first, then one row per taken activity of PageLoop, in order. The outcome and the requests are PageLoop's, and the counter is the number of rows. |
| Download.PageLoopTakesOffered | cmd/download.go:129-155 | The loop takes the first activities the listing offers, up to a positive max, in order. It fails exactly when it meets a failed call before reaching the limit, and the error names the last page requested. |
| Download.PagesInOrder | cmd/download.go:115-157 | Pages are requested 1, 2, 3, ... in order, with the same page size and filters. |
| Download.OnlyTheLastPageIsShort | cmd/download.go:153-155 | Every page but the last one requested held a full page. |
| Download.DownloadWritesTheListing | cmd/download.go:113-158 | From page 1: with a positive max, the first max offered activities (or all, if fewer); otherwise every offered activity. It fails iff a listing call failed first. |
| Download.NoFailedCallNoFailure | cmd/download.go:129-132 | When no listing call fails, the download succeeds. |
| PrivateSweep.Visit | main.go:35-49 | The inner loop keeps the calls made before it and only appends. What it updates and counts is stated by PrivateSweep.SweepUpdatesThePrivateOnes, PrivateSweep.SweepUpdates and PrivateSweep.SweepCounts. |
| PrivateSweep.FetchPage | main.go:29-53 | A page step first makes its listing call for the next page, keeping the earlier calls. It goes on only after a full page whose calls all succeeded. |
| PrivateSweep.VisitPage | main.go:35-49 | The inner loop computes Visit. |
| PrivateSweep.SweepPrivate | main.go:26-55 | main's page loop computes Swept. |
| PrivateSweep.SweepCounts | main.go:34-41 | A run without failed calls counts every activity of the pages it fetched, and the private ones among them as updates. |
| PrivateSweep.SweepUpdates | main.go:37-48 | A live run without failed calls sends exactly one Private(false) update per private activity of the fetched pages, in page order. |
| PrivateSweep.DryRunSendsNoUpdate | main.go:41-44 | A dry run sends no update call, and it fails only on a failed listing call, with that call's message. |
| PrivateSweep.PagesInOrder | main.go:26-53 | The listing calls ask for pages 1, 2, ... in order, 30 per page. |
| PrivateSweep.SweepUpdatesThePrivateOnes | main.go:26-55 | A run without failed calls counts the activities and the private ones, and makes exactly the private ones public (none in a dry run). A dry run sends no update at all. |
| PrivateSweep.NegativeMaxFetchesNothing | main.go:28 | A max below -1 fetches nothing and changes nothing. |
| PrivateSweep.FailureIsTheLastCall | main.go:30-48 | A failure ends the run: the failing listing or update call is the last call made, and the run reports its message. |
| PrivateSweep.MaxOvershoots | main.go:28-41 | As written, max 0 with two private activities on the first page makes both public. |
| PrivateSweep.CappedStaysWithinMax | main.go:20-28 | With the limit kept (CappedFrom), a run with max of 0 or more makes at most max updates. |
| PrivateSweep.CappedKeepsTheExample | main.go:28-41 | With the limit kept, max 1 with two private activities makes one of them public. |

## Left out

- CSV parsing and writing (cmd/csv.go, the `load*FromCSV` helpers, the header files) are not modelled. Rows are already-parsed sequences of records, and a file that fails to open or parse is not modelled.
- Authentication (cmd/auth.go), the cobra command wiring and the date-flag parsing in `init` are not modelled. Every command takes its flags as parameters.
- All printing and logging is left out, including the summary lines and the links printed after each create or upload. main.go's `log.Fatal` is a `Fail` outcome.
- Floating point: Distance is a `real`, so NaN and negative zero are not modelled. `FormatFloat` and date formatting are the opaque functions in `Base.Formats`.
- `time.Time` keeps only its instant and an opaque location, as far as `IsZero`, `Equal` and struct equality need.
- The file system is two predicates: whether `os.Stat` reports a missing file, and whether `os.Open` succeeds. The opened file is named by its path, and its contents are not modelled.
- Upload.Await: the service's status loop has no bound. The model allows at most `polls` status requests and reports `StillProcessing` when they run out. The same bound applies to Upload.AwaitUpload, Upload.Attempt and Upload.UploadOne. Upload.MorePollsSameAnswer shows the bound cuts off only uploads still being processed. The one-second sleep is not modelled.
- Download.DownloadActivities: the page counter is a Go `int32` whose wrap-around after 2^31 pages is not modelled. Pages are numbered with unbounded integers.
- Output-file creation errors and ignored CSV write errors in `download` are not modelled.
- The definition of `updatableActivity` and its `Verify(prev)` method are not part of this model. The record has the fields update.go reads plus an opaque `rest`, and the check is a function parameter.
- The upload and manual-upload `String` methods are not modelled, since they only shape messages.
- PrivateSweep.SweepPrivate: listing pages are fixed in advance. A listing does not reflect the updates made earlier in the same run.
- Rows are values in a sequence (an array for `create`), not pointers. `createOne` sets the ID through a pointer into the row slice, and the model writes the new row back into the array instead.

## Findings

| source | as written | input that shows it | evidently intended | confidence | as-written member | corrected member |
|---|---|---|---|---|---|---|
| cmd/activity.go:77-79 | `a.Description != "" \|\| a.Description != prev.Description` refuses every row with a non-empty Description, even an unchanged one | a row with ID 7 and Description "x", checked against itself | refuse only a changed Description (`a.Description != prev.Description`), as for Start, Duration, Distance and Private | medium, not executed | Activities.UnchangedDescriptionRejected | Activities.VerifyForUpdateIntended |
| main.go:20-28 | `max` ("Max # to upload") is tested as `nUpdates <= max`, and only before each page is fetched, so updates within a page go past it | max 0 and one page holding two private activities: both are made public | stop before update number max + 1 | medium, not executed | PrivateSweep.MaxOvershoots | PrivateSweep.CappedStaysWithinMax |
