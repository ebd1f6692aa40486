# VCSL core in Dafny

VCSL keeps a table of vCard records for the members of one Entra ID group. This project models its three Azure Functions and the types they share:

- **`VCardSync.Run`** (timer, `sync.dfy`) lists the group's members. It projects each member onto a `VCardDataModel` record, optionally with a 64x64 photo. It then uploads the records as `UpdateMerge` actions: in chunks of 99 when there are 100 or more, otherwise in one transaction. The upload is modelled as written (`Sync.Run`) and with upserts (`Sync.RunCorrected`); see "## Findings".
- **`VCardCleanup.Run`** (timer, `cleanup.dfy`) deletes the stored records whose row key is no member's id. When photos are disabled, it then runs a photo pass. The pass is modelled as written (`Cleanup.Run`) and as evidently intended (`Cleanup.RunCorrected`); see "## Findings".
- **`VCardDownload.Run`** (HTTP, `download.dfy`) validates the `Id` query value and reads the record. It fills the card template with `String.Replace` calls and answers with `GivenName.Surname.vcf`. The answer for a valid id with no row is modelled as written (`Download.DownloadAsWritten`, 500) and as intended (`Download.Download`, 404); see "## Findings".
- **`DateTimeExtensions.ToIsoDateString`**, both overloads (`iso_date.dfy`). These write `D4-D2-D2`. The model proves the round trip and that string order is date order, in the sense of section 5.1 of RFC 3339.
- **`VCardDataModel`** and the directory `User` (`records.dfy`).

Supporting modules:

- `common.dfy`: null as `Option`, and the .NET string predicates.
- `batching.dfy`: `Enumerable.Chunk` and the upload block, with the store's verdict on each transaction as a parameter.
- `table_store.dfy`: the table as a sequence of records, with point reads, filtered queries and committed actions.
- `directory.dfy`: the guarantees of `GraphHelper.GetMembersOfGroup`.
- `template.dfy`: ordinal `String.Replace` and a piecewise reading of a template.

Everything outside the process is a parameter of the model:

- Whether the table could be created.
- Whether each of the cleanup's two table queries returns or throws.
- The directory's answer.
- Each member's photo fetch.
- The store's accept/reject verdict per transaction. Lemmas that depend on why a store fails a transaction state it as a premise on the verdict: `TableStore.RejectsUpdatesOfMissingRows` (an `UpdateMerge` of a row missing from the store fails its transaction) and `TableStore.CommitsUpdatesOfStoredRows` (every transaction that updates only stored rows commits). Both are judged against the rows stored when the upload starts. A sync batch holds only merges, so rows are never removed during it.
- The environment variables.
- `Guid.TryParse`, as `isValidGuid`.
- Today's date.
- The template text.

The model follows the code where it departs from what it evidently intends, or where a reader could expect otherwise:

- A failed transaction stops the remaining chunks of that upload block, because the single `try` wraps the whole loop (VCardSync.cs:195-219); a failure is not confined to its chunk.
- A record's `TelephoneNumber` and `MobilePhone` can be null. `BusinessPhones?.FirstOrDefault(...)` yields null when the directory returns no phone list, and the mobile phone is copied unchanged. `Replace` with a null value deletes the token.
- The cleanup reads `GraphUserGroup` from configuration with no environment fallback, unlike the sync's option resolution at VCardSync.cs:47-59.
- The sync uploads `UpdateMerge` actions (VCardSync.cs:177), not upserts, so a member without a row is never created; see "## Findings".
- The download reads the row with `GetEntity`, which throws for a missing row, so a valid id with no row is answered 500, not 404; see "## Findings".

## Model

| member | source | states |
|---|---|---|
| IsoDate.Pad | VCSL.Shared/Extensions/DateTimeExtensions.cs:30 | the `D<w>` format: a digit string reading back as the number, at least `w` long, exactly `w` long when the number fits |
| IsoDate.ToIsoDateString | VCSL.Shared/Extensions/DateTimeExtensions.cs:28-31 | the output is never shorter than ten characters, and exactly ten for a date a `DateTime` can hold; its groups, round trip and order are the rows below |
| IsoDate.ToIsoDateStringNullable | VCSL.Shared/Extensions/DateTimeExtensions.cs:36-41 | null maps to null; any date maps to the non-nullable overload's string |
| IsoDate.IsoDateGroups | VCSL.Shared/Extensions/DateTimeExtensions.cs:28-31 | for any numbers, the output is three digit groups of at least 4, 2 and 2 digits, joined by '-', holding year, month and day |
| IsoDate.IsoDateShape | VCSL.Shared/Extensions/DateTimeExtensions.cs:28-31 | for every date a `DateTime` can hold, the output is ten characters `DDDD-DD-DD` |
| IsoDate.IsoDateRoundTrip | VCSL.Shared/Extensions/DateTimeExtensions.cs:28-31 | parsing the output gives back the date |
| IsoDate.IsoDateOrder | VCSL.Shared/Extensions/DateTimeExtensions.cs:28-31 | the ordinal string order of two outputs is the chronological order of the dates |
| Records.NewRecord | VCSL.Shared/Models/VCardDataModel.cs:16-36 | a new record is in partition "Data" with an empty row key; every text and nullable text property is "", and there is no timestamp |
| Directory.GetMembersOfGroup | VCSL.Shared/Helper/GraphHelper.cs:42-82 | never null; an empty or missing group id, a non-GUID id, a null first page and any failure give the empty list; otherwise the list is the members of every page |
| Batching.Chunk | VCSL.Sync/VCardSync.cs:200 | `Chunk(n)` splits into non-empty pieces of at most `n`, all but the last exactly `n`, whose concatenation is the input |
| Batching.Transactions | VCSL.Sync/VCardSync.cs:197-214 | the upload plan concatenates back to the batch; every transaction holds at most 99 actions; fewer than 100 go as one transaction; otherwise there are ⌈n/99⌉ non-empty transactions |
| Batching.SubmitInOrder | VCSL.Sync/VCardSync.cs:203-208 | the transactions sent are a prefix of the plan; all but a rejected last one committed; nothing is rejected exactly when the whole plan committed |
| Batching.SubmitInTransactions | VCSL.Sync/VCardSync.cs:195-219 | with nothing rejected, the committed transactions concatenate to the whole batch in order; a rejected transaction is one the store refused (sizes and prefix property in the rows below) |
| Batching.SubmitIfAny | VCSL.Sync/VCardSync.cs:192-225 | the upload block runs exactly when the batch is non-empty |
| Batching.SubmissionSizes | VCSL.Sync/VCardSync.cs:197-214 | below 100 actions exactly one transaction holding the whole batch is sent; every transaction sent holds at most 99 actions and none is empty once chunked; with no rejection the committed transactions hold the batch in order and number ⌈n/99⌉ |
| Batching.CommittedIsPrefix | VCSL.Sync/VCardSync.cs:196-220 | whatever the verdicts, the committed actions are a prefix of the batch: what committed before a failure stays, nothing after it is written |
| Batching.FirstFailureStopsLaterChunks | VCSL.Sync/VCardSync.cs:196-220 | a rejected chunk is the last one sent; the chunks after it are never sent |
| TableStore.Lookup | VCSL.Download/VCardDownload.cs:53 | a point read finds nothing exactly when no record carries the key; otherwise it finds a stored record with that key |
| TableStore.LookupUnique | VCSL.Download/VCardDownload.cs:53 | with unique keys, a point read of a stored record's key returns that record |
| TableStore.Remove | VCSL.Sync/VCardCleanup.cs:100 | a committed delete removes exactly the key's record, leaves every other point read unchanged and keeps keys unique |
| TableStore.Put | VCSL.Sync/VCardSync.cs:177 | a committed merge of a complete record makes the key read back as that record, leaves every other key unchanged and keeps keys unique |
| TableStore.ApplyAllFlatten | VCSL.Sync/VCardSync.cs:203-208 | committing the chunks one after another has the effect of committing the whole batch |
| TableStore.Actions | VCSL.Sync/VCardCleanup.cs:100 | `Select(data => new TableTransactionAction(kind, data))` gives one action of that type per record, in order |
| TableStore.LookupAfterDeletes | VCSL.Sync/VCardCleanup.cs:100 | after a committed run of deletes, exactly the deleted keys are absent and every other key reads as before |
| TableStore.LookupAfterMerges | VCSL.Sync/VCardSync.cs:177 | after a committed run of merges, each merged key holds the last record merged under it, and other keys are untouched |
| TableStore.LastWithKey | VCSL.Sync/VCardSync.cs:177 | the record a run of merges leaves under a key: none exactly when no merged record carries the key, otherwise a merged record with that key |
| TableStore.StoredUpdatesCommit | VCSL.Sync/VCardSync.cs:195-219 | a batch whose updates all find their rows, sent to a store with no other failure, is committed whole: nothing is rejected and the committed actions are the batch |
| TableStore.CommittedUpdatesBeforeMissing | VCSL.Sync/VCardSync.cs:195-219 | when the store fails updates of missing rows and record `j`'s row is missing, what commits is the updates of the first `p <= j` records, none under record `j`'s key |
| TableStore.UpsertsCommit | VCSL.Sync/VCardSync.cs:195-219 | a batch of upserts sent to a store with no failure other than a missing row commits whole: each key holds the last record upserted under it, every other key is untouched |
| TableStore.MissingRowStopsUpdates | VCSL.Sync/VCardSync.cs:177-219 | when the store fails updates of missing rows and record `j`'s row is missing, a transaction is rejected, fewer than `j + 1` actions commit, and record `j`'s row stays missing |
| TableStore.Where | VCSL.Sync/VCardCleanup.cs:93 | a filtered query returns exactly the stored records that pass the filter, never more than the store holds |
| TableStore.WhereConcat | VCSL.Sync/VCardCleanup.cs:93 | a filtered query keeps query order |
| TableStore.LookupWhere | VCSL.Sync/VCardCleanup.cs:93 | with unique keys, a point read in a query result is the store's record if it passes the filter, otherwise nothing |
| TableStore.ApplyTransactionUnique | VCSL.Sync/VCardSync.cs:206 | committed transactions keep row keys unique |
| Sync.ResolveOptions | VCSL.Sync/VCardSync.cs:47-59 | each of the four options is its configured value, or the environment variable of the same name when it is null or empty; the photo flag is kept |
| Sync.ResolveOptionsStable | VCSL.Sync/VCardSync.cs:47-59 | resolving twice under one environment equals resolving once, and a group id resolved to a non-empty value survives a later change of environment (the group id is the one write-back that compiles as written) |
| Sync.PhotoFor | VCSL.Sync/VCardSync.cs:125-147 | a member's photo text is non-empty only when photos are enabled and the fetch returned content, and then it is that content |
| Sync.FirstPhone | VCSL.Sync/VCardSync.cs:163 | `BusinessPhones?.FirstOrDefault("")`: null for no list, "" for an empty list, otherwise the first phone |
| Sync.Project | VCSL.Sync/VCardSync.cs:154-173 | the record's row key is the member's id in partition "Data"; each text property is the member's value or "" when absent; the phone is the first business phone; the mobile phone is copied as is; the photo is the fetched text |
| Sync.ProjectBareUser | VCSL.Sync/VCardSync.cs:154-173 | a member with no properties projects onto the record defaults, except that both phones are null |
| Sync.BuildBatch | VCSL.Sync/VCardSync.cs:117-179 | one `UpdateMerge` per member, in member order, carrying that member's projection |
| Sync.Run | VCSL.Sync/VCardSync.cs:40-235 | the run stops when the table cannot be created, and only then; it stops with no users exactly when the member list is empty; otherwise it uploads one merge per member through the chunked block |
| Sync.EmptySnapshotTouchesNothing | VCSL.Sync/VCardSync.cs:104-111 | an empty, missing or non-GUID group id, or a failed or empty listing, ends the run before any transaction, leaving the store unchanged |
| Sync.BatchUpdatesStoredRows | VCSL.Sync/VCardSync.cs:177 | when every member already has a row, every update in the batch finds its row |
| Sync.RunWritesMembers | VCSL.Sync/VCardSync.cs:117-225 | as written, for members that all have rows already and a store that commits every transaction updating only stored rows: each member's row holds that member's last projected record, and every other row is as before |
| Sync.RunIdempotent | VCSL.Sync/VCardSync.cs:117-225 | for members that all have rows already, and a store that commits every transaction updating only stored rows in the table the first run meets and in the one the second run meets, a second run with the same directory answers leaves every row as the first run left it |
| Sync.NewMemberBlocksUpload | VCSL.Sync/VCardSync.cs:177-219 | as written, when the store fails updates of missing rows and member `j` has no row: the upload ends with a rejected transaction, at most the first `j` merges commit, and member `j` still has no row afterwards |
| Sync.RunCorrected | VCSL.Sync/VCardSync.cs:177 | the run with `UpsertMerge` actions stops exactly when the run as written stops, and otherwise uploads one upsert per member through the chunked block |
| Sync.RunCorrectedStore | VCSL.Sync/VCardSync.cs:192-225 | after the run with upserts, the store is the committed part of the upsert batch applied, or unchanged when there are no members |
| Sync.RunCorrectedWritesMembers | VCSL.Sync/VCardSync.cs:117-225 | with upserts and a store with no other failure, each member's row holds that member's last projected record, whether or not it existed before, and every other row is as before |
| Sync.RunCorrectedStoresEveryMember | VCSL.Sync/VCardSync.cs:117-225 | with upserts and a store with no other failure, every member has a row after the run |
| Cleanup.StaleRecords | VCSL.Sync/VCardCleanup.cs:93 | the deletion candidates are exactly the stored records whose row key is no member's id |
| Cleanup.StaleKeysAreDifference | VCSL.Sync/VCardCleanup.cs:93 | the deleted keys are the stored keys minus the member ids |
| Cleanup.StaleKeepsOrder | VCSL.Sync/VCardCleanup.cs:93 | the candidates keep query order |
| Cleanup.LookupStale | VCSL.Sync/VCardCleanup.cs:93 | with unique keys, a key is a candidate exactly when it is stored and no member carries it |
| Cleanup.StaleExample | VCSL.Sync/VCardCleanup.cs:93 | stored keys A, B, C with members A, C: only B's record is a candidate |
| Cleanup.PhotoQuerySelectsAll | VCSL.Sync/VCardCleanup.cs:139 | the photo query's filter as written, read as the C# expression, holds of every stored record |
| Cleanup.ClearPhotos | VCSL.Sync/VCardCleanup.cs:141 | each record is kept, in order, with its photo set to "" |
| Cleanup.DeletePass | VCSL.Sync/VCardCleanup.cs:93-131 | the candidates are exactly the stored records whose key is no member's id; the delete block runs exactly when there are any; whatever the verdicts, what it deletes is a prefix of the candidates |
| Cleanup.Run | VCSL.Sync/VCardCleanup.cs:32-179 | stops exactly when the table cannot be created or the member list is empty; ends with the exception exactly when the candidate query throws (nothing changed) or, with photos disabled, the photo query throws (the deletions stand); otherwise deletes the candidates behind an emptiness test and, with photos disabled, always submits the candidates again as `UpsertMerge`s, even when there are none |
| Cleanup.RunCorrected | VCSL.Sync/VCardCleanup.cs:135-169 | the intended photo pass merges back exactly the records it cleared, each with an empty photo, and submits only when there are any; it stops, and a query that throws ends it, exactly as in Cleanup.Run |
| Cleanup.EmptySnapshotTouchesNothing | VCSL.Sync/VCardCleanup.cs:80-87 | an empty, missing or non-GUID group id, or a failed or empty listing, ends the run before any deletion |
| Cleanup.PhotoPassSubmitsEmptyTransaction | VCSL.Sync/VCardCleanup.cs:142-162 | with nothing to delete, photos disabled and both queries returning, the photo pass still submits one empty transaction; what the store answers to it is the verdict parameter |
| Cleanup.LookupAfterDeletePass | VCSL.Sync/VCardCleanup.cs:93-131 | when every transaction commits, the deletion pass removes exactly the candidates' keys and leaves members' rows as they were |
| Cleanup.PhotoQueryFailureKeepsDeletions | VCSL.Sync/VCardCleanup.cs:93-139 | when the photo query throws and every transaction commits, the run ends after the deletions: stale keys stay deleted and members' rows are as they were |
| Cleanup.RunAsWrittenChangesNothing | VCSL.Sync/VCardCleanup.cs:137-169 | as written, with both queries returning, photos disabled and every transaction committing, the run leaves every row exactly as it found it, up to the store-assigned `Timestamp` and ETag of the rows merged back |
| Cleanup.PhotoSurvivesExample | VCSL.Sync/VCardCleanup.cs:139-142 | a member's stored photo survives a run with photos disabled, both queries returning and every transaction committing |
| Cleanup.PhotoPassRedacts | VCSL.Sync/VCardCleanup.cs:139-169 | the intended photo pass over a table with unique keys, every transaction committing, leaves each row's record with its photo cleared if it had one, and keeps keys unique |
| Cleanup.RunCorrectedRedacts | VCSL.Sync/VCardCleanup.cs:93-169 | after the corrected run with both queries returning and every transaction committing, stale keys are gone; every member's row holds the stored record with its photo cleared; keys stay unique |
| Cleanup.RunCorrectedLeavesNoPhoto | VCSL.Sync/VCardCleanup.cs:137-169 | after the corrected run, no record carries a photo, so the next photo pass finds nothing |
| Template.ReplaceAll | VCSL.Download/VCardDownload.cs:71 | `Replace` leaves a string without the token unchanged; what it does to text holding the token is stated by Template.ReplaceSkipsLiteral, Template.ReplaceHole and Template.ReplaceJoin |
| Template.Render | VCSL.Download/VCardDownload.cs:71-100 | a template without '[' comes back unchanged from the replace chain; what the chain does to placeholders is stated by Template.RenderFills |
| Template.ValueIsSubstitutedAgain | VCSL.Download/VCardDownload.cs:71-72 | a value that contains a later token is itself substituted: a surname "[givenName]" renders as the given name |
| Template.ReplacementCanFormToken | VCSL.Download/VCardDownload.cs:84 | deleting a token can join its neighbours into a new token: "[[upn]upn]" becomes "[upn]" |
| Template.ValueOf | VCSL.Download/VCardDownload.cs:71-100 | a name has a value exactly when some substitution names it, and that value is a substitution's value for it |
| Template.ReplaceSkipsLiteral | VCSL.Download/VCardDownload.cs:71 | `Replace` passes over text without '[' untouched |
| Template.ReplaceHole | VCSL.Download/VCardDownload.cs:71 | a hole is replaced when its name is the token's name and passed over otherwise |
| Template.ReplaceJoin | VCSL.Download/VCardDownload.cs:71 | one `Replace` on a well-formed template turns exactly the holes of that name into the value |
| Template.SubstWellFormed | VCSL.Download/VCardDownload.cs:71 | a '['-free value keeps a template well formed |
| Template.RenderFills | VCSL.Download/VCardDownload.cs:71-100 | on a well-formed template with clean values, the replace chain fills each hole with the first value of its name |
| Template.NoPlaceholderRemains | VCSL.Download/VCardDownload.cs:71-100 | when every hole is named, the rendered text holds no '[' and no token |
| Download.Line | VCSL.Download/VCardDownload.cs:85-87 | a prefixed line is empty exactly for a null or empty value, and otherwise is the prefix followed by the value |
| Download.Download | VCSL.Download/VCardDownload.cs:30-126 | 400 "No valid ID was provided" exactly for a blank or non-GUID id; 500 exactly when the table read fails; 404 exactly for a missing record or a blank display name; otherwise the file `GivenName.Surname.vcf` holding the rendered template |
| Download.DownloadAsWritten | VCSL.Download/VCardDownload.cs:40-125 | as written: 400 exactly for a blank or non-GUID id; 500 exactly when the table read fails or the row is missing; otherwise the same answer as Download.Download |
| Download.MissingRowIsServerError | VCSL.Download/VCardDownload.cs:53-59 | for a valid id with no row, the code as written answers 500 where Download.Download answers 404 |
| Download.ReplacementValue | VCSL.Download/VCardDownload.cs:71-100 | a `Replace` value is null exactly for the phone of a record whose phone is null; the values themselves are stated by Download.SubstitutionsByName |
| Download.Substitutions | VCSL.Download/VCardDownload.cs:71-100 | one substitution per `Replace` call, nineteen in all; which value each token gets is stated by Download.SubstitutionsByName |
| Download.Position | VCSL.Download/VCardDownload.cs:71-100 | every placeholder is among the replacements |
| Download.NamesDistinct | VCSL.Download/VCardDownload.cs:71-100 | the nineteen tokens are pairwise distinct |
| Download.OrderIsPermutation | VCSL.Download/VCardDownload.cs:71-100 | every placeholder is replaced exactly once |
| Download.SubstitutionsByName | VCSL.Download/VCardDownload.cs:71-100 | a token's value is its placeholder's replacement, null read as ""; names of no placeholder have no value |
| Download.SubstitutionsMeanCard | VCSL.Download/VCardDownload.cs:71-100 | the value each token is replaced with is its card value |
| Download.IsoDateNoOpen | VCSL.Download/VCardDownload.cs:88-90 | the card date holds no '[' |
| Download.ReplacementNoOpen | VCSL.Download/VCardDownload.cs:71-100 | for '['-free stored text, configuration and id, no replacement value holds a '[' |
| Download.TemplatePieces | VCSL.Download/VCardDownload.cs:68-100 | the template text read at line 68, a parameter of the model, taken piece by piece as literal text and the tokens of the `Replace` calls at lines 71-100; it is the reading Download.CardIsFilled is stated over |
| Download.FilledCard | VCSL.Download/VCardDownload.cs:71-100 | filling the template's holes gives the card text, each placeholder replaced by its card value |
| Download.CardIsFilled | VCSL.Download/VCardDownload.cs:71-106 | a served file is the template with every placeholder replaced by its card value, and no token remains |
| Download.BadRequestIgnoresStore | VCSL.Download/VCardDownload.cs:40-44 | a rejected id is answered before the table is read, whatever the table holds |
| Download.FileNameExample | VCSL.Download/VCardDownload.cs:103-106 | a stored record for Ada Lovelace is served as "Ada.Lovelace.vcf" |

## Left out

- Logging, `DateTime.Now` in log lines, `ToLocalizedString` and `ToLocalTime`. None of these changes a returned value or a stored row.
- Cancellation as an event in time. A cancelled call acts as a failure that a parameter already covers. In the download it is answered 500 (VCardDownload.cs:114-119), as a failed read (`store` is None) is. In the sync, a cancelled table creation is caught at VCardSync.cs:85 (`tableReady` false). A cancelled photo fetch is caught at VCardSync.cs:143 and yields no photo (`photos`). A cancelled `SubmitTransactionAsync` is caught by the `catch (Exception)` at VCardSync.cs:216 and VCardCleanup.cs:123 and :165 and ends its upload block as a rejected transaction does (`accept`).
- The Functions host: `Startup`, dependency injection, the timer schedules, the `FileStreamResult`/`ToStream` plumbing, and reading the template file. The template text is a parameter.
- Sync.ResolveOptions: `TenantId`, `ClientId` and `ClientSecret` are init-only properties (VCSL.Shared/Models/AzureAdOptions.cs:8-10), so their assignments at VCardSync.cs:51-59 would not compile as written. They are modelled as if they compiled. Only `GraphUserGroup` (VCSL.Shared/Models/VcslOptions.cs:5, settable) reaches the rest of the model, through the member listing; the three credentials only configure the Graph client, which is not modelled.
- The creation of the Graph client in both timer functions. The cleanup calls a `GetAuthenticatedGraphClient(IConfiguration)` overload that `GraphHelper.cs` does not declare; the directory's answer is a parameter instead.
- `GuidHelper.IsValidGuid` (`Guid.TryParse`) is the parameter `isValidGuid`. Its parsing rules are not modelled.
- The photo download and its base64 encoding. A member's photo is an opaque text the fetch returns.
- The `RequestFailedException` and 409 handling around `CreateIfNotExistsAsync`. This collapses to `tableReady`.
- The catch at VCardSync.cs:181-184. Building the batch cannot throw in the model, so it is unreachable there.
- ETags, the store-assigned `Timestamp` on write, and the partition key. The model assumes the table holds only "Data" rows. That holds because every write in these functions uses partition "Data". The cleanup's unfiltered `Query<VCardDataModel>()` calls (VCardCleanup.cs:93 and :139) would also read rows of other partitions.
- A merge with null properties is modelled as a full write of the record. Azure Table merge semantics (absent properties kept) are not modelled.
- `TableStore.ApplyAction` says what a committed action does. An `UpdateMerge` of a missing row is never committed, and the premise `TableStore.RejectsUpdatesOfMissingRows` on the verdict states that. A lemma without that premise holds for every verdict.
- Download.Download: answers 404 for a valid id with no row, as the null check at VCardDownload.cs:55 intends. As written, `GetEntity` throws `RequestFailedException` for a missing row, and the catch at lines 120-125 answers 500. Download.DownloadAsWritten models that, and Download.MissingRowIsServerError exhibits the difference.
- Sync.RunWritesMembers, Sync.RunIdempotent: stated only for members that already have rows. As written, a member without a row makes its transaction fail and ends the upload (Sync.NewMemberBlocksUpload). Sync.RunCorrectedWritesMembers states the write for every member under upserts.
- `IsWhiteSpace` lists the Unicode White_Space characters and does not model the rest of .NET's character tables.
- Template.NoPlaceholderRemains: proved only for well-formed templates and '['-free values. The unconditional claim is false, as Template.ReplacementCanFormToken and Template.ValueIsSubstitutedAgain show.
- Download.CardIsFilled: proved only for templates of plain text and placeholder tokens whose literal text holds no '[', and for stored text, configuration and id without '['.
- Cleanup.Run: a query either returns the whole filtered table or throws (the `queries` parameter). Paging, partial results and retries of `Query<T>` are not modelled.
- Cleanup.PhotoQuerySelectsAll: reads the filter at VCardCleanup.cs:139 with C# semantics. `Query<T>(expr)` sends it as an OData `$filter`, which the table service evaluates. How the service treats `ne null` is not modelled. If it refuses the filter, the query throws, and Cleanup.PhotoQueryFailureKeepsDeletions gives the outcome.
- IsoDate.IsoDateShape: exact width only for years 1 to 9999. Wider values are covered by IsoDate.IsoDateGroups.

## Findings

| source | as written | input that shows it | evidently intended | confidence | as-written member | corrected member |
|---|---|---|---|---|---|---|
| VCSL.Sync/VCardSync.cs:177 | every member goes up as an `UpdateMerge`, which the store fails for a row not yet stored; one failing action fails the transaction, and the single `catch` at lines 216-219 abandons the chunks after it | an empty table and one member: the one transaction fails and the member never gets a row; with 150 members of whom member 10 is new, the first chunk fails and nothing is written | `UpsertMerge`, which creates a missing row; nothing else ever creates a member's row | not executed | Sync.NewMemberBlocksUpload | Sync.RunCorrectedStoresEveryMember |
| VCSL.Download/VCardDownload.cs:53-59 | `GetEntity` throws for a missing row, so the `vCardData == null` test never fires; the catch at lines 120-125 answers 500 | a valid GUID with no row: 500 Internal Server Error | 404 Not Found, the answer the null test was written to give | not executed | Download.MissingRowIsServerError | Download.Download |
| VCSL.Sync/VCardCleanup.cs:139 | the photo query filter is `Photo != "" \|\| Photo != null`, which as a C# expression holds for every record; the table service evaluates it as an OData `$filter`, and its reading of `ne null` is not modelled | any record: a null photo passes the left operand, an empty one the right | `Photo != "" && Photo != null`, the records that carry a photo | not executed | Cleanup.PhotoQuerySelectsAll | Cleanup.RunCorrectedLeavesNoPhoto |
| VCSL.Sync/VCardCleanup.cs:142 | the photo batch is built from the deletion candidates as `UpsertMerge`s; the records whose photo was cleared are discarded, and the batch is submitted even when empty | photos disabled, both queries returning, every transaction committing, stored record A with a photo and member A: A keeps its photo; with a stale record B as well, B is deleted and then merged back | build the batch from the cleared records, and submit only when there are any | not executed | Cleanup.RunAsWrittenChangesNothing | Cleanup.RunCorrectedRedacts |
