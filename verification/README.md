# Verified model of the featurebyte SDK layer

A Dafny model of the stateful cores of the featurebyte SDK and of the server code they talk to: the
object protocol with its shared cache, column edits and saves, concurrent creation, feature job
accounting, pagination and reload, feature groups, the exception-handler registry, catalog switching,
view construction, window validation and task polling.

Code that changes state is written as classes and methods that are tied by their `ensures` to
functions on values; the properties are lemmas about those functions, for all inputs and all runs.
A request is one atomic step. Times are whole microseconds or seconds.

| file | what it models |
|---|---|
| `Wrappers`, `Sequences`, `Arithmetic` | options, results and errors; repetition and order; products and quotients |
| `Cleaning`, `Tables` | cleaning operations and the query they generate; table records and the server routes that create and patch them |
| `ApiObjects` | one process: server records, time-to-live cache, clock, table handles |
| `CacheFreshness` | many processes and foreign writers: what a cached read may return |
| `ColumnEdits`, `SavePoint` | which edits survive, through many handles, through one, and across `save` |
| `EditEffects`, `Saving` | what an edit and a save do, field by field, and what a run of edits comes to |
| `ConcurrentEdits`, `FailingReads` | which column edits survive other processes, and reads that fail |
| `GetOrCreate` | any number of concurrent creations in any interleaving |
| `JobSchedule`, `JobSummary`, `JobRows` | expected jobs against the schedule; conservation of job logs; the columns of a row in terms of the logs |
| `Pagination`, `FeatureListReload`, `GroupSaving` | the listing loop; saving a group on the server and restoring its order; what the save comes to on the store |
| `FeatureGroups` | names of features; flattening, subset, drop, plain and conditional assignment |
| `ExceptionRegistry`, `HandlerEffects` | handler registration order and dispatch; what one call of them does |
| `CatalogScope` | the global active catalog against lexical scoping |
| `Views`, `ViewContents` | automatic and manual views, replay from metadata; columns, joins and rows in terms of the tables |
| `Windows`, `Polling` | window validation and the group it makes; task polling |

## Where the code does not do what it is for

Each of these is proved with its exact condition.

- `Cleaning.ImputedAtMostOnceIff`: the validator means to rule out imputing a value twice, but it tests the
  values as given while the query casts the output of every operation to the type of the column first.
  `CastImputesTwice` (an integer column: 0.4 becomes 0) and `TextImputesTwice` (a text column: 0 becomes a
  text) are accepted lists that impute twice. `ValidatorPromise` says when the validator is right: with
  values of the column's type always, where the warehouse finds a listed NULL; where it does not, a value
  made missing is imputed again by a later `UnexpectedValueImputation` that lists missing among its
  expected values (`NullImputesTwice`; the docstring of that operation says it leaves missing values alone).
- `ColumnEdits.StaleHandleIff`, `StaleFieldsIff`: an update sends the handle's whole local copy, so a
  stale handle takes back columns and settings changed through another one.
- `ConcurrentEdits.EditMeetsServerIff`: a column edit sends the list it read, so it does what is meant
  exactly when nothing outside the edited field has changed on the server since.
- `FailingReads.NoLostEditsIff`: a read that fails, for whatever reason, is taken for an unsaved table and
  answered with the handle's own columns; the edits are kept exactly when those fit the server's outside
  the edited field. `OutageLosesEdit` loses one.
- `JobSchedule.ExpectedJobsIsOverdueIff`: a job exactly on the window's start is lost, and with a
  tolerance of a period or more a job still within it is counted.
- `JobSummary.SummaryConservesLogs`: failures of a tile that never completed a job are reported as 0.
- `Pagination.NewestFirstIff`: the server's default order is newest first; then a record created
  between two requests makes the loop repeat another one.
- `FeatureGroups.RenamedIff`: a named feature is not to be renamed, but after a conditional assignment or
  `fillna` outside a group its node is unnamed and the next name is accepted.
- `FeatureGroups.FlatteningKeepsLeavesIff`: flattening tests a feature's name but stores it under its old
  key, so a feature renamed inside a group overwrites an earlier one of that key
  (`RenamedInsideOverwrites`).
- `FeatureGroups.SharedIdBlocksDrop`: one unnamed feature stored under two names makes `drop` refuse
  even an empty list.
- `FeatureListReload.SaveGroup`: saving is not atomic. Features of two feature stores make a group that the
  client accepts and the server refuses after it has created them (`TwoFeatureStores`).
- `FeatureListReload.SaveRoundTripIff`: a feature saved before and changed since keeps its id, and the
  server skips saved ids: saving its group succeeds and takes the change back (`ChangeIsTakenBack`).
- `ExceptionRegistry.DispatchIsMostSpecificIff`: registering `Exception` itself is not detected and
  hides every handler registered later.
- `ViewContents.AutomaticAcceptedIff`: automatic mode chooses the columns of an item view itself, and asks for
  a timestamp or timezone offset column twice that carries an entity; the view is then refused
  (`TaggedTimestampIsRefused`).
- `Views.BuildReplays`: a replayed view's column information differs from the original's where a column
  has an empty list of cleaning operations.

## Model

| member | source | states |
|---|---|---|
| ApiObjects.ApiSession.GetObjectDictById | featurebyte/api/api_object.py:201-205 | a GET by id answers with the server's record and puts it into the cache for TTL, or fails and changes nothing |
| ApiObjects.ApiSession.CachedModel | featurebyte/api/api_object.py:112-124 | an unexpired entry is returned as it is; anything else costs a GET, which may fail |
| ApiObjects.ApiSession.UpdateCache | featurebyte/api/api_object.py:143-154 | the record's own key is overwritten with a fresh entry |
| ApiObjects.TableHandle.SendUpdate | featurebyte/api/api_object.py:434-462 | PATCH of the full local payload updates server, cache and handle; 404 edits the handle alone; a conflict or any other status raises and changes nothing |
| ApiObjects.TableHandle.ReadColumnsInfo | featurebyte/api/base_table.py:579-582 | columns of the cached model, or the local ones of an unsaved table or when the GET fails |
| ApiObjects.TableHandle.PrepareColumnsInfo | featurebyte/api/base_table.py:118-138 | the loop yields the current columns with the named one replaced |
| ApiObjects.TableHandle.EditColumn | featurebyte/api/base_table.py:164-169 | as_entity and update_critical_data_info: two reads of the model with a pause between, each of which may fail, then the update; if that fails only the reads have happened |
| ApiObjects.TableHandle.SaveTable | featurebyte/api/savable_api_object.py:90-117 | all outcomes of save: saved before, created, duplicate raised, existing record retrieved, nothing to retrieve, any other status |
| ApiObjects.CreateTable | featurebyte/api/base_table.py:753-770 | a taken name fails before anything is sent to save; otherwise the outcome of save |
| ApiObjects.GetOrCreateTable | featurebyte/api/base_table.py:803-812 | an existing name returns its record and changes nothing; otherwise create |
| CacheFreshness.EntriesAreFaithful | featurebyte/api/api_object.py:143-154 | over any run of any number of processes and foreign writers, every cache entry is the record of an earlier state of the run and expires TTL after it |
| CacheFreshness.ReadsAreFresh | featurebyte/api/api_object.py:87-124 | a cached_model read returns what the server held at a moment less than TTL ago |
| CacheFreshness.ReadsNeverGoBack | featurebyte/api/api_object.py:112-124 | successive reads of one key by one process never return an older state |
| CacheFreshness.ReadYourWrites | featurebyte/api/api_object.py:446-453 | a read after the process' own accepted update or save sees that write or a later state |
| CacheFreshness.SaveIsARun | featurebyte/api/savable_api_object.py:90-112 | save on a handle is a run of the atomic requests the theorems range over |
| CacheFreshness.ColumnEditIsARun | featurebyte/api/base_table.py:227-233 | so is a column edit, with exactly the payload built from its two reads |
| ColumnEdits.NoLostColumnEdits | featurebyte/api/base_table.py:164-169 | with one process and any number of handles on any tables, after any interleaving of column edits, reads, pauses and evictions the server's columns are the fold of the edits in call order |
| ColumnEdits.ColumnEditOutcome | featurebyte/api/base_table.py:118-138 | in a coherent session a column edit changes the one column of the server's current list and keeps the session coherent, whatever the handle's copy holds |
| ColumnEdits.ReplacedIsEdit | featurebyte/api/base_table.py:118-138 | replacing by name with the edited first match is the edit of exactly that column |
| ColumnEdits.FailedEditIsReads | featurebyte/api/api_object.py:459-462 | an edit whose PATCH fails leaves exactly what its reads and pause leave as steps of the process, so NoLostColumnEdits covers runs with failing updates |
| ColumnEdits.StaleHandleIff | featurebyte/api/api_object.py:439-445 | updating another field keeps columns and job setting exactly when the handle's copies are empty or current |
| ColumnEdits.StaleFieldsIff | featurebyte/api/api_object.py:439-445 | a column edit keeps the other fields exactly when the handle's copies are absent or current |
| ColumnEdits.StaleHandleLosesEdit | featurebyte/api/event_table.py:361-365 | two handles opened together: a job setting update through one takes back any column edit made through the other |
| EditEffects.EntityEdit | featurebyte/api/base_table.py:161-169 | after as_entity the server's column of that name has the given entity, also when that is none, every other column and field of a column is as before, and an unknown column raises KeyError |
| EditEffects.CleaningEdit | featurebyte/api/base_table.py:227-233 | operations of which none would clean what an earlier one imputes become the column's, also when the list is empty; all others raise ValueError and change nothing |
| EditEffects.FieldEdits | featurebyte/api/event_table.py:361-365 | setting one of the other fields of a saved table sets it on server and handle; the rest becomes what the handle has |
| EditEffects.UnsavedColumnEdits | featurebyte/api/api_object.py:454-457 | column edits of a table that is not saved change the one field of the one column, on the handle alone |
| EditEffects.UnsavedFieldEdits | featurebyte/api/api_object.py:454-457 | edits of its other fields change that field alone |
| EditEffects.CacheHoldsForOneSecond | featurebyte/api/api_object.py:143-154 | a stored model is read for one second whatever the server does, and not a microsecond longer |
| EditEffects.RunIsLastEdits | featurebyte/api/base_table.py:164-169 | after any run of one process a column's entity is that of the last edit that tagged it through a handle of its table, its operations those of the last accepted edit of them, and else as at first |
| ConcurrentEdits.EditMeetsServerIff | featurebyte/api/base_table.py:118-138 | whatever other processes did since its reads, a column edit's PATCH has the meant effect exactly when the list read equals the server's outside the edited field |
| ConcurrentEdits.EditIsLost | featurebyte/api/base_table.py:227-233 | two processes read, edit different columns and patch: the server ends up with the last edit alone |
| FailingReads.UnservedMeetsIff | featurebyte/api/base_table.py:579-582 | an edit whose reads may fail has the meant effect exactly when the lists read, the server's or the handle's own, equal the server's outside the edited field |
| FailingReads.NoLostEditsIff | featurebyte/api/base_table.py:227-233 | over any run of one process with failing reads the server's columns are at every moment the fold of the edits so far exactly when this holds of every edit |
| FailingReads.OutageLosesEdit | featurebyte/api/api_object_util.py:255-260 | an edit through a stale handle while GET fails takes back another handle's edit |
| SavePoint.SavePointIndependence | featurebyte/api/api_object.py:454-457 | wherever save is inserted among the edits, the server ends with the meaning of all edits on the freshly tagged table |
| SavePoint.SingleHandleKeepsEverything | featurebyte/api/api_object.py:446-453 | through a single handle no edit of any field is lost and the local copy stays the server's record |
| SavePoint.MovesUnsaved | featurebyte/api/api_object.py:454-457 | edits of an unsaved handle leave the server alone and have on the local copy the effect they mean |
| SavePoint.SaveMakesCurrent | featurebyte/api/savable_api_object.py:95-117 | saving a table that conflicts with nothing succeeds and leaves server, cache and handle equal |
| Saving.SaveRaising | featurebyte/models/feature_store.py:216-235 | save succeeds exactly when all records differ in id and name and those of the same source are deprecated; the record is created as sent, its event timestamp and event id columns tagged; a refusal changes no record |
| Saving.SaveRetrieving | featurebyte/api/savable_api_object.py:95-117 | with retrieval a record of the same name takes the handle's place; without one a conflict raises; the server changes only where nothing conflicts |
| GetOrCreate.Agreement | featurebyte/api/base_table.py:803-812 | in any interleaving of n calls one record at most has a name, and every call that returned for it returned that record |
| GetOrCreate.InvAlways | featurebyte/service/base_document.py:206-218 | ids, names and column names stay unique and returned records stay there, over every run |
| GetOrCreate.RunsEnd | featurebyte/api/savable_api_object.py:90-117 | every interleaving ends: five requests a call at most |
| GetOrCreate.RaisedIsBlocked | featurebyte/service/base_document.py:206-218 | every call that raised was stopped by a record that conflicts with its own, present from the start or created and returned by another call |
| GetOrCreate.UncontestedReturns | featurebyte/api/savable_api_object.py:90-117 | a call whose record conflicts with nothing on the server and no other call's record returns once it has ended |
| GetOrCreate.SomeoneReturns | featurebyte/api/base_table.py:753-770 | on an empty server the calls cannot all fail: once all have ended one has returned |
| GetOrCreate.AloneIsSave | featurebyte/api/savable_api_object.py:90-117 | the requests of one save with nobody in between have the records and the outcome of save |
| GetOrCreate.AloneIsGetOrCreate | featurebyte/api/base_table.py:803-812 | so have the requests of one get_or_create |
| GetOrCreate.AloneIsCreate | featurebyte/api/base_table.py:753-770 | and those of one create, which fails first on a taken name |
| GetOrCreate.SourcesStayUnique | featurebyte/models/feature_store.py:229-234 | if at first no two tables that are not deprecated share a source, none do at any state of any run |
| JobSchedule.NextJobIsLeast | featurebyte/common/date_util.py:98-115 | the next job is the least scheduled time strictly after now, at most a period away |
| JobSchedule.ExpectedJobsIsCount | featurebyte/api/feature_job.py:258-275 | for every period, offset, window and tolerance the closed form counts the scheduled times from the window's start to the last job, plus the last one when it is inside and overdue |
| JobSchedule.ExpectedJobsIsOverdueIff | featurebyte/api/feature_job.py:266-275 | it equals the number of jobs of the window older than the tolerance exactly when no boundary job is missed and none within tolerance counted |
| JobSchedule.GracePeriod | featurebyte/api/feature_job.py:267-270 | with a tolerance below the period and the last job off the window's start it is that number |
| JobSchedule.BoundaryJobIsLost | featurebyte/api/feature_job.py:269 | a concrete hourly schedule whose overdue job on the window's start is not expected |
| JobSchedule.LongerWindowExpectsMore | featurebyte/api/feature_job.py:272-275 | a longer history never expects fewer jobs |
| JobSchedule.GrowsByPeriods | featurebyte/api/feature_job.py:272-275 | a window reaching before the last job grows by exactly m jobs when extended by m periods |
| JobSummary.ComputeFeatureJobsSummary | featurebyte/api/feature_job.py:213-299 | join, group-by and the in-place passes produce, tile by tile, the grouped counts, maxima and 95th percentile, expected jobs, fraction of late jobs, defaults, jobs left over and time since the last completion |
| JobSummary.PercentileSplits | featurebyte/api/feature_job.py:236 | the 95th percentile lies between the durations at or below 95 hundredths of the way through their ascending order and the rest |
| JobSummary.FractionsAreFractions | featurebyte/api/feature_job.py:277-289 | in every row jobs longer than the period are among the completed ones, and the late share lies between 0 and 1 and is missing exactly when nothing completed |
| JobSummary.MarkLastJobs | featurebyte/api/feature_job.py:266-270 | sets expected jobs to 1 exactly where the last job is overdue inside the window and leaves the rest of each row alone |
| JobSummary.AddWholePeriods | featurebyte/api/feature_job.py:272-275 | adds the whole periods of the window to each row and changes nothing else |
| JobSummary.FillDefaults | featurebyte/api/feature_job.py:277-295 | zeroes the counts of tiles without a completed job, divides the late jobs by the completed ones, and subtracts |
| JobSummary.JoinKeepsRows | featurebyte/api/feature_job.py:213-218 | with one frequency an id the left join keeps each log row exactly once, in order, matched exactly when its id is known |
| JobSummary.JoinSizeIff | featurebyte/api/feature_job.py:213-218 | in general the join never loses a row, and duplicates none exactly when no logged id has two frequencies |
| JobSummary.GroupCountIsMultiple | featurebyte/api/feature_job.py:231-243 | a group counts each of its logs once per frequency of the tile |
| JobSummary.LastCompletedIsLatest | featurebyte/api/feature_job.py:238 | the last completion is the maximum over the tile's joined logs and is one of them |
| JobSummary.FirstSpecsAreFirst | featurebyte/api/feature_job.py:244-253 | the parameters of a tile are those of its first spec |
| JobSummary.SummaryConservesLogs | featurebyte/api/feature_job.py:231-286 | one row an aggregation id; completed jobs sum to the completed logs of known ids; failed jobs do so exactly when no tile failed without ever completing |
| JobSummary.HiddenFailure | featurebyte/api/feature_job.py:277-282 | a tile with one failed job and none completed is reported without failures |
| JobRows.EveryTileHasARow | featurebyte/api/feature_job.py:244-253 | every aggregation id of the specs has exactly one row |
| JobRows.RowsInOrder | featurebyte/api/feature_job.py:244-253 | rows follow the order in which the specs mention their ids first |
| JobRows.RowCounts | featurebyte/api/feature_job.py:231-289 | completed, failed and over-period jobs of a row are the numbers of such logs of its id, and the late share is the number of logs longer than the tolerance over the completed ones; with none completed they are 0, 0 and missing |
| JobRows.RowMaxima | featurebyte/api/feature_job.py:235-238 | the longest duration and the last completion are the largest of the id's logs |
| JobRows.RowRemainders | featurebyte/api/feature_job.py:284-295 | the time since the last completion and the incomplete jobs follow from the other columns |
| JobRows.RowPercentile | featurebyte/api/feature_job.py:236 | the percentile is the interpolated value 95 hundredths of the way through any ascending arrangement of the id's durations |
| JobRows.RowExpected | featurebyte/api/feature_job.py:255-275 | expected jobs are the times congruent to the offset in seconds modulo the frequency in minutes, from the window's start to the last one, and that one if inside and older than the tolerance |
| Pagination.IteratePages | featurebyte/api/api_object_util.py:308-322 | the loop yields page after page and stops exactly at the first request that asks for no more, or raises at the first failed one |
| Pagination.ExactSnapshot | featurebyte/api/api_object_util.py:309-322 | if records are only appended between requests, the output when the loop ends is the whole list at the last request |
| Pagination.UnchangingList | featurebyte/api/api_object_util.py:216-231 | an unchanging list is yielded once each, in order, and request k is the last exactly for k = max(1, ceil(N / p)) |
| Pagination.ListAll | featurebyte/api/api_object_util.py:285-322 | against an unchanging list the loop terminates with the list in exactly that many requests |
| Pagination.NewestFirstIff | featurebyte/service/base_document.py:398-450 | in the server's default order the output is the final list exactly when nothing was created since the first request |
| FeatureGroups.FlattenItems | featurebyte/api/feature_group.py:80-103 | for any items: succeeds exactly when every leaf has a name that is no earlier leaf's key, direct ones have one at all, and none shares an id with an earlier directly listed feature; the result is the dictionary of the leaves |
| FeatureGroups.FlatteningKeepsLeavesIff | featurebyte/api/feature_group.py:94-102 | an accepted flattening is the concatenation of its leaves in order exactly when no feature of a group is stored under a key an earlier leaf has |
| FeatureGroups.LastLeafStays | featurebyte/api/feature_group.py:91-102 | under each key of the result is the last leaf that has it |
| FeatureGroups.FlattenedIsConstruct | featurebyte/api/feature_group.py:81-103 | of valid groups and features it is the in-order concatenation, and succeeds exactly for present, distinct names and ids distinct from earlier direct ones |
| FeatureGroups.AddLeafIff | featurebyte/api/feature_group.py:86-102 | the checks on one feature pass exactly when the leaves so far stay acceptable with it |
| FeatureGroups.ConstructIsValid | featurebyte/api/feature_group.py:142-149 | every key of a constructed group is its feature's name and keys are distinct, whatever the features' nodes |
| FeatureGroups.RegroupingIrrelevant | featurebyte/api/feature_group.py:81-103 | two accepted groupings of the same features give the same map |
| FeatureGroups.RegroupingMayReject | featurebyte/api/feature_group.py:94-102 | ids reached through a group are not remembered: the same two features pass grouped and fail listed directly |
| FeatureGroups.SubsetIff | featurebyte/api/feature_group.py:226-227 | a subset has the features asked for in the order asked for, and is refused exactly for unknown or repeated names or shared ids |
| FeatureGroups.DropIff | featurebyte/api/feature_group.py:236-261 | drop keeps the survivors in order and is refused exactly when two of them share an id |
| FeatureGroups.DropDrop | featurebyte/api/feature_group.py:258-261 | drop(a) then drop(b) is drop(a + b) whenever drop(a) is accepted |
| FeatureGroups.SharedIdBlocksDrop | featurebyte/api/feature_group.py:454-459 | one unnamed feature under two names makes every drop that keeps both fail |
| FeatureGroups.RenamedIff | featurebyte/core/series.py:1084-1127 | over any run of namings and conditional assignments outside a group, a named feature is ever renamed exactly when some step asks for another name right after an assignment, while its node is neither a projection nor an alias |
| FeatureGroups.RenamedAfterFillna | featurebyte/api/feature.py:477-497 | a projected feature refuses another name, and takes it after fillna |
| FeatureGroups.AssignIsValid | featurebyte/api/feature_group.py:454-459 | assignment changes one entry, in place or at the end, and keeps every key its feature's name |
| FeatureGroups.AssignMaskedIff | featurebyte/api/feature_group.py:442-452 | conditional assignment through a group is refused only for an unknown name, keeps all names, and changes one feature's node to a named one |
| FeatureGroups.RunKeepsGroup | featurebyte/api/feature_group.py:226-261 | over any run of subsets, drops and assignments the group stays valid, and without subsets surviving keys keep their order |
| FeatureGroups.RunNeverRenames | featurebyte/api/feature.py:477-497 | over any such run a feature of the group is accepted under another key exactly when it was in the group from the start with a node that is unnamed or has that name |
| FeatureGroups.RenameInsideIff | featurebyte/api/feature_group.py:223-224 | renaming a feature taken out of a group breaks the group exactly when it is accepted with another name |
| FeatureGroups.RenamedInsideOverwrites | featurebyte/api/feature_group.py:94-102 | a group with a feature renamed inside it, flattened after a feature of its old key, is accepted and replaces that feature |
| FeatureGroups.FeatureGroup.SetItem | featurebyte/api/feature_group.py:454-459 | accepted exactly for an unnamed feature or the feature's own name; a refusal changes nothing |
| FeatureGroups.FeatureGroup.SetMaskedItem | featurebyte/api/feature_group.py:442-452 | accepted exactly for a key of the group |
| FeatureGroups.FeatureGroup.DropItems | featurebyte/api/feature_group.py:236-261 | a new valid group, the receiver unchanged |
| FeatureListReload.Initialize | featurebyte/api/feature_group.py:105-140 | for every page size and listing order the items follow the ids, or KeyError for an id not listed |
| FeatureListReload.InitFeatureList | featurebyte/api/feature_list.py:349-359 | a retrieved list flattens its reloaded items again |
| FeatureListReload.ReloadRoundTrip | featurebyte/api/feature_group.py:501-510 | features with distinct names and ids come back from any listing that contains them, with names, features and order, as a group and as a feature list |
| FeatureListReload.BatchFeatureCreate | featurebyte/worker/task/batch_feature_create.py:266-313 | the loop over the features: saved ids are skipped, with retrieval known names are replaced, all others created; raises exactly when a creation meets a taken id or name, and what was created before stays |
| FeatureListReload.CreateFeatureList | featurebyte/service/feature_list.py:144-166 | accepted exactly for a non-empty list of stored features of one feature store and distinct names |
| FeatureListReload.SaveGroup | featurebyte/api/feature_group.py:464-516 | batch creation, temporary list and reload: for any listing order and page size the group becomes the stored stand-ins of its features, in order, exactly when creations succeed and the stand-ins have one feature store and distinct names; the store keeps what was created in any case |
| FeatureListReload.SaveRoundTripIff | featurebyte/worker/task/batch_feature_create.py:285-305 | the reloaded group is the saved one exactly when every feature saved before is stored as it is and retrieval replaces none; its names are kept exactly when the features saved before still have theirs |
| GroupSaving.RaisingIff | featurebyte/worker/task/batch_feature_create.py:285-305 | without retrieval the first n features are dealt with exactly when none whose id is not saved has a known name or the id or name of an earlier such one |
| GroupSaving.RetrievingIff | featurebyte/worker/task/batch_feature_create.py:291-305 | with retrieval exactly when no two whose id is not saved and whose name is not known share id or name |
| GroupSaving.StandIns | featurebyte/worker/task/batch_feature_create.py:285-305 | each result is what is stored under a saved id, else with retrieval the default version of a known name, else the feature itself |
| GroupSaving.BroughtOnes | featurebyte/worker/task/batch_feature_create.py:299-305 | every feature that is not saved, nor retrieved by name, is stored under its id and as the default version of its name |
| GroupSaving.OnlyBroughtOnes | featurebyte/worker/task/batch_feature_create.py:285-305 | and no other id or name is added |
| GroupSaving.OldOnesStay | featurebyte/worker/task/batch_feature_create.py:285-305 | every stored feature and default version stays |
| GroupSaving.KnownNameIsRetrieved | featurebyte/worker/task/batch_feature_create.py:291-297 | with retrieval a feature of a known name gives way to its default version, is not stored itself and never stops the batch |
| GroupSaving.KnownNameIsRefused | featurebyte/worker/task/batch_feature_create.py:298-305 | without it the batch stops at or before such a feature and its group is not saved |
| GroupSaving.ChoiceIsIrrelevant | featurebyte/worker/task/batch_feature_create.py:291-294 | where no unsaved feature has a known name both choices do the same |
| GroupSaving.SavesIff | featurebyte/service/feature_list.py:144-166 | a save is accepted exactly for a non-empty group whose batch is, and whose stand-ins have one feature store and distinct names |
| FeatureListReload.NewFeaturesRoundTrip | featurebyte/api/feature_group.py:501-510 | a group of new features of one feature store and of distinct names and ids is saved and comes back as it was |
| FeatureListReload.TwoFeatureStores | featurebyte/service/feature_list.py:153-157 | a group of two new features of different feature stores is accepted by the client and refused by the server, with both features created |
| FeatureListReload.ChangeIsTakenBack | featurebyte/worker/task/batch_feature_create.py:286-289 | saving a saved feature after fillna succeeds and restores the old feature |
| FeatureListReload.SharedIdDoesNotReload | featurebyte/service/feature_list.py:159-163 | saving a group with two features of one id is refused or gives another group |
| ExceptionRegistry.ExecutionContext.RegisterHandler | featurebyte/middleware.py:66-76 | refused for a class that is no exception or whose superclass is registered; a known class keeps its place |
| ExceptionRegistry.ExecutionContext.UnregisterHandler | featurebyte/middleware.py:88 | removes the one handler, or KeyError |
| ExceptionRegistry.ExecutionContext.HandleRaised | featurebyte/middleware.py:109-132 | the first registered ancestor's status, otherwise 500; what is no subclass of Exception is not caught |
| ExceptionRegistry.SuperClassesSuffice | featurebyte/middleware.py:69-70 | cutting the last three classes off the resolution order loses no exception ancestor but Exception, under any multiple inheritance |
| ExceptionRegistry.AlwaysOrdered | featurebyte/middleware.py:66-88 | after any history no handler but Exception's precedes a strict subclass's |
| ExceptionRegistry.DispatchIsMostSpecificIff | featurebyte/middleware.py:253-261 | a handler is found exactly when an ancestor is registered, and always the most specific one exactly when Exception is not registered before another class |
| ExceptionRegistry.NearestUnderSingleInheritance | featurebyte/middleware.py:112-116 | with single inheritance it is the nearest registered ancestor's |
| HandlerEffects.RegisterIff | featurebyte/middleware.py:66-74 | a registration succeeds exactly for a subclass of Exception without a registered proper ancestor, but for Exception itself where it is third from last in the resolution order |
| HandlerEffects.RegisterPlaces | featurebyte/middleware.py:76 | a known class keeps its place and gets the new status, a new one comes last |
| HandlerEffects.UnregisterIff | featurebyte/middleware.py:88 | removal succeeds exactly for a registered class and takes its handler and no other |
| HandlerEffects.UnregisterKeepsOrder | featurebyte/middleware.py:88 | the others stay in their order |
| HandlerEffects.RegisterThenUnregister | featurebyte/middleware.py:66-88 | registering a new class and removing it changes nothing |
| HandlerEffects.HandledIs | featurebyte/middleware.py:109-132 | the status of the first registered ancestor, 500 without one, and no answer for what is no exception |
| CatalogScope.Interpreter.Execute | featurebyte/api/catalog_decorator.py:34-45 | the statements run with save, switch and restore of one global, restoring after exceptions too |
| CatalogScope.DynamicIsLexical | featurebyte/api/catalog_decorator.py:34-45 | for any nesting of calls, requests, raises and handlers every request carries the innermost enclosing catalog's id or its own header, and the global on exit is the one on entry |
| CatalogScope.ExitIsLastActivation | featurebyte/api/catalog_decorator.py:34-45 | for any tree of calls, raises, handlers and activations the global on exit is the id of the last executed activation that lies in no switching call, or else the one on entry |
| CatalogScope.ActivationSurvivesIff | featurebyte/models/base.py:37-47 | an activation inside nested calls outlives them exactly when each found its own id active or nothing changed |
| CatalogScope.InnermostCatalog | featurebyte/config.py:172-176 | a request in nested calls carries its own header, else the innermost call's id, else what was active |
| CatalogScope.RaiseAndActivate | featurebyte/api/catalog_decorator.py:34-45 | a raise ends the calls around it, its handler runs under what was active before them, and an activation is seen by later requests |
| Views.GlobalQueryGraph.GetEventView | featurebyte/api/event_table.py:171-215 | the view of the mode and parameters; its node is inserted unless the graph has it; refused for manual-only parameters in automatic mode and for operation lists the validator rejects |
| Views.GlobalQueryGraph.GetItemView | featurebyte/api/item_table.py:202-300 | the item view over the event view; both nodes are inserted unless present, and exactly the event view's node stays when the rest is refused |
| Views.CloneColumns | featurebyte/query_graph/model/common_table.py:100-113 | the in-place loop validates and sets the named columns' operations, the last entry for a name counting, and clears the others; one invalid list refuses the whole |
| Views.PrepareViewColumnsInfo | featurebyte/query_graph/model/common_table.py:246-251 | the loop keeps the columns not dropped, in order |
| Views.CloneRestoresDefaults | featurebyte/api/base_table.py:1040-1052 | cloning with a table's default operations is accepted and restores them, empty lists becoming absent |
| Views.BuildReplays | featurebyte/api/base_table.py:1034-1052 | an automatic view rebuilt manually from its metadata has the same columns, cleaning and metadata; its column information is literally the same exactly when no kept column has an empty operation list |
| Views.EventViewReplays | featurebyte/query_graph/node/nested.py:256-278 | replaying an event view succeeds and gives the same view |
| Views.ItemViewReplays | featurebyte/query_graph/node/nested.py:297-325 | replaying an item view from both sides' metadata succeeds and gives the same columns, cleaning and join |
| Views.ItemReplayPreservesRows | featurebyte/api/item_table.py:227-277 | original and replay give the same rows with the same cleaned values for every item row and every event table, in every warehouse |
| Views.ViewCleans | featurebyte/query_graph/model/common_table.py:180-231 | a view is accepted exactly when no list it is to use is rejected by the validator; automatic views clean each kept column with its defaults, manual ones with the last operations given and nothing else, each output cast to the column's type; the columns missing are exactly those dropped |
| Views.ItemViewNamesDistinct | featurebyte/query_graph/model/table.py:150-199 | an accepted item view has no two columns of one name |
| Views.GraphContents | featurebyte/query_graph/model/graph.py:486-502 | after an item view was asked for the graph holds what it held, the event view's node if its side is accepted, and the item view's |
| ViewContents.LastGiven | featurebyte/query_graph/model/common_table.py:100-113 | of several operation lists for one column the last counts |
| ViewContents.AutomaticColumns | featurebyte/api/base_table.py:1034-1052 | an automatic view keeps, in order, every column but the record creation timestamp |
| ViewContents.ManualColumns | featurebyte/query_graph/model/common_table.py:246-251 | a manual view keeps, in order, the columns not dropped, with the operations given |
| ViewContents.AutomaticJoin | featurebyte/api/item_table.py:231-240 | an automatic item view joins, once each and under its name with the suffix, exactly the event columns it keeps that are the timestamp, the timezone offset or an entity, without the event id; on the two event id columns |
| ViewContents.AutomaticContents | featurebyte/query_graph/model/table.py:255-265 | its columns are the item table's without the record creation timestamp, then the joined ones with the event table's information |
| ViewContents.AutomaticOrder | featurebyte/api/item_table.py:236-238 | the timestamp is joined first, the timezone offset last, the entities as in the event table |
| ViewContents.AutomaticAcceptedIff | featurebyte/query_graph/model/table.py:150-199 | automatic mode succeeds exactly when timestamp and timezone offset are kept, differ and carry no entity, unless they are the event id, and no new name is an item column's |
| ViewContents.TaggedTimestampIsRefused | featurebyte/query_graph/node/generic.py:957-967 | over an event table whose timestamp carries an entity every automatic item view is refused |
| ViewContents.ManualJoin | featurebyte/api/item_table.py:227-230 | a manual item view joins the columns given, or the timestamp alone, without the event id and in order |
| ViewContents.ManualAcceptedIff | featurebyte/query_graph/model/table.py:150-199 | it is accepted exactly when both sides are, and the columns asked for exist, meet no item column under their new names and repeat nothing but the event id; a clash of names has its own error |
| ViewContents.JoinedCells | featurebyte/query_graph/model/table.py:166-192 | a joined row has the item's cells, and under each new name the event's |
| ViewContents.ItemRows | featurebyte/query_graph/model/table.py:181-192 | an item row gives a row for every event of its id, with that event's cells, and one row without any if there is none |
| Cleaning.ImputedOnceIff | featurebyte/query_graph/node/cleaning_operation.py:66-84 | a value is imputed at most once exactly when what its first matching operation leaves, cast to the column's type, triggers no later operation; then that is the result |
| Cleaning.ImputedAtMostOnceIff | featurebyte/query_graph/model/critical_data_info.py:20-42 | all values of a column are imputed at most once exactly when this holds of every operation that takes some value |
| Cleaning.FiresIsCheck | featurebyte/query_graph/sql/ast/is_in.py:25-31 | on comparable values the query's condition is the validator's test, but for a missing value an operation lists, where the warehouse decides |
| Cleaning.ValidatorPromise | featurebyte/query_graph/model/critical_data_info.py:20-42 | an accepted list of values of the column's type imputes at most once where a listed NULL is found; elsewhere exactly when no value made missing meets a later operation that expects missing |
| Cleaning.CastImputesTwice | featurebyte/query_graph/node/cleaning_operation.py:74-83 | an accepted list on an integer column that imputes -1 twice |
| Cleaning.TextImputesTwice | featurebyte/query_graph/node/cleaning_operation.py:353-354 | an accepted list on a text column that imputes every text twice |
| Cleaning.NullImputesTwice | featurebyte/query_graph/node/cleaning_operation.py:233-248 | an accepted list that imputes -999 twice exactly where a listed NULL is not found |
| Cleaning.CleansOne | featurebyte/query_graph/node/cleaning_operation.py:66-84 | an operation imputes exactly the cells it is for, at all four kinds of bounds, and leaves the others |
| Cleaning.CleansInOrder | featurebyte/query_graph/model/common_table.py:180-231 | operations run in order, each on what the ones before it left |
| Cleaning.OrderMatters | featurebyte/query_graph/model/critical_data_info.py:20-42 | filling before cutting off is accepted and the other order refused, and so is a bound that takes in the filled value |
| Windows.AcceptedIff | featurebyte/api/window_validator.py:30-49 | a window is accepted exactly when it is a whole number k >= 1 of periods and at most 365 days |
| Windows.ValidateParameters | featurebyte/api/window_aggregator.py:136-168 | accepted exactly when method, value column and fill value are, names and windows correspond one to one, None occurs at most once and only for an uncategorised latest, and all other windows are whole periods |
| Windows.AcceptedOutright | featurebyte/api/window_aggregator.py:136-185 | the same in plain terms, the explicit job setting going before the default, windows being multiples of its frequency up to 31536000 seconds |
| Windows.SetSizeIff | featurebyte/api/window_aggregator.py:152-153 | comparing with the size of the set detects exactly the repetitions |
| Windows.AggregateOver | featurebyte/api/window_aggregator.py:88-124 | succeeds exactly for accepted parameters that the column type and the category allow and that an item view does not refuse for its event id or for columns of its event table alone; the group is valid, its keys are the names, its ids are new in order, its features are filled exactly for a fill value or an uncategorised count, and none takes another name |
| Windows.ApplicableOutright | featurebyte/api/item_view.py:208-232 | in an item view the event id is no key, and the value column or a key is not from the event table alone |
| Windows.SameDurationTwice | featurebyte/api/window_aggregator.py:152-153 | windows are compared as strings: one hour spelled twice is accepted |
| Polling.PollAsyncTask | featurebyte/api/mixin.py:63-99 | the loop ends at the first status outside the running ones and returns normally only for SUCCESS with the output path and result it needs |

## Left out

- HTTP, JSON, websockets, progress bars, threads, and the time a request takes: a request is one step.
- GET requests by name, of other tables and in `save` that fail for other reasons than a missing record; the server's check that the entity of an edit exists: the id comes from a lookup just before.
- GetOrCreate.Agreement: claims nothing of POST requests that fail for other reasons than a conflict; such a call ends without a record, which no other call sees.
- Table status updates and descriptions; validation of a record creation timestamp column's type.
- The cache shared between the `Table` proxy and the concrete classes: one concrete event table class is modelled. The bound of 1024 entries is an eviction that may happen at any moment.
- Deletion of records while creations race: `GetOrCreate` has no deletes, and the edits of other clients do not change names, so they are not steps of it.
- JobSummary.ComputeFeatureJobsSummary: gives the time since the last completion as a number, not in words.
- Rounding: durations and quotients of the job summary are whole numbers or exact fractions here and floating point in the source.
- JobSummary.SummaryConservesLogs: assumes one frequency for each aggregation id; the general multiplicity is GroupCountIsMultiple.
- Cleaning.ImputedAtMostOnceIff: takes the cast to a column's type, comparisons across types and the answer for a listed NULL as parameters, because each warehouse has its own.
- The query graph below a view node and SQL generation but for the row meaning of a cleaning recipe and of the left join.
- SCD and dimension views, which resolve their modes as event views do; change views.
- The type check of a value in a conditional assignment, the alignment of its mask, and the graphs of the features.
- The definitions the server generates for features, their pruned graphs and their check against the originals; versions of a feature beyond the default of its name.
- The duration parser, the table of column types an aggregation supports, and which columns of an item view are derived from its event table alone: all are parameters.
- Handlers whose status or message is computed from the request: a handler is its status here.
- Plots, HTML, documentation, command line, Docker, notebooks, logging, profiles.
