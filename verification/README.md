# Validibot verification models

Dafny models of the parts of Validibot that decide something with state, arithmetic or
interleaving, and proofs about them. `dafny verify dfyconfig.toml` checks everything.

| area | files |
|---|---|
| Offline release control of cloud validators | `SemVer`, `ProviderNames`, `Releases`, `RollbackChoice`, `ReleaseStatus`, `Activation`, `ActivationLimits`, `CleanupPlan`, `CleanupSafety`, `StatusMeaning` |
| Idempotency keys of the API | `Idempotency`, `IdempotencySafety`, `IdempotencyServer`, `IdempotencyAnswers`, `Serialization` |
| Submission content, retention and purge | `Retention`, `Submission`, `SubmissionRuns`, `RunFiles`, `RunSweep`, `Purge`, `PurgeSafety` |
| MCP references | `Utf8`, `Base64Url`, `JsonText`, `JsonRoundTrip`, `McpRefs` |
| Audit archive and model audit | `AuditArchive`, `ArchiveWrites`, `ArchiveSafety`, `ModelAudit` |
| Rate limiter, dashboard series | `RateLimit`, `TimeSeries` |
| Shared | `Wrappers`, `Strings`, `Orders` |

Code that loops or updates fields is a method or a class here, proved against a
specification function; the results are then lemmas about that function over all inputs,
all runs or all reachable states. The standards behind the models are section 11 of
Semantic Versioning 2.0.0, section 5 of RFC 4648 and section 7 of RFC 8259.

## Conventions

- `None` and raised errors are `Option` and `Result`. Clocks, random suffixes, hash functions
  and faults are parameters, so a lemma holds for each of their values.
- The idempotency protocol is a state machine with one step for each database operation. A
  request carries its own captured time, hash and copy of the record; `Server` runs the
  wrapper's code with arbitrary steps of other requests between its own operations.
- A purge is a transaction: its rows change only at the end, external deletes at once. An
  attempt says which deletes and which database writes raise.
- Python text is a sequence of code points, lone surrogates included.
- Archive files are their lines and their checksum; gzip and SHA-256 stay uninterpreted.

## Where the code is narrower than its documentation

- `_normalized_version` is called lossless. It merges `.` with `-` and folds case:
  `ProviderNames.NormalizedCollision` says exactly when two versions collide,
  `PrereleasesCollide` gives a family. `NamesCollideExactlyWhen` says exactly when two releases,
  of one backend or of two, share a name in production or staging; `NameDetermines` is the
  condition on the versions alone under which they cannot, `BackendsCollide` a family in which
  two backends do, and `TwoBackendsOneName` an instance.
- `_rollback_release` sorts prerelease strings as a Python tuple, so its choice is not always the
  SemVer-greatest. `RollbackChoice.GreatestExactlyWhen` gives the exact condition on the eligible
  releases of the greatest numbers: releases only, or prereleases only with one last in both
  orders. `ReleaseCandidateIsChosen` and `NinthCandidateIsChosen` are databases, with the active
  release routed, where it fails, and `OneZeroZeroExample` is one of them spelled out.
- Activation compares a missing `validator_id` as the text `None`:
  `Activation.ActivationIsSound` covers the identifier `None` only when some unretired row of the
  release carries it, and `ActivationLimits.NoneIdentifierPassesTheGate` is a database, with a
  well-formed record, on which the gate passes it without. When every unretired row of the
  release has an identifier all Validators are covered: `Activation.IdentifiedReleaseIsSound`.
  The exporter writes the text of a primary key for every row and Validator, so only a state
  file made by hand holds other rows.
- References do not return every string unchanged: a high surrogate followed by a low one comes
  back joined, and surrounding whitespace is stripped. `McpRefs.WorkflowRoundTrip` and
  `MemberRunRoundTrip` say exactly which strings survive.
- `_atomic_write` promises to refuse an existing path. Between its check and its link another
  writer can take the path and is then overwritten:
  `ArchiveWrites.RacedWritePreservesExactlyWhen`. `ArchiveSafety.RaceLosesRow` is a run of two
  writers after which a row is neither in the table nor in the archive.
- Audit entries read the instance in memory. With `update_fields` they agree with the row only
  under the condition of `ModelAudit.RestrictedSaveAgreesExactlyWhen`; `RestrictedSaveCanLie`
  is an instance where they do not. A deletion records the instance too:
  `DeletionRecordsRowExactlyWhen`, and `DeletionCanLie` is an instance.
- `generate_time_series` promises a value for every period of the range. It keeps the promise
  exactly when the range ends at a bucket's start or has rows in its last bucket:
  `TimeSeries.EveryPeriodExactlyWhen`; `HalfHourIsMissing` is a range where it does not.
- The development stage puts no version in resource names (`ProviderNames.DevNamesIgnoreVersion`),
  so disjointness is stated for prod and staging.

## Model

| member | source | states |
|---|---|---|
| SemVers.ParseOfPrint | ops/gcp/validator_release_control.py:73-92 | every well-formed version, printed with any build tag, parses back to itself |
| SemVers.PrintOfParse | ops/gcp/validator_release_control.py:73-92 | whatever parses is the print of a well-formed version, so parsing accepts nothing else |
| SemVers.LeadingZeroRefused | ops/gcp/validator_release_control.py:85-91 | a numeric identifier with a leading zero is refused anywhere in the prerelease, with or without build metadata |
| SemVers.CompareIsPrecedence | ops/gcp/validator_release_control.py:94-119 | on parsed versions compare is antisymmetric, zero only on equal versions, and negative exactly when section 11 precedence holds, defined independently |
| SemVers.CompareTransitive | ops/gcp/validator_release_control.py:94-119 | compare is transitive, strictly when either step is strict |
| SemVers.PrecedenceOfStrings | ops/gcp/validator_release_control.py:73-119 | on version strings: a total order whose zero is equality up to build metadata |
| SemVers.LeadingZerosBreakAntisymmetry | ops/gcp/validator_release_control.py:85-111 | without the leading-zero refusal antisymmetry would fail |
| ProviderNames.LoadInventory | ops/gcp/validator_release_control.py:146-195 | loading succeeds exactly on the right schema with well-formed released entries of pairwise distinct slugs and provider slugs, and returns them in order |
| ProviderNames.CollectReleased | ops/gcp/validator_release_control.py:158-192 | the uniqueness loop accepts exactly the admissible lists, whatever the per-entry check |
| ProviderNames.AdmissibleMeans | ops/gcp/validator_release_control.py:166-180 | an inventory is accepted exactly when every released entry passes and slugs and provider slugs are pairwise distinct |
| ProviderNames.WellFormedMeans | ops/gcp/validator_release_control.py:166-186 | what one entry must meet: the characters of both slugs, a version that parses, the suffix of the image name, and six names |
| ProviderNames.ReleasedInFileOrder | ops/gcp/validator_release_control.py:158-161 | the released entries are exactly those with the flag, in file order |
| ProviderNames.IntentsMembers | ops/gcp/validator_release_control.py:183-189 | each inventory entry has the four fields of its released entry |
| ProviderNames.NormalizedText | ops/gcp/validator_release_control.py:197-209 | the text a version is normalised to, part by part |
| ProviderNames.FoldMeans | ops/gcp/validator_release_control.py:202-206 | a folded tag has hyphens for dots and small letters for capitals, character by character |
| ProviderNames.NameText | ops/gcp/validator_release_control.py:212-229 | the text of a name for each kind and stage |
| ProviderNames.NameExactlyWhen | ops/gcp/validator_release_control.py:197-241 | a name is produced exactly when kind and stage are known, the version parses where one is used, the slug has name characters, the length computed from the inputs is at most 63, and a production version does not end in a hyphen or dot; its length is the computed one |
| ProviderNames.NamesCollideExactlyWhen | ops/gcp/validator_release_control.py:212-241 | in prod or staging two releases share a name exactly when the kind is one and slugs and normalised versions are the same, or one slug is the other followed by -v and the beginning of the other's version, whose rest after a further -v is its own |
| ProviderNames.NameDetermines | ops/gcp/validator_release_control.py:212-241 | a name determines slug, kind and normalised version unless the release with the shorter slug has, in its prerelease or build part, a word that starts with v and a digit |
| ProviderNames.NameInjective | ops/gcp/validator_release_control.py:197-241 | in prod or staging the name of a plain version determines slug, version and kind, whatever hyphens, digits and v the slug holds |
| ProviderNames.NormalizedCollision | ops/gcp/validator_release_control.py:197-209 | two versions are normalised alike exactly when cores and folded tags agree |
| ProviderNames.PrereleasesCollide | ops/gcp/validator_release_control.py:197-209 | dotted and dashed prereleases collide for all cores and identifiers |
| ProviderNames.BackendsCollide | ops/gcp/validator_release_control.py:212-241 | a release m.n.p-va.b.c of one backend and a.b.c of another with a longer slug get one result, and it is a name whenever the slug and the length allow one |
| ProviderNames.TwoBackendsOneName | ops/gcp/validator_release_control.py:212-241 | an instance: two backends with loadable slugs and versions share one production name |
| ProviderNames.DevNamesIgnoreVersion | ops/gcp/validator_release_control.py:224-225 | in the development stage all versions of a backend share their names |
| Releases.SelectPairRows | ops/gcp/validator_release_control.py:345-377 | the selection loop computes the specified row for each Validator and kind |
| Releases.SelectedCovers | ops/gcp/validator_release_control.py:345-377 | each identified row has a selected row of its Validator and kind, a routed one if there is one |
| Releases.SelectedAreLatest | ops/gcp/validator_release_control.py:345-377 | each selected row is of an identified Validator and one of the two kinds, routed where that is preferred and a row of the route is, and no row it competes with was verified later or at once under a later identifier |
| Releases.SelectedOncePerRoute | ops/gcp/validator_release_control.py:345-377 | no two selected rows are of one Validator and kind |
| Releases.ActiveReleaseMeans | ops/gcp/validator_release_control.py:380-390 | the active release is the one version of all routed rows; an error exactly when two routed rows disagree |
| Releases.CollectRolledBack | ops/gcp/validator_release_control.py:411-453 | the collected versions are exactly those a rollback row or a routing event names |
| Releases.ChooseRollback | ops/gcp/validator_release_control.py:456-490 | the candidate loop computes the specified choice, errors included |
| Releases.TopIsGreatest | ops/gcp/validator_release_control.py:479-490 | nothing outranks the chosen version under the key the code sorts by |
| Releases.TopIsFirst | ops/gcp/validator_release_control.py:479-490 | among versions that sort alike the first is chosen |
| RollbackChoice.ChoiceIsEligible | ops/gcp/validator_release_control.py:456-490 | none exactly when no release is eligible, an error exactly when a version that must be parsed does not parse, otherwise an eligible one |
| RollbackChoice.ChoiceIsSafe | ops/gcp/validator_release_control.py:328-342 | the choice is strictly below the active version, never rolled back from and without a retired or unidentified row; some row is accepted, and every Validator with an accepted row has an accepted Service and an accepted Job |
| RollbackChoice.GreatestExactlyWhen | ops/gcp/validator_release_control.py:479-490 | the choice is SemVer-greatest exactly when the eligible releases of the greatest numbers are releases only, or prereleases only with one last both as text and in precedence |
| RollbackChoice.GreatestWithoutPrereleases | ops/gcp/validator_release_control.py:479-490 | it is SemVer-greatest when no candidate has a prerelease |
| RollbackChoice.ReleaseIsShadowed | ops/gcp/validator_release_control.py:479-490 | whenever a release and a prerelease share the greatest numbers, a prerelease is chosen and is not the greatest |
| RollbackChoice.ReleaseCandidateIsChosen | ops/gcp/validator_release_control.py:456-490 | for every core: where the next major release is routed and so active, rc.1 is chosen over the release and is not the greatest |
| RollbackChoice.NinthCandidateIsChosen | ops/gcp/validator_release_control.py:456-490 | for every core: there, rc.9 is chosen over rc.10 and is not the greatest |
| RollbackChoice.OneZeroZeroExample | ops/gcp/validator_release_control.py:456-490 | with 2.0.0 routed, 1.0.0-rc.1 is chosen over 1.0.0 |
| RollbackChoice.KeyMisordersNumbers | ops/gcp/validator_release_control.py:479-490 | the key puts rc.9 above rc.10 |
| ReleaseStatus.CollectRecords | ops/gcp/validator_release_control.py:493-532 | the indexing loop computes the specified index or its first error |
| ReleaseStatus.IndexIsUnambiguous | ops/gcp/validator_release_control.py:493-532 | an index entry is the only record of its backend and version |
| ReleaseStatus.CollectHealth | ops/gcp/validator_release_control.py:644-734 | the health loop covers every version of the backend |
| ReleaseStatus.CalculateStatus | ops/gcp/validator_release_control.py:545-804 | the status loop computes the specified view, errors included |
| ReleaseStatus.StatusRowsAreViews | ops/gcp/validator_release_control.py:545-804 | each status row is the computed view of one inventory entry, which StatusMeaning.StatusMeans describes |
| StatusMeaning.StatusMeans | ops/gcp/validator_release_control.py:545-804 | each row of a computed status shows the version that takes traffic, the rollback target under it, and the health of every version with rows, each fact read off the rows, Validators and records |
| StatusMeaning.ChosenIsTarget | ops/gcp/validator_release_control.py:456-490 | the rollback version is exactly the target so described: restorable, older, never rolled back from, not sorted below another target, first among equals; none exactly when there is no target |
| StatusMeaning.StatusExists | ops/gcp/validator_release_control.py:545-804 | a status is computed exactly when the schema is known, the records are valid and of different releases, each backend has at most one version with traffic, and every version to compare parses |
| StatusMeaning.RecordErrorMeans | ops/gcp/validator_release_control.py:244-285 | a record is accepted exactly when it has the known fields and schema, the tag, commit, digests and repository of its release, a contract version and evidence |
| StatusMeaning.IntentForMeans | ops/gcp/validator_release_control.py:498 | of several entries of one slug the last one counts |
| StatusMeaning.RestorableMeans | ops/gcp/validator_release_control.py:314-342 | a release is restorable exactly when every row names a Validator, every Validator has a Service and a Job, some row is accepted, accepted Validators have accepted pairs, no row is retired, and the backend was not rolled back from it |
| StatusMeaning.WasLeftMeans | ops/gcp/validator_release_control.py:411-453 | a version was rolled back from exactly when a row says so or the last cause of an event about a row of it does |
| StatusMeaning.HealthShows | ops/gcp/validator_release_control.py:644-734 | every fact of a health block, in terms of the rows of the release, the listings and the record |
| StatusMeaning.SeenMeans | ops/gcp/validator_release_control.py:709-718 | a resource counts as present exactly when it was deleted or its name or its last segment is listed |
| StatusMeaning.DeletedInTermsOfRows | ops/gcp/validator_release_control.py:545-970 | on a computed status a release is deleted exactly when it takes no traffic, is not the rollback target, is complete and accepted, unused for the drain period, and its record, image and resources are there |
| StatusMeaning.RollbackTargetIsNeverDeleted | ops/gcp/validator_release_control.py:456-970 | the rollback target is never on the delete list |
| StatusMeaning.AcceptedInTermsOfRows | ops/gcp/validator_release_control.py:545-874 | where deployments have identifiers the gate accepts a release exactly when it is offered, no Validator lacks a pair, each route's most recent row has passed, and its record, image and resources are there |
| Activation.ValidateActivation | ops/gcp/validator_release_control.py:807-874 | the gate passes exactly when the schema is known and every requested release is acceptable, and lists them in order |
| Activation.ActivationIsSound | ops/gcp/validator_release_control.py:545-874 | an accepted release, judged on a computed status, has for every covered Validator a Service and a Job row that is proven and that no rival row is more recent than, a unique retained record, and that record's digests on its rows |
| Activation.IdentifiedReleaseIsSound | ops/gcp/validator_release_control.py:545-874 | when every unretired row of an accepted release has an identifier, every identified Validator of the backend has such a Service and Job row |
| ActivationLimits.NoneIdentifierPassesTheGate | ops/gcp/validator_release_control.py:545-874 | on the status computed from a well-formed record, the gate passes a release although no row of the Validator named None is accepted |
| CleanupPlan.GroupRows | ops/gcp/validator_release_control.py:888-900 | grouping puts every row under its backend and version |
| CleanupPlan.CalculateCleanupPlan | ops/gcp/validator_release_control.py:877-970 | the planning loop computes the specified plan and refuses short drains |
| CleanupPlan.PlanPartitions | ops/gcp/validator_release_control.py:877-970 | each present release is deleted or retained, exactly one of them, by whether it has a reason |
| CleanupPlan.ListsAreInOrder | ops/gcp/validator_release_control.py:899-900 | both lists are in the order of backend and version |
| CleanupPlan.DeletedExactlyWhen | ops/gcp/validator_release_control.py:877-948 | a release is deleted exactly when it is neither active nor the rollback target, complete and accepted, idle in every row past the drain period, with a matching retained record, its image and its resources |
| CleanupPlan.ReasonsMean | ops/gcp/validator_release_control.py:901-948 | a retained release is given exactly the reasons of its rows, its health and the drain period, and whether it is active or the rollback target |
| CleanupPlan.RowReasonsMean | ops/gcp/validator_release_control.py:906-921 | each reason of the rows is given exactly when it holds |
| CleanupPlan.HealthReasonsMean | ops/gcp/validator_release_control.py:922-932 | each reason of the health is given exactly when it holds |
| CleanupPlan.DrainReasonMeans | ops/gcp/validator_release_control.py:933-943 | a release drains until the latest deactivation plus the drain period, and was never inactive exactly when a row has none |
| CleanupPlan.ItemListsResources | ops/gcp/validator_release_control.py:944-957 | an item lists each resource that its rows name once, in order |
| CleanupSafety.RoutedIsNeverDeleted | ops/gcp/validator_release_control.py:877-970 | a release with a routed row is never deleted |
| CleanupSafety.ResourcesDisjoint | ops/gcp/validator_release_control.py:212-241 | rows of different releases never share a constructed resource |
| CleanupSafety.DeletedResourcesAreUnused | ops/gcp/validator_release_control.py:877-970 | no resource to delete belongs to a retained release |
| CleanupSafety.InventorySlugsInjective | ops/gcp/validator_release_control.py:146-195 | an inventory that loads gives backends distinct provider slugs |
| CleanupSafety.CleanupKeepsReleases | ops/gcp/validator_release_control.py:380-490 | carrying the plan out leaves every backend's active and rollback version as they were |
| CleanupSafety.SecondPlanDeletesNothing | ops/gcp/validator_release_control.py:877-970 | a second plan at the same moment deletes nothing |
| CleanupSafety.RetainedReasonsUnchanged | ops/gcp/validator_release_control.py:877-970 | retained releases keep exactly their reasons |
| Serialization.SerializeIsPlain | validibot/core/idempotency.py:294-316 | the walk yields plain JSON data, leaves plain data alone, and doing it twice is doing it once |
| Serialization.SerializeRenders | validibot/core/idempotency.py:294-316 | the walk gives exactly the rendering of its data: text for UUIDs, lazy strings and dates, the same structure around them |
| Serialization.StoredIsPlain | validibot/core/idempotency.py:325-336 | every stored body is plain JSON beside the status of the response: the rendering of data that can be walked, otherwise the rendered content, otherwise the error marker |
| IdempotencyServer.Server.ProcessKey | validibot/core/idempotency.py:214-291 | the lookup, purge, create and refetch code, with any other requests between its operations, is a run of the protocol, with the request's own scope, hash and clock, and returns its verdict |
| IdempotencyServer.Server.Handle | validibot/core/idempotency.py:85-183 | so is the whole wrapper; it ends the request, and its reply is the one the protocol prescribes |
| IdempotencyServer.Server.SaveCompleted | validibot/core/idempotency.py:319-341 | completion is the protocol's complete step, a save that may recreate or collide included |
| IdempotencyServer.Server.TryCreate | validibot/core/idempotency.py:258-272 | creation is atomic: a new record or none |
| IdempotencyServer.Server.DeleteExpired | validibot/core/idempotency.py:250-256 | only records expired at the captured time go |
| IdempotencySafety.StepKeepsInv | validibot/core/idempotency.py:85-291 | every step of every request keeps the ownership invariant |
| IdempotencySafety.RunIsGood | validibot/core/idempotency.py:85-291 | all invariants hold in every reachable state |
| IdempotencySafety.AtMostOneExecution | validibot/core/idempotency.py:85-183 | if no handler of the scope failed and no record expired, at most one request executes, under a record; all others wait or end in replay, conflict or hash mismatch |
| IdempotencySafety.StartIsRecorded | validibot/core/idempotency.py:286-291 | processing without idempotency is unreachable under the same conditions |
| IdempotencySafety.ExecutionsAreSpaced | validibot/core/models.py:306-311 | an execution after one that ran under a record and has not failed starts no earlier than the time to live after that request captured its clock |
| IdempotencySafety.LaterStartsAreLate | validibot/core/models.py:306-311 | when no handler of the scope failed, its first execution ran under a record and every later one starts no earlier than the time to live after the first captured its clock |
| IdempotencySafety.ProcessingRecordsAreOwned | validibot/core/idempotency.py:258-271 | each processing record is owned by exactly one request |
| IdempotencySafety.ReplaysAreFaithful | validibot/core/idempotency.py:124-132 | a replay is the serialised response of the one request that executed under the record, and the hashes agree |
| IdempotencySafety.RecordsKeepTheirHash | validibot/core/idempotency.py:231-341 | in any two states of a run a record of one id has the same scope, hash and expiry, even when it was deleted and saved again |
| IdempotencyAnswers.FoundRecordDecides | validibot/core/idempotency.py:231-248 | an unexpired record that the lookup or the refetch finds is replayed exactly when completed with the same hash, a conflict exactly when processing with it, a mismatch exactly when the hashes differ; without one the lookup goes on to the purge and the refetch runs the handler unrecorded |
| IdempotencyAnswers.RepetitionsAreAnswered | validibot/core/idempotency.py:124-161 | over every interleaving, a repetition of a recorded request within its time to live, as long as that has not failed, is turned away by its lookup: a mismatch when the hashes differ, otherwise a replay of the serialised response once the request has finished, and a conflict only before |
| IdempotencyAnswers.RefusalsHaveACause | validibot/core/idempotency.py:134-161 | a conflict is answered only when another request with the key and the same hash executes or executed, a mismatch only when one with another hash did |
| IdempotencyAnswers.LoneRequestExecutes | validibot/core/idempotency.py:163-183 | a request that is the only one with its key executes, under a record |
| IdempotencyAnswers.FreeKeyIsProcessed | validibot/core/idempotency.py:250-272 | without an unexpired record an undisturbed request executes under a processing record with its hash that expires a day later, an expired one giving way to it |
| IdempotencyAnswers.PurgeRemovesTheExpired | validibot/core/idempotency.py:250-256 | the purge removes exactly an expired record of its own scope |
| IdempotencyAnswers.CreationNeedsAFreeScope | validibot/core/idempotency.py:258-274 | creation makes the record exactly when the scope is free |
| IdempotencyAnswers.FailureFreesTheKey | validibot/core/idempotency.py:163-174 | once a failed handler's record was deleted the next request with the key executes |
| IdempotencyAnswers.FailedDeleteKeepsTheTable | validibot/core/idempotency.py:169-174 | a delete that raises or has nothing to delete leaves the table |
| IdempotencyAnswers.CompletionStoresTheResponse | validibot/core/idempotency.py:175-183 | within its time to live an answered request stores its serialised response under its own record, until the same expiry |
| IdempotencyAnswers.UnrecordedCompletionStoresNothing | validibot/core/idempotency.py:159-161 | a request that ran without a record answers and stores nothing |
| Retention.RetryIsNeverAbandoned | validibot/submissions/models.py:1132-1271 | after any failures and requests the next retry is due within a day of the last event, at once after a request, and attempts count the failures |
| Retention.DelaysGrowToADay | validibot/submissions/models.py:1146-1219 | delays are positive, never shrink, stay in range for every attempt count, and reach the cap exactly at the fifth |
| Retention.PolicyPeriods | validibot/submissions/constants.py:80-99 | the period of each policy in seconds, none for permanent storage, zero for any other name |
| Retention.NextRetryIsExact | validibot/submissions/models.py:1132-1271 | over all events the next retry is the last failure plus one minute, five minutes, an hour, six hours or a day by its number, pulled forward to the earliest request since |
| Retention.FailuresAreCounted | validibot/submissions/models.py:1198-1203 | the attempts that the schedule counts are the failures among the events |
| Retention.PurgeRetry.RecordFailure | validibot/submissions/models.py:1198-1219 | one failure counts up, schedules the next retry by that count, and keeps the first 2000 characters of the error |
| Retention.QueuePurge | validibot/submissions/models.py:1222-1271 | queueing acts exactly on unpurged do-not-store content without an active run: it creates a retry due now, or pulls an existing one forward |
| Retention.SinceIsBlockStart | validibot/submissions/models.py:536-551 | the deadline's origin is the first of the unbroken saves under the current policy |
| Submissions.Submission.SetContent | validibot/submissions/models.py:294-392 | exactly one input, each error exactly when it applies; inline within the threshold and spilled above it; size and digest; the file before is dropped unless its delete fails, others are untouched; errors change nothing |
| Submissions.Submission.SyncRetentionExpiry | validibot/submissions/models.py:514-551 | the expiry update is the specified one |
| Submissions.Submission.Save | validibot/submissions/models.py:580-612 | a full save stores the prepared row exactly when the constraints accept it |
| Submissions.Submission.GetContent | validibot/submissions/models.py:394-421 | content as presented, empty when purged or unreadable |
| Submissions.Submission.ReadBytes | validibot/submissions/models.py:423-448 | exact bytes, nothing when purged or without content, or an error exactly when they exceed the ceiling or cannot be read |
| Submissions.StorageIsUnobservable | validibot/submissions/models.py:394-448 | inline and spilled text read back alike, as text and as bytes, bounded or not |
| Submissions.SetThenRead | validibot/submissions/models.py:294-448 | text set, read, saved, reloaded and read again is the submitted text for every threshold, with its size and digest |
| Submissions.UploadThenRead | validibot/submissions/models.py:367-448 | an upload saved without a read fault has its bytes, size and digest |
| SubmissionRuns.ConstraintsAlwaysHold | validibot/submissions/models.py:138-164 | the three constraints hold of the stored row in every run and, once content has been set, of the instance, so each later save is accepted |
| SubmissionRuns.SaveIsAStep | validibot/submissions/models.py:580-612 | what the save method prepares and stores is a step of these runs |
| SubmissionRuns.ExpiryFollowsThePolicy | validibot/submissions/models.py:514-551 | the row expires exactly when unpurged under a timed policy, one period after that policy was first stored without a change since |
| SubmissionRuns.UnknownPolicyFailsClosed | validibot/submissions/constants.py:80-99 | an unknown policy is stored as do-not-store, without an expiry |
| SubmissionRuns.DeadlineNeverMoves | validibot/submissions/models.py:536-551 | without a policy change or a purge no sequence of saves moves the deadline |
| RunFiles.KeptMeaning | validibot/submissions/models.py:1017-1031 | the string prefixes keep exactly the output envelope and the output directories of the run and of its attempts |
| RunSweep.RunStore.DeleteRunInputs | validibot/submissions/models.py:1052-1078 | the sweep loop computes the specified tree, count and failure |
| RunSweep.SortedByDepth | validibot/submissions/models.py:1056-1060 | the listing is a permutation with the deepest paths first |
| RunSweep.EmptyAtItsTurn | validibot/submissions/models.py:1056-1074 | when a directory's turn comes it is empty exactly when no kept file lies below it |
| RunSweep.DeleteIsExact | validibot/submissions/models.py:1052-1078 | a finished sweep leaves exactly the kept files and the directories above them and counts the removed files; it fails exactly when a file that must go cannot be unlinked |
| RunSweep.DeleteKeeps | validibot/submissions/models.py:1052-1085 | failed or not, a sweep spares kept files, adds nothing and leaves a tree |
| RunSweep.DeleteTwice | validibot/submissions/models.py:1052-1078 | sweeping again removes nothing |
| Purge.PurgeableSubmission.PurgeContent | validibot/submissions/models.py:643-733 | the purge code computes the specified state and outcome for every pattern of faults |
| PurgeSafety.OneAttempt | validibot/submissions/models.py:643-733 | the outcome of an attempt exactly, when it raises included; it commits everything or no row; only owned files go, and none before every run directory is clean |
| PurgeSafety.PurgeIsAStep | validibot/submissions/models.py:643-733 | what an attempt does to the row is the purge step of the submission's runs |
| PurgeSafety.PurgeNeverLies | validibot/submissions/models.py:643-733 | over any attempts a committed purge means that original, port files and copied inputs are gone and no run was active, otherwise the rows are unchanged; stored inputs only shrink, outputs stay |
| PurgeSafety.FaultlessAttemptPurges | validibot/submissions/models.py:643-669 | however many attempts failed, one without faults purges, and purging again is a no-op |
| PurgeSafety.PurgePortsExact | validibot/submissions/models.py:842-873 | port files are deleted one by one; a finished loop leaves none |
| PurgeSafety.SameRemains | validibot/submissions/models.py:1056-1078 | what a finished sweep leaves does not depend on the attempts that failed before |
| Utf8.DecodeOfEncode | validibot/mcp_api/refs.py:98-108 | decoding encoded text returns it |
| Utf8.EncodeOfDecode | validibot/mcp_api/refs.py:108 | whatever decodes is the one encoding of its text |
| Utf8.EncodingLayout | validibot/mcp_api/refs.py:98-108 | the number of bytes of a code point, their ranges, and the bits they hold |
| Utf8.ReplacementIsMaximal | validibot/submissions/models.py:394-421 | lenient decoding replaces one malformed byte or the longest beginning of an encoding at a time |
| Base64Url.DecodeOfStripped | validibot/mcp_api/refs.py:99-107 | stripping the padding and adding it back from the length loses no byte |
| Base64Url.AlphabetIsUrlSafe | validibot/mcp_api/refs.py:99-107 | the digits are those of section 5 of RFC 4648 |
| Base64Url.ThreeBytesKeepTheirBits | validibot/mcp_api/refs.py:99-107 | three bytes and their four characters are one number |
| Base64Url.LastBytesKeepTheirBits | validibot/mcp_api/refs.py:99-107 | one or two last bytes are filled up with zero bits and padding |
| JsonRoundTrip.ScanOfEscape | validibot/mcp_api/refs.py:98-108 | a written string is read back with adjacent surrogates joined |
| JsonRoundTrip.EscapeDetermines | validibot/mcp_api/refs.py:98 | two strings are written alike exactly when they are read alike |
| JsonRoundTrip.DumpsRoundTrip | validibot/mcp_api/refs.py:98-108 | every object of strings is read back member by member |
| JsonText.EscapesLook | validibot/mcp_api/refs.py:98 | how each character of a string is written |
| JsonText.UnicodeEscapesLook | validibot/mcp_api/refs.py:98 | the four digits of an escape are its code unit in lower-case hexadecimal |
| McpRefs.PayloadRoundTrip | validibot/mcp_api/refs.py:95-115 | so through JSON, UTF-8 and base64url together |
| McpRefs.ReferenceText | validibot/mcp_api/refs.py:31-72 | the text of both kinds of reference |
| McpRefs.WorkflowRoundTrip | validibot/mcp_api/refs.py:31-60 | for all strings: what a built workflow reference parses to, and exactly which strings come back unchanged |
| McpRefs.MemberRunRoundTrip | validibot/mcp_api/refs.py:63-92 | the same for run references |
| McpRefs.WorkflowRefsAgree | validibot/mcp_api/refs.py:31-44 | two workflow references are equal exactly when their parts read alike |
| McpRefs.RunRefsAgree | validibot/mcp_api/refs.py:63-72 | the same for run references |
| McpRefs.BuildersInjective | validibot/mcp_api/refs.py:31-72 | on text without adjacent surrogate pairs both builders are injective |
| McpRefs.KindsNeverMix | validibot/mcp_api/refs.py:47-92 | a reference of one kind is refused by the other parser, even with its prefix swapped |
| AuditArchive.GroupEntries | validibot/audit/archive.py:227-239 | the grouping loop computes the keys in order and each key's entries |
| AuditArchive.LineCarriesEntry | validibot/audit/archive.py:384-421 | a line has every value of its entry, and of an erased actor only its key and erasure; no other line does |
| AuditArchive.LinesRestoreEntries | validibot/audit/archive.py:384-421 | an entry is rebuilt from its line, up to what erasure removes |
| AuditArchive.LinesAreInjective | validibot/audit/archive.py:384-421 | entries of one time and unerased actors are written alike only when they are one |
| AuditArchive.DataPathNames | validibot/audit/archive.py:251-258 | a path names organisation, year, month and day |
| AuditArchive.PathsDistinct | validibot/audit/archive.py:254-261 | the data and checksum paths of one call are pairwise distinct |
| ArchiveWrites.AuditStore.AtomicWrite | validibot/audit/archive.py:305-357 | a write succeeds exactly on a free path without a fault and changes nothing else |
| ArchiveWrites.AuditStore.ArchiveEntries | validibot/audit/archive.py:224-275 | the writing loop computes the specified files and receipt |
| ArchiveWrites.AuditStore.EnforceChunk | validibot/audit/management/commands/enforce_audit_retention.py:171-188 | a chunk deletes exactly the rows its receipt names |
| ArchiveWrites.RacedWritePreservesExactlyWhen | validibot/audit/archive.py:324-357 | with another writer, existing files are spared exactly when the path was refused, is still free, or holds the same content |
| ArchiveWrites.UnracedWriteIsWrite | validibot/audit/archive.py:324-357 | without another writer the raced write is the plain one |
| ArchiveSafety.RaceLosesRow | validibot/audit/archive.py:324-357 | a run of two writers sharing a suffix after which a row is in neither the table nor any archive file |
| ArchiveSafety.GroupIsInInputOrder | validibot/audit/archive.py:227-239 | a partition is its key's entries, all of them, in input order |
| ArchiveSafety.IdsArePermutation | validibot/audit/archive.py:252-271 | the archived ids are a permutation of the input keys |
| ArchiveSafety.WritesAreExact | validibot/audit/archive.py:254-268 | files already present never change; a finished call has written both files of every partition and only those |
| ArchiveSafety.ReceiptIsExact | validibot/audit/archive.py:27-42 | a receipt names a permutation of the input, and each location holds its partition beside its checksum |
| ArchiveSafety.LocationsAreFiled | validibot/audit/archive.py:252-275 | at each location of a receipt, under a path of its organisation and day, there is one line for each entry of the partition in order, beside a file with its digest and name |
| ArchiveSafety.FinishesExactlyWhen | validibot/audit/archive.py:224-275 | a call gives a receipt exactly when its paths are free and no write meets a fault |
| ArchiveSafety.NothingIsLost | validibot/audit/archive.py:27-42 | over all rounds and failures each row that was ever in the table is in the table, or a line of an archive file carries its values |
| ArchiveSafety.ArchiveOnlyGrows | validibot/audit/archive.py:305-357 | with one writer archive files never change or vanish |
| ArchiveSafety.RoundDeletesTheChunk | validibot/audit/management/commands/enforce_audit_retention.py:171-188 | a finished round deletes exactly the rows of its chunk, any other none |
| ModelAudit.SnapshotFields | validibot/audit/model_audit.py:152-170 | the snapshot is the row's whitelisted fields |
| ModelAudit.DiffSnapshots | validibot/audit/model_audit.py:173-189 | the diff holds exactly the differing fields with both values |
| ModelAudit.SanitiseChanges | validibot/audit/services.py:167-193 | whitelisted changes are kept, all others redacted, everything is kept without a target type, and an empty diff becomes null |
| ModelAudit.StoredChangesMean | validibot/audit/services.py:167-193 | for all changes: nothing is stored exactly when there are none; otherwise the same fields, redacted exactly where a target's whitelist lacks them, unchanged elsewhere |
| ModelAudit.HiddenValuesDoNotShow | validibot/audit/services.py:186-193 | changes that differ only in values outside the whitelist are stored alike |
| ModelAudit.AuditedInstance.Save | validibot/audit/model_audit.py:221-310 | a save with its receivers updates row, log and snapshot slot as specified |
| ModelAudit.AuditedInstance.Delete | validibot/audit/model_audit.py:313-341 | a deletion logs the instance's final snapshot |
| ModelAudit.UpdateLogsDirtyFields | validibot/audit/model_audit.py:221-310 | an update adds one entry with exactly the dirty whitelisted fields and both their values, or none when there is none or updates are not recorded |
| ModelAudit.SaveWrites | validibot/audit/model_audit.py:221-310 | what each kind of save does to the row, and the entry of a creation |
| ModelAudit.DeletionLogsWhitelistedFields | validibot/audit/model_audit.py:313-341 | a deletion logs exactly the whitelisted fields with their last values |
| ModelAudit.SanitisingADiffIsIdentity | validibot/audit/services.py:167-193 | sanitising a diff of snapshots changes nothing |
| ModelAudit.DiffReplays | validibot/audit/model_audit.py:173-189 | a diff turns the first snapshot into the second and is empty exactly when they are equal |
| ModelAudit.LogAgreesWithRow | validibot/audit/model_audit.py:221-310 | over any full saves, failed ones and stale slots included, replaying the log gives the row's current snapshot |
| ModelAudit.EntryExactlyOnChange | validibot/audit/model_audit.py:280-310 | a save adds one entry exactly when the whitelisted snapshot changed |
| ModelAudit.RestrictedSaveAgreesExactlyWhen | validibot/audit/model_audit.py:280-310 | a save of named fields keeps the agreement exactly when they include every dirty whitelisted field |
| ModelAudit.RestrictedSaveCanLie | validibot/audit/model_audit.py:280-310 | an entry for a value that never reached the row |
| ModelAudit.DeletionRecordsRowExactlyWhen | validibot/audit/model_audit.py:313-341 | the deletion entry is the row's exactly when the instance was not dirty in a whitelisted field |
| ModelAudit.DeletionCanLie | validibot/audit/model_audit.py:313-341 | a deletion entry with a value that the row never had |
| RateLimit.ParseRateMeans | validibot/core/ratelimit.py:58-72 | whichever characters are digits, accepted rates are exactly digits, slash, unit, with an optional final newline, and mean what they say |
| RateLimit.ParseOfPrintedRate | validibot/core/ratelimit.py:61-72 | a printed rate parses back |
| RateLimit.Cache.Admit | validibot/core/ratelimit.py:117-151 | the wrapper counts as specified, an expiry between lookup and increment included, and leaves other keys alone |
| RateLimit.RunIsSpaced | validibot/core/ratelimit.py:117-132 | windows start at least one length apart and every counted request lies in its window |
| RateLimit.WindowIsBounded | validibot/core/ratelimit.py:117-134 | each window admits at most the limit, and the counter says how many |
| RateLimit.IntervalIsBounded | validibot/core/ratelimit.py:117-151 | every closed interval of one window's length admits at most twice the limit |
| RateLimit.BoundIsTight | validibot/core/ratelimit.py:117-151 | for every limit and length some run meets that bound |
| RateLimit.KeysAreIndependent | validibot/core/ratelimit.py:114-132 | a key's counter depends on its own requests only |
| TimeSeries.FillGaps | validibot/dashboard/services.py:63-72 | the fill loop ends and yields the aligned starts, each with zero |
| TimeSeries.GenerateTimeSeries | validibot/dashboard/services.py:32-83 | the series lists each bucket with the number of its rows in the range |
| TimeSeries.AlignIsWallClock | validibot/dashboard/services.py:25-45 | a bucket starts on the hour or at midnight of the local clock and holds the time it is for |
| TimeSeries.CountMeans | validibot/dashboard/services.py:54-61 | a bucket's value is the number of rows of the range that fall in it |
| TimeSeries.TotalMeans | validibot/dashboard/services.py:54-61 | the total is the number of rows of the range |
| TimeSeries.SeriesConservesCounts | validibot/dashboard/services.py:54-83 | the values sum to the rows of the range |
| TimeSeries.KeysAreSpaced | validibot/dashboard/services.py:25-72 | keys are aligned and one step apart from the aligned start |
| TimeSeries.EndBucketExactlyWhen | validibot/dashboard/services.py:74-81 | the bucket of the end appears exactly when the range has rows in it |
| TimeSeries.EveryPeriodExactlyWhen | validibot/dashboard/services.py:52-81 | every period of the range has a value exactly when the range ends at a bucket's start or has rows in its last bucket |
| TimeSeries.HalfHourIsMissing | validibot/dashboard/services.py:52-81 | a half hour without rows yields no value at all |
| TimeSeries.TwoSeriesAgree | validibot/dashboard/services.py:74-81 | two series over one range differ at most in that last bucket |

## Left out

- ReleaseStatus.CalculateStatus: leaves out the recommended action, the blockers, the routing mode and the lists of missing Validators, resources and images, which nothing else decides on.
- Release control: JSON and ISO time parsing, digest extraction, plan identifiers, messages and the command line.
- Idempotency: the wrapper's earlier exits (no header, a key over the length limit, no organisation), the request hash and endpoint helpers, the stored run, address and user agent.
- Idempotency: recursion limits and object encodings outside JSON data, UUIDs, lazy strings and dates.
- Submissions.Submission.SetContent: leaves out file names, file type detection and storage that fails while saving a file.
- Submissions: the clean methods and viewable content.
- Submissions: two callers creating the retry record of one submission at the same time.
- Submissions: instances that stay in use after another instance changed the row; a caller reloads after a failed purge.
- Submissions: the cloud storage branch of the deletes, the deletion of all files of a run, and redaction of run records beyond whether it raises.
- RunSweep.DeleteIsExact: symbolic links are taken to be absent and rmdir to fail only on directories that are not empty.
- References: limits of the JSON reader on nesting and on digits of integers, and str() of values that are not strings, which is a parameter.
- Archive: gzip, fsync, temporary files, the null and cloud backends, orphaned actors, dry runs, the row limit.
- ArchiveSafety.NothingIsLost: one writer at a time, and entries whose actor is not erased between reading and archiving.
- Model audit: organisation resolution, actors, request ids and log markers; values are stored as they are in memory and saves of one row do not interleave.
- RateLimit.IntervalIsBounded: calls for one key do not overlap; concurrent first requests are not part of this model.
- RateLimit: client addresses, and the limit of int on the number of digits.
- TimeSeries.GenerateTimeSeries: counts rows, not distinct values; the local zone has a fixed offset, as the project's UTC setting gives; the database's grouping is a premise.
- Chart payloads, invites, redaction patterns, licences and the other registries are not part of this model.
