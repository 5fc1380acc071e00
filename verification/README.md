# Verified models of the software distribution platform hub

This project models the logic at the core of the hub and proves what that logic promises.
Each module follows one part of the program:

| files | part of the hub |
|---|---|
| `Calendar`, `CronSchedule`, `CronFields`, `CronExpr`, `CronGrammar`, `CronMeaning` | the cron engine: parsing to bitsets, the skipping search for the next firing, and what both mean by clock and calendar |
| `ConfigVersions`, `ConfigHistory`, `ConfigEffects`, `ConfigStores`, `ConfigDiffs` | versioned component configuration: capture, rollback, save, delete, compare |
| `Listings`, `SnapshotDiffs`, `SnapshotChanges` | the laws of comparing keyed lists, and the comparison of pipeline versions, stage by stage and task by task |
| `RateLimit` | the per-client token bucket and its sweeper |
| `Cascade`, `ArtifactGC`, `Reconcile`, `ArtifactLifecycle` | subtree deletion, collection of expired artifacts, reconciliation, and all of them interleaved |
| `Dependencies` | the component dependency graph and its cycle check |
| `ClusterRoles`, `ClusterGrants`, `GrantEffects`, `GrantRuns` | cluster permissions: create, revoke and delete against a cluster that may fail at every call |
| `StorageKeys`, `ObjectListing`, `SignedLinks` | object keys and lexical path cleaning, the listing of the local store, signed links |
| `Registry`, `Variables`, `Passwords` | the gateway's connection registry, the layered merge of variables, temporary passwords |
| `Text`, `Ordering` | strings, numbers and sorting as Go's library does them |

Tables are maps or sequences of rows, a transaction is all or nothing, and every database, store or
cluster call is a parameter saying how the call turns out: done, failed without effect, or, where the
model distinguishes it, failed after having taken effect. Times are whole minutes for cron, reals
for the limiter and integers elsewhere. Clocks, random numbers and identifiers are parameters.

Code that changes state is modelled by classes and methods with loops, each proved against a
specification function. What such a function does is then stated without its help, on the rows, objects
and dates themselves (`CronMeaning`, `ConfigEffects`, `SnapshotChanges`, `GrantEffects` and the lemmas
named `…IsExact`, `…Iff` and the like elsewhere), and what follows over all inputs and all runs is proved
by further lemmas.

## What the proofs found

These are places where the code does not do what its comments or a reader would expect. Each is
stated as a lemma, with the exact condition under which the code is right.

- A cron step near the largest 64-bit integer makes the parser index out of range
  (`CronExpr.ParseCrashesIff`, `CronGrammar.StepCrashesIff`).
- The comment beside the scan bound takes 29 February to recur within four years. The longest gap is
  2921 days, across a century without a leap year; the bound of 8 * 366 days covers it
  (`CronSchedule.LeapGapAttained`, `CronSchedule.ScanBoundSuffices`).
- Saving an existing row under another scope leaves the versions of the scope it left out of date
  (`ConfigHistory.MovingOutLeavesStale`).
- A rollback leaves no secret of its scope with its value: the ones that have a row get the mask for a
  value (`ConfigHistory.RollbackErasesSecrets`). So even a rollback to the current version changes
  rows, exactly the secrets whose value is not the mask (`ConfigHistory.RollbackToCurrentChangesIff`).
- Comparing configuration versions does not compare the secret flag. A changed flag shows all the same
  through the masked value, unless a plain value reads like the mask: only then can different versions
  be reported identical (`ConfigDiffs.IdenticalIffEqual`, `ConfigDiffs.FlagGoesUnreported`).
- Comparing pipeline versions does not report a changed name, kind, description or parameters
  (`SnapshotDiffs.RenameLooksIdentical`).
- The comment on sorting a comparison speaks of the order in which stages appear; stages and tasks are
  sorted by name (`SnapshotDiffs.DiffSnapshots`).
- A collector pass without a configured store turns keys into orphans
  (`ArtifactGC.UnconfiguredPassOrphans`); one with a store can take the object from under a row that
  shares its key (`ArtifactGC.PassMissing`).
- Rows whose objects cannot be removed stay at the head of every batch. Fewer of them than the limit slow
  the collector down (`ArtifactGC.PassesDrainOthers`); as many as the limit stop it (`ArtifactGC.BlockedForEver`).
- The reconciler reports stored objects missing when the listing was cut, when it was narrowed to a prefix,
  and when a key ends in `.part`, which the local listing takes for an unfinished upload
  (`Reconcile.CutListingAccuses`, `Reconcile.NarrowedListingAccuses`, `Reconcile.PartNameIsAccused`); exactly
  when the report can be relied on is `Reconcile.MissingExactIff`. With a cut listing the orphan report can
  grow by collecting (`Reconcile.CutReportCanGrow`).
- The handler of signed links decodes the key a second time, so the link for a key with a percent escape in it
  is refused (`SignedLinks.LinkOpensIff`, `SignedLinks.EscapedKeyIsRefused`).
- A creation of a cluster permission whose role is reported as failed undoes nothing, so the role
  stays if the call had its effect (`GrantRuns.CreateRestoresIff`). It gives nobody anything:
  a failed creation works only when both deletions are lost (`GrantRuns.FailedCreateIsEffectiveIff`).
- Rotation only looks for cluster-wide bindings, so revoking a user's namespaced permission never
  succeeds (`GrantRuns.UserRevokeSucceedsIff`).
- Deleting a permission does not report lost cluster calls; one that loses both leaves a working
  permission without a row, for ever (`GrantRuns.DeletedStaysEffectiveIff`, `GrantRuns.OrphanIsPermanent`).
- A store rooted at the root of the file system resolves no key (`StorageKeys.ResolveExactly`).
- The alphabet of temporary passwords is used in full, but every password contains the same digit,
  lower-case and upper-case letter (`Passwords.PasswordPossibleIff`).

Smaller facts that follow from the definitions are not in the table: `Cascade.CascadeTouchesNothingElse`
(rows outside the subtree and earlier stamps are unchanged), `Reconcile.OrphansAreReal`
and `Registry.HubServer.LookUp`.

## Model

| member | source | states |
|---|---|---|
| `CronSchedule.MonthJumpSkipsNothing` | internal/pipeline/cronexpr/cron.go:138-142 | from a month that is not admitted, no minute before the first of the next month is a match |
| `CronSchedule.DayJumpSkipsNothing` | internal/pipeline/cronexpr/cron.go:143-146 | from a day the day rule refuses, no minute before the next midnight is a match |
| `CronSchedule.HourJumpSkipsNothing` | internal/pipeline/cronexpr/cron.go:147-150 | from an hour that is not admitted, no minute before the next full hour is a match |
| `CronSchedule.LeapDayWithin` | internal/pipeline/cronexpr/cron.go:39-42 | after any day a 29 February follows within 2921 days, across every century |
| `CronSchedule.LeapGapAttained` | internal/pipeline/cronexpr/cron.go:39-42 | the gap of 2921 days occurs: no 29 February lies between those of 1896 and 1904 |
| `CronSchedule.MatchingDayWithin` | internal/pipeline/cronexpr/cron.go:39-42 | when some date fits the month and day rules, one comes within 2921 days of any day |
| `CronSchedule.ScanBoundSuffices` | internal/pipeline/cronexpr/cron.go:39-42 | from any minute, a parsed schedule that some date fits fires within the scan bound of 8 * 366 days |
| `CronSchedule.WindowEmptyIffDateless` | internal/pipeline/cronexpr/cron.go:134-158 | the scanned window holds no match if and only if no calendar date ever fits the schedule |
| `Calendar.DateOfDayNumber` | internal/pipeline/cronexpr/cron.go:134-158 | the calendar the search steps through: counting days to a date and finding the date of a day undo each other |
| `Calendar.DaysBeforeYearFormula` | internal/pipeline/cronexpr/cron.go:134-158 | adding up the years' lengths is the closed formula of the Gregorian calendar, in both directions from year 1 |
| `Calendar.SameMonthUntilNext` | internal/pipeline/cronexpr/cron.go:138-142 | every day up to the first of the next month lies in the month of the starting day |
| `CronFields.FieldAcceptedIff` | internal/pipeline/cronexpr/cron.go:86-130 | a field is accepted exactly when each of its items is, and starred exactly when it is `*` |
| `CronFields.PartsCrashIff` | internal/pipeline/cronexpr/cron.go:122-130 | reading a field crashes exactly when some item is well-formed with a step that overflows 64 bits and every item before it is accepted |
| `CronFields.PartsRejectIff` | internal/pipeline/cronexpr/cron.go:86-130 | a field is rejected, and for which reason, exactly according to the first item that is not accepted |
| `CronFields.ItemsAreRead` | internal/pipeline/cronexpr/cron.go:90-121 | how every item is read, by what stands before and after its slash and its dash, and the reason for which it is refused |
| `CronFields.ProgressionMembers` | internal/pipeline/cronexpr/cron.go:125-127 | an item stands for v exactly when v = lo + k * step for some k and v does not exceed hi |
| `CronFields.AcceptedDenotesSomething` | internal/pipeline/cronexpr/cron.go:86-130 | an accepted field admits at least one value of its range |
| `CronFields.Fill` | internal/pipeline/cronexpr/cron.go:86-130 | the loop over a field's items: on success a bit of the array is set exactly if it was set before or some item denotes it |
| `CronFields.SetProgression` | internal/pipeline/cronexpr/cron.go:125-127 | the inner loop sets exactly the bits of the progression, and reports the overflow |
| `Text.AtoiSpellings` | internal/pipeline/cronexpr/cron.go:96-118 | numbers may be written with a plus sign or a zero in front |
| `CronExpr.ParseAcceptsIff` | internal/pipeline/cronexpr/cron.go:57-80 | an expression parses if and only if it has five fields and each of them is accepted |
| `CronExpr.ParseCrashesIff` | internal/pipeline/cronexpr/cron.go:57-130 | parsing an expression crashes if and only if it has five fields, one of which crashes, and the fields read before that one are accepted |
| `CronExpr.ParseBlames` | internal/pipeline/cronexpr/cron.go:57-80 | a wrong number of fields is reported with the number, and otherwise the first bad field in reading order is named, with the reason of its first bad item |
| `CronExpr.DescribedIsInhabited` | internal/pipeline/cronexpr/cron.go:57-80 | what an accepted expression describes admits at least one value in every field |
| `CronExpr.Expr.Parse` | internal/pipeline/cronexpr/cron.go:57-80 | the outcome the grammar gives, first bad field first with the day fields read before the others; on success the bitsets are exactly those described, and the star flags hold for literal stars only |
| `CronExpr.Expr.Next` | internal/pipeline/cronexpr/cron.go:134-158 | the skipping search returns the least whole minute strictly after the instant, and within the bound, that satisfies month, day rule, hour and minute; it fails exactly when there is none |
| `CronExpr.NextFailsIffDateless` | internal/pipeline/cronexpr/cron.go:134-158 | on a parsed expression the search fails if and only if no date ever fits it, whatever the start |
| `CronExpr.Expr.NextN` | internal/pipeline/cronexpr/cron.go:178-193 | up to n consecutive firings, all n for a parsed expression that some date fits; an error if and only if one is asked for and there is not even the first, and a short list only if the search after its last entry finds nothing |
| `CronExpr.ConsecutiveMissesNone` | internal/pipeline/cronexpr/cron.go:178-193 | such a list holds every firing up to its last entry and nothing else |
| `CronGrammar.FormDenotesMeaning` | internal/pipeline/cronexpr/cron.go:6-13 | each documented form is accepted and denotes exactly the values documented for it |
| `CronGrammar.FieldDenotesMeaning` | internal/pipeline/cronexpr/cron.go:6-13 | a list of forms denotes the union of what they denote |
| `CronGrammar.StepCrashesIff` | internal/pipeline/cronexpr/cron.go:122-128 | a starred step is read, or crashes the parser, exactly according to whether the field's minimum plus the step exceeds the largest 64-bit integer |
| `CronGrammar.WrittenExpressionParses` | internal/pipeline/cronexpr/cron.go:1-18 | round trip: writing any legal layout of forms and parsing it gives exactly the schedule the forms mean |
| `CronMeaning.MatchesAsDocumented` | internal/pipeline/cronexpr/cron.go:6-18 | a parsed schedule matches a minute exactly when the minute, the hour and the month that clock and calendar show are among those written, and the date meets the documented rule: both day fields if one of them is a star, either if neither is |
| `CronMeaning.NextAsDocumented` | internal/pipeline/cronexpr/cron.go:132-176 | the search over a parsed expression returns the first minute at which it fires by its documentation, and nothing if and only if there is no such minute, ever |
| `Calendar.WeekdayFollowsRule` | internal/pipeline/cronexpr/cron.go:160-176 | counting days in sevens from a Monday gives each date the weekday that Sakamoto's rule gives its year, month and day |
| `RateLimit.RateLimiter.constructor` | internal/middleware/ratelimit.go:39-49 | a burst below 1 is taken as 1, and a new limiter is valid and has no buckets |
| `RateLimit.RateLimiter.Handle` | internal/middleware/ratelimit.go:52-68 | a disabled limiter lets everything through untouched; an enabled one decides by the client's bucket |
| `RateLimit.RateLimiter.Allow` | internal/middleware/ratelimit.go:70-96 | the whole new state of both maps and the decision: refill capped at burst, one token for a grant, the first request free |
| `RateLimit.RateLimiter.Sweep` | internal/middleware/ratelimit.go:107-117 | the loop drops exactly the buckets idle for longer than the stale period, from both maps |
| `RateLimit.RunKeepsValid` | internal/middleware/ratelimit.go:70-118 | over every run the two maps have the same clients and every bucket holds between 0 and burst tokens |
| `RateLimit.StepPays` | internal/middleware/ratelimit.go:70-118 | every single event pays for its grant out of the client's credit, except for making a bucket and for losing one that had not refilled |
| `RateLimit.CreditPaysForGrants` | internal/middleware/ratelimit.go:70-118 | conservation over a run: grants plus the credit left never exceed the credit at the start, the refill, and what bucket creations and early evictions gain |
| `RateLimit.GrantBoundWithWindfall` | internal/middleware/ratelimit.go:70-118 | the bound on grants for any stale period, counting what evictions before a full refill gain |
| `RateLimit.GrantBound` | internal/middleware/ratelimit.go:70-118 | in any window of length T a client is let through at most burst + 1 + rps * T times plus once for each eviction, if an idle bucket refills before it goes stale |
| `RateLimit.CreationsAreSpaced` | internal/middleware/ratelimit.go:101-118 | the creations of one client's bucket lie more than the stale period apart |
| `RateLimit.GrantBoundPerStretch` | internal/middleware/ratelimit.go:70-118 | the same bound without counting evictions: at most one extra grant per stale period |
| `RateLimit.SpacedNeverRefused` | internal/middleware/ratelimit.go:70-96 | a client whose requests are at least 1 / rps apart is never refused, whatever the other clients and the sweeper do |
| `RateLimit.ClientsAreIsolated` | internal/middleware/ratelimit.go:70-118 | deleting everyone else's requests from a run changes neither a client's grants nor its bucket |
| `RateLimit.FreshClientBurst` | internal/middleware/ratelimit.go:74-79 | a new client gets exactly burst + 1 requests through at one instant, so the bound is reached |
| `RateLimit.TokensAreConserved` | internal/middleware/ratelimit.go:81-94 | an equation over every run in which its bucket is not swept: what a client is granted is what the bucket held, plus the refill up to its last request, minus what is left and what ran over |
| `RateLimit.BurstAfterWait` | internal/middleware/ratelimit.go:81-94 | a client that waits without being swept, whatever the others do, and then sends n requests at once is granted exactly as many as there are whole tokens: those left plus the refill of the wait, at most burst |
| `RateLimit.IdleIsForgotten` | internal/middleware/ratelimit.go:107-117 | a tick drops exactly the buckets idle for more than the stale period, keeps the others as they are, and gives a dropped client the burst of a new one |
| `ConfigVersions.BodyUnique` | internal/component/models/config_version.go:62-79 | a scope's masked, sorted body is determined by its live rows |
| `ConfigVersions.RestoreReproducesBody` | internal/component/service/config_version.go:147-209 | making the live rows match a body and taking a snapshot gives that body back, secrets included |
| `ConfigHistory.VersionsAreExactly` | internal/component/service/config_version.go:31-63 | the versions of a scope are exactly 1 to the newest: each is found, no other is |
| `ConfigHistory.VersionsUnique` | internal/component/service/config_version.go:31-63 | each version of a scope has one snapshot |
| `ConfigHistory.StepKeepsNumbering` | internal/component/service/config_version.go:31-143 | every operation, with any calls failing, keeps the numbering |
| `ConfigHistory.StepAppends` | internal/component/service/config_version.go:31-143 | history is only appended to, by at most one snapshot of the operation's own scope |
| `ConfigHistory.SuccessLeavesInStep` | internal/component/service/config_version.go:31-143 | after every successful capture or rollback the newest version's body is the snapshot of the live rows |
| `ConfigHistory.RollbackThenCaptureAddsNothing` | internal/component/service/config_version.go:106-143 | rolling back to a version makes its body current, and an immediate capture adds nothing |
| `ConfigHistory.RollbackErasesSecrets` | internal/component/service/config_version.go:160-189 | after any rollback no secret of the scope has its value: the mask if it had a row, nothing if it came back |
| `ConfigHistory.RollbackToCurrentChangesIff` | internal/component/service/config_version.go:181-189 | rolling back to a version whose body is already current changes exactly the secrets whose value is not the mask |
| `ConfigHistory.OtherRowsUntouched` | internal/component/service/config_version.go:147-209 | no operation touches the rows of another scope, unless a save moves a row out of it |
| `ConfigHistory.OtherVersionsUntouched` | internal/component/service/config_version.go:31-143 | no operation touches the versions of another scope |
| `ConfigHistory.RepeatsOnlyByRollback` | internal/component/service/config_version.go:31-63 | a new version repeats the newest body only if a rollback wrote it or the newest body could not be read |
| `ConfigHistory.RunKeepsHistory` | internal/component/service/config_version.go:31-143 | over every run of saves, deletions, captures and rollbacks the versions stay 1 to n and older snapshots never change |
| `ConfigHistory.RunRepeatsOnlyByRollback` | internal/component/service/config_version.go:31-143 | over every run, two consecutive versions share a body only if the later was written by a rollback or after a failed read |
| `ConfigHistory.RunKeepsCurrent` | internal/component/service/config.go:77-145 | over every run without faults whose saves stay within their scope, the newest version of every scope is its live rows |
| `ConfigHistory.MovingOutLeavesStale` | internal/component/service/config.go:77-110 | a save of an existing row keeps every scope current if and only if it stays in its scope |
| `ConfigHistory.SecretsNeverReachHistory` | internal/component/service/config.go:77-145 | two runs that differ only in the values of secrets leave the same snapshots and the same audit rows |
| `ConfigEffects.CaptureDecides` | internal/component/service/config_version.go:31-63 | exactly when a capture fails, and exactly when and what it appends: the next number, the comment and the scope's body |
| `ConfigEffects.SaveWritesRow` | internal/component/service/config.go:77-110 | exactly when a save fails; otherwise the row is as given, the row it identifies has no other place, no further row is touched, and the audit trail has one line without a secret's value |
| `ConfigEffects.SaveIsRecorded` | internal/component/service/config.go:77-110 | after a save without faults the newest version shows each row of the scope once, in key order and masked, the saved one among them |
| `ConfigEffects.DeleteRemovesRow` | internal/component/service/config.go:114-145 | exactly when a deletion fails; otherwise the row is gone, no other is touched, and the audit trail shows what was there, masked |
| `ConfigEffects.DeletionIsRecorded` | internal/component/service/config.go:114-145 | after a deletion without faults the newest version shows the rows left and nothing under the deleted key |
| `ConfigEffects.VersionsCarryComments` | internal/component/service/config.go:101-141 | the comment of a version names the saved or deleted key, or is the one given |
| `ConfigEffects.RollbackRestores` | internal/component/service/config_version.go:108-209 | exactly when a rollback fails; otherwise the scope has one row per entry of the version with the values it says, other scopes are untouched, and the version's body is appended with the comment that names it |
| `ConfigStores.BuildConfigSnapshot` | internal/component/models/config_version.go:62-79 | masking in a loop and sorting by key gives the body of the scope, in whatever order the rows were listed |
| `ConfigStores.ConfigStore.Capture` | internal/component/service/config_version.go:31-63 | the new state and result: nothing and an error if listing, locking or inserting fails, nothing if the newest version has the same body, otherwise one appended version, also when the newest version cannot be read |
| `ConfigStores.ConfigStore.WriteEntries` | internal/component/service/config_version.go:153-189 | the loop writes every entry over the row it finds or as a new one, with an empty value for a new secret, and touches no other row |
| `ConfigStores.ConfigStore.DeleteStale` | internal/component/service/config_version.go:190-209 | the loop deletes exactly the scope's rows whose keys are not kept |
| `ConfigStores.ConfigStore.ApplyEntries` | internal/component/service/config_version.go:147-209 | the scope's rows afterwards are those of the entries, and every other row is as before |
| `ConfigStores.ConfigStore.Rollback` | internal/component/service/config_version.go:108-143 | rows and history after a rollback; any failure leaves both tables as they were |
| `ConfigStores.ConfigStore.Upsert` | internal/component/service/config.go:77-110 | row, audit and history after a save, with audit and capture allowed to fail |
| `ConfigStores.ConfigStore.Delete` | internal/component/service/config.go:114-145 | row, audit and history after a deletion, with audit and capture allowed to fail |
| `ConfigDiffs.DiffConfigSnapshots` | internal/component/models/config_version.go:142-180 | the two passes and the sort list exactly the keys that differ, once each in key order, and count them |
| `ConfigDiffs.ConfigDiffIsDual` | internal/component/models/config_version.go:142-180 | comparing the other way round gives the same keys in the same order with both sides exchanged |
| `ConfigDiffs.ConfigDiffConserves` | internal/component/models/config_version.go:142-180 | the newer version has as many keys as the older, plus the added, minus the removed |
| `ConfigDiffs.ConfigIdenticalIff` | internal/component/models/config_version.go:142-195 | identical if and only if both sides have the same keys with the same values and references |
| `ConfigDiffs.ConfigListedIff` | internal/component/models/config_version.go:142-195 | a key is listed as added or removed, with its one value, exactly when only one version has it, and as modified exactly when both have it and value or reference differ, with the values if these differ and else the references |
| `ConfigDiffs.IdenticalIffEqual` | internal/component/models/config_version.go:142-195 | for recorded bodies in which no plain value reads like the mask, identical if and only if equal, secret flags included |
| `ConfigDiffs.FlagGoesUnreported` | internal/component/models/config_version.go:186-195 | that condition is needed for every recorded body: turning on the flag of a plain value that reads like the mask gives a different recorded body that is reported identical |
| `ConfigDiffs.SecretFlagGoesUnreported` | internal/component/models/config_version.go:186-195 | the smallest such case, a single variable |
| `ConfigDiffs.RolledBackComparesIdentical` | internal/component/service/config_version.go:85-143 | a version and the live rows after rolling back to it compare as identical |
| `SnapshotDiffs.DiffSnapshots` | internal/pipeline/models/version.go:215-292 | the four passes and the sorts give the diff: every stage and task name that calls for an entry, once each in order, and matching counts |
| `SnapshotDiffs.DiffUnique` | internal/pipeline/models/version.go:215-292 | two snapshots have only one diff |
| `SnapshotDiffs.DiffIsDual` | internal/pipeline/models/version.go:215-370 | swapping the arguments exchanges added with removed and both sides of every field, keeps the order, and exchanges the counts |
| `SnapshotDiffs.DiffConserves` | internal/pipeline/models/version.go:215-292 | stages and tasks are conserved: what the newer side has is what the older had plus added minus removed |
| `SnapshotChanges.IdenticalIffSame` | internal/pipeline/models/version.go:215-370 | identical if and only if both sides have the same stages and tasks by name and in none of them anything compared differs |
| `SnapshotDiffs.StageFieldsFaithful` | internal/pipeline/models/version.go:302-311 | stages show the same fields exactly when sequence and execution mode are equal |
| `SnapshotChanges.TaskFieldsFaithful` | internal/pipeline/models/version.go:313-339 | tasks show the same fields exactly when type, order, image, script path, time limit and the canonical forms of all nine JSON columns are equal |
| `SnapshotChanges.TaskFieldChanges` | internal/pipeline/models/version.go:313-339 | the changes of a task, field by field in order: each of the fourteen is listed under its own name, with the older and the newer value, exactly when these differ |
| `SnapshotChanges.StageListedIff` | internal/pipeline/models/version.go:234-252 | a stage is listed as added or removed exactly when only the newer or the older side has it, and as modified, with its changed fields, exactly when both have it and position or mode differ |
| `SnapshotChanges.TaskListedIff` | internal/pipeline/models/version.go:258-287 | the same for tasks, named within their stage |
| `SnapshotDiffs.RenameLooksIdentical` | internal/pipeline/models/version.go:215-292 | pipelines that differ only in name, kind, description or parameters are reported identical |
| `SnapshotDiffs.StagePassTo` | internal/pipeline/models/version.go:234-245 | the pass over the newer stages yields exactly the added and modified entries and counts them |
| `SnapshotDiffs.StagePassFrom` | internal/pipeline/models/version.go:246-252 | the pass over the older stages yields exactly the removed entries and counts them |
| `SnapshotDiffs.TaskPassTo` | internal/pipeline/models/version.go:258-274 | the tasks of one newer stage: added if the stage or the task is new, modified if a compared field differs |
| `SnapshotDiffs.TaskPassFrom` | internal/pipeline/models/version.go:275-287 | the tasks of one older stage that the newer side no longer has |
| `Listings.ListingIsDual` | internal/pipeline/models/version.go:215-370 | the law behind the duality, for any keyed records |
| `Listings.ItemsConserved` | internal/pipeline/models/version.go:215-292 | the law behind the conservation, for any keyed records |
| `Listings.SortedPassesAreListing` | internal/pipeline/models/version.go:343-370 | sorting what the two passes found by key gives the listing, and keeps the counts |
| `Cascade.OnlyTheStepsMatter` | internal/cascade/deleter.go:102-177 | whatever the order and number of the steps run, the tables depend only on which steps ran |
| `Cascade.OrderIrrelevant` | internal/cascade/deleter.go:102-177 | every order of the cascade's steps ends in the same tables |
| `Cascade.CascadesCompose` | internal/cascade/deleter.go:102-177 | two cascades one after the other are one cascade over both sets of components |
| `Cascade.ServiceDeletionIsComponentwise` | internal/cascade/deleter.go:65-91 | deleting a service is deleting each of its components, in any order, and then marking the service |
| `Cascade.CascadeLeavesNothingLive` | internal/cascade/deleter.go:102-177 | nothing live is left below the components, rows of their environments, configuration and bindings are gone, and their artifacts wait for collection |
| `Cascade.CascadeIsExact` | internal/cascade/deleter.go:102-177 | row by row, what a cascade does to every table: stamps without overwriting earlier ones, removals, artifacts made due, and nothing besides |
| `Cascade.DeletedComponentIsGone` | internal/cascade/deleter.go:65-74 | deleting a component does that to the component and what lies below it, and to nothing if it has no row |
| `Cascade.DeletedServiceIsGone` | internal/cascade/deleter.go:78-91 | deleting a service stamps the service and no other one, and does that to exactly the components that name it and what lies below them |
| `Cascade.Deleter.DeleteComponents` | internal/cascade/deleter.go:102-177 | the loop over the steps ends in the cascade over the components selected at the start, or, with a step failing, in the tables after exactly the steps before the first that fails |
| `Cascade.Deleter.DeleteComponentSubtree` | internal/cascade/deleter.go:65-74 | the whole subtree is deleted, or, if the guard or a step fails, nothing changes |
| `Cascade.Deleter.DeleteServiceSubtree` | internal/cascade/deleter.go:78-91 | the service, its components and everything below them are deleted, or nothing changes |
| `ArtifactGC.PassedRows` | internal/artifact/service/gc.go:108-140 | what a pass does to each row: gone exactly when object and row deletion succeeded, otherwise kept, with the retry mark exactly when its object could not be removed and marking did not fail; untouched outside the batch |
| `ArtifactGC.PassedObjects` | internal/artifact/service/gc.go:108-140 | which objects are left after a pass |
| `ArtifactGC.CountsAddUp` | internal/artifact/service/gc.go:73-89 | scanned is deleted plus objects failed plus rows failed |
| `ArtifactGC.PassAddsNoOrphan` | internal/artifact/service/gc.go:108-140 | with a store, no pattern of failing calls makes a pass leave a new orphan |
| `ArtifactGC.UnconfiguredPassOrphans` | internal/artifact/service/gc.go:108-140 | without a store, exactly which keys a pass turns into orphans |
| `ArtifactGC.PassMissing` | internal/artifact/service/gc.go:108-140 | exactly when a pass takes the object from under a row that stays |
| `ArtifactGC.PassSparesUnexpired` | internal/artifact/repository/artifact.go:149-157 | a pass never removes or changes a row that has not expired |
| `ArtifactGC.CleanPassTakesDue` | internal/artifact/repository/artifact.go:149-163 | a pass in which no call fails deletes rows whose expiry lies before now and no others, oldest first, and leaves such a row only if it has deleted as many as the limit |
| `ArtifactGC.ReportIsTrue` | internal/artifact/service/gc.go:73-140 | the report against the tables: rows gone, rows whose object could not be removed, rows that could not be deleted, and a sample of keys of the second kind, all of them up to twenty |
| `ArtifactGC.PassDrains` | internal/artifact/service/gc.go:108-140 | a pass clears what is due and does not fail, or takes at least the limit less the rows that fail |
| `ArtifactGC.PassesDrain` | internal/artifact/service/gc.go:108-140 | n failure-free passes clear a backlog of up to n times the limit |
| `ArtifactGC.PassesDrainOthers` | internal/artifact/repository/artifact.go:149-157 | if calls fail for at most b due rows, fewer than the limit, n passes clear all the others, up to n times the limit less b |
| `ArtifactGC.BlockedForEver` | internal/artifact/repository/artifact.go:149-157 | that bound is sharp: if the oldest due rows, as many as the limit, fail in every pass, no pass ever deletes a row |
| `ArtifactGC.Collector.FindExpired` | internal/artifact/repository/artifact.go:149-163 | the rows with an expiry before now, oldest first, up to the limit if that is positive and all of them otherwise |
| `ArtifactGC.Collector.RunOnce` | internal/artifact/service/gc.go:108-140 | the new table and store and the report of one pass under any pattern of failing calls; nothing changes when the rows cannot be listed |
| `ArtifactGC.Collector.Collect` | internal/artifact/service/gc.go:115-138 | the work on one row: object first, row second, and the retry mark |
| `Reconcile.DiffStorageKeys` | internal/artifact/service/reconcile.go:80-111 | both differences of the two key lists, ascending and without empty keys |
| `Reconcile.DifferenceUnique` | internal/artifact/service/reconcile.go:80-111 | each difference is determined by the two lists |
| `Reconcile.RunOnce` | internal/artifact/service/reconcile.go:114-150 | the exact counts and the beginning of each difference; no report exactly when either side cannot be listed; nothing is changed |
| `Reconcile.ReportIsExact` | internal/artifact/service/reconcile.go:114-150 | the counts are the sizes of the two differences, and the samples their first keys in order, as many as asked for or a hundred |
| `Reconcile.MissingExactIff` | internal/artifact/service/reconcile.go:114-150 | the report of missing objects is right about every store with that listing if and only if every row's key was listed, or is no valid key, or lies below the prefix, does not end like an unfinished upload and, if the listing was cut, precedes some listed key in the walk |
| `Reconcile.MissingReported` | internal/artifact/service/reconcile.go:80-111 | every missing object is reported, and exactly those stored ones besides that lie outside the prefix, end like an unfinished upload, or were cut off |
| `Reconcile.NarrowedListingAccuses` | internal/artifact/storage/local.go:98-106 | a stored object outside the prefix is reported missing |
| `Reconcile.PartNameIsAccused` | internal/artifact/storage/local.go:118-120 | a stored object with the valid key `a.part` is reported missing by a complete listing |
| `Reconcile.CutListingAccuses` | internal/artifact/storage/local.go:125-128 | a stored object behind the limit is reported missing |
| `Reconcile.CutReportCanGrow` | internal/artifact/service/reconcile.go:114-150 | with a cut listing the orphan report can grow by a pass: the listed object goes and the orphan behind it comes into view |
| `ObjectListing.ListObjects` | internal/artifact/storage/local.go:90-141 | the visible keys below the prefix in key order, or, when there are more than the limit, the first of the walk and a note that there are more; an error for an invalid prefix or a failed walk |
| `ObjectListing.ListingUnique` | internal/artifact/storage/local.go:90-141 | a store, a prefix and a limit have one listing |
| `ObjectListing.WalkLessIsStrictOrder` | internal/artifact/storage/local.go:107-140 | the order of the walk, segment by segment, is a strict order |
| `ObjectListing.ValidPrefixIff` | internal/artifact/storage/local.go:97-106 | a prefix is accepted if it is empty or a valid key, with or without a slash at its end, which makes no difference |
| `ObjectListing.UnderIff` | internal/artifact/storage/local.go:97-110 | a key lies below a prefix exactly when its pieces begin with the prefix's |
| `ObjectListing.PartIsInName` | internal/artifact/storage/local.go:118-120 | a key ends like an unfinished upload exactly when its file name does |
| `Reconcile.CollectorAddsNoOrphanToReport` | internal/artifact/service/reconcile.go:80-111 | under any prefix a pass of the collector never adds to the orphans reported, unless the listing before it was cut; even then only true orphans are reported |
| `ArtifactLifecycle.NextKeepsOrder` | internal/cascade/deleter.go:147-163 | each cascade, registration, upload, user deletion and single call of a pass keeps every hidden row due for collection, and every job of the pass about its row |
| `ArtifactLifecycle.HiddenStaysCollectable` | internal/artifact/repository/artifact.go:29-33 | over every interleaving of the calls, a row hidden from the listings is a candidate of every later pass |
| `ArtifactLifecycle.HiddenIsEventuallyCollected` | internal/artifact/service/gc.go:108-140 | whatever came before, enough passes remove every hidden row but those whose calls keep failing, if fewer of these are due than the limit |
| `ArtifactLifecycle.DeletedComponentIsCleared` | internal/cascade/deleter.go:65-74 | deleting a component and then collecting leaves none of its artifacts but those whose calls keep failing |
| `ArtifactLifecycle.DeletionOrphansIff` | internal/artifact/service/artifact.go:164-181 | a user deletion leaves an orphan exactly when the object survives and no other row has its key |
| `ArtifactLifecycle.UploadAndRegister` | internal/artifact/service/artifact.go:35 | an upload leaves its object an orphan exactly when no row has its key, and registering a row adopts its object and no other |
| `ArtifactLifecycle.OrphansHaveACause` | internal/artifact/service/gc.go:108-140 | over every interleaving of the calls, an orphan in the end was one at the start or was loosened by an upload, by a user deletion whose object survived, or by dropping a row without a store; cascades and passes with a store never contribute |
| `ArtifactLifecycle.PassIsARun` | internal/artifact/service/gc.go:108-140 | a pass with nothing between its calls is one of these runs, and ends as the collector's pass does, for any pattern of failing calls |
| `Dependencies.ClosesCycle` | internal/component/service/dependency.go:69-90 | the depth-first search with a stack ends, and answers true exactly when `to` reaches `from` along the edges |
| `Dependencies.NewEdgeClosesCycleIff` | internal/component/service/dependency.go:47-55 | an edge keeps an acyclic graph acyclic if and only if its end does not reach its start |
| `Dependencies.DependencyService.Add` | internal/component/service/dependency.go:32-61 | the outcome in the order of the checks, and the edges: one more if added, the same otherwise |
| `Dependencies.DependencyService.Remove` | internal/component/service/dependency.go:63-65 | exactly that edge is gone |
| `Dependencies.RunStaysAcyclic` | internal/component/service/dependency.go:32-65 | every run of additions and removals keeps the graph acyclic, whatever calls fail |
| `Dependencies.CircularIffWouldClose` | internal/component/service/dependency.go:47-55 | an otherwise valid edge is rejected as circular if and only if it would close a cycle |
| `Dependencies.AdditionReports` | internal/component/service/dependency.go:32-61 | for every error exactly when it is reported, and an edge is added exactly when nothing is wrong with it and the graph with it is acyclic |
| `Dependencies.AcyclicGraphsAreReached` | internal/component/service/dependency.go:32-61 | nothing is refused needlessly: every acyclic graph over known components can be built, its edges added in any order |
| `ClusterRoles.VerbsFor` | internal/k8srbac/model.go:74-102 | collecting kinds and verbs in loops gives one rule with all of both, or none if either is empty |
| `ClusterRoles.CustomPermitsIff` | internal/k8srbac/model.go:50-142 | a custom role permits a verb on a kind exactly when one of its classes holds the kind and one of its operations allows the verb, by the documented table of classes and operations, in the core group |
| `ClusterRoles.RuleOnlyIfUseful` | internal/k8srbac/model.go:87-102 | a rule is made only if it permits something, and then only one |
| `ClusterRoles.PredefinedPermitIff` | internal/k8srbac/model.go:105-142 | exactly what each predefined role permits, for every group, kind and verb; any other name permits nothing |
| `ClusterGrants.GrantService.Create` | internal/k8srbac/service.go:58-123 | outcome, new state and certificate of a creation for every way its nine calls can turn out |
| `ClusterGrants.GrantService.Provision` | internal/k8srbac/service.go:88-122 | role, binding, row and certificate in order, with the compensations after each failure: exactly what is left of each |
| `ClusterGrants.GrantService.Revoke` | internal/k8srbac/service.go:128-175 | outcome, new state, row and certificate returned, for users and for groups; a group's row is returned with its old status |
| `ClusterGrants.GrantService.Delete` | internal/k8srbac/service.go:178-192 | outcome and new state; what the cluster answers is passed over |
| `ClusterGrants.GrantService.RevokeUserSubject` | internal/k8srbac/client.go:192-206 | replaces the name of the first subject of a cluster-wide binding; fails when there is none |
| `GrantEffects.CreationOutcome` | internal/k8srbac/service.go:58-123 | the checks and calls of a creation in order: the first that fails decides what is reported |
| `GrantEffects.StaysIff` | internal/k8srbac/service.go:88-122 | role, binding, row and certificate are there in the end exactly when the call for them was made and had its effect and no compensation undid it |
| `GrantEffects.CreationLeaves` | internal/k8srbac/service.go:65-122 | where and under which names they are stored and with what in them, and that nothing else changes |
| `GrantEffects.RevocationOutcome` | internal/k8srbac/service.go:128-175 | the checks and calls of a revocation in order, for users and for groups |
| `GrantEffects.UserRevocationDoes` | internal/k8srbac/service.go:139-164 | certificate, subject and hash: each call has its effect exactly when the ones before it are done and it is not lost |
| `GrantEffects.GroupRevocationDoes` | internal/k8srbac/service.go:166-174 | the binding goes first; the role and the mark follow only when the binding is gone for sure |
| `GrantEffects.DeletionDoes` | internal/k8srbac/service.go:178-192 | binding, role and row go unless their call is lost, and only the row's call decides the outcome |
| `GrantRuns.CreateRestoresIff` | internal/k8srbac/service.go:88-122 | a creation restores roles, bindings and rows if and only if it fails with a call that had no effect and compensations that had theirs |
| `GrantRuns.CreatedPermissionWorks` | internal/k8srbac/service.go:58-123 | a successful creation binds the created role to the subject, which for a user is the one its certificate names, and touches no other permission |
| `GrantRuns.RunStaysSound` | internal/k8srbac/service.go:58-192 | over every run, what is stored under a permission's names is its own, and every certificate has its own hash; no certificate is ever unsigned |
| `GrantRuns.ReachableIsSound` | internal/k8srbac/service.go:58-192 | every world reachable from one in which the service has done nothing is sound, so what follows for sound worlds holds in every reachable state |
| `GrantRuns.UserNamesDiffer` | internal/k8srbac/model.go:154-164 | names made from different users or hashes differ, even for identifiers that contain dashes |
| `GrantRuns.RevokedPermissionAgrees` | internal/k8srbac/service.go:139-164 | from any reachable state, a successful revocation of a user's permission leaves binding subject, row hash and new certificate in agreement, and no older certificate authorized |
| `GrantRuns.RotationKillsOldCertificates` | internal/k8srbac/service.go:139-164 | once the subject has been replaced, even if the revocation is then reported as failed, no certificate signed before is authorized by that permission in any later state |
| `GrantRuns.OldCertificatesStayDead` | internal/k8srbac/service.go:128-192 | a set of certificates that a permission does not authorize stays unauthorized over every run |
| `GrantRuns.UserRevokeSucceedsIff` | internal/k8srbac/client.go:192-206 | with every call working, a user's permission can be revoked if and only if it is cluster-wide and still bound |
| `GrantRuns.FaultlessLife` | internal/k8srbac/service.go:58-175 | when no call fails, a cluster-wide user permission is created, any number of revocations after it all succeed, and of all certificates only the newest is authorized |
| `GrantRuns.OneCertificateAuthorizes` | internal/k8srbac/model.go:154-164 | in every reachable state at most one certificate is authorized by a permission |
| `GrantRuns.GroupRevokeUnbinds` | internal/k8srbac/service.go:166-174 | revoking a group's permission unbinds it, can be completed after a failed status update, and done twice changes nothing |
| `GrantRuns.UnboundStaysUnbound` | internal/k8srbac/service.go:128-192 | a permission no longer bound is never bound again |
| `GrantRuns.DeletedStaysEffectiveIff` | internal/k8srbac/service.go:178-192 | exactly when a successful deletion leaves the permission working: both cluster calls lost |
| `GrantRuns.OrphanIsPermanent` | internal/k8srbac/service.go:128-192 | a permission without a row is never changed again by anything the service does |
| `GrantRuns.StepTouchesOnlyItsOwn` | internal/k8srbac/service.go:58-192 | an operation on one permission changes nothing of another |
| `StorageKeys.SplitPath` | internal/artifact/storage/storage.go:77-87 | the one-pass loop gives the pieces between the slashes |
| `StorageKeys.ValidateKey` | internal/artifact/storage/storage.go:62-75 | accepts exactly the keys of at most 512 bytes whose pieces all name something |
| `StorageKeys.ValidKeyIff` | internal/artifact/storage/storage.go:62-87 | the valid keys are exactly the slash-joined lists of names within the length |
| `StorageKeys.LeadingSlashGivesEmptySegment` | internal/artifact/storage/storage.go:66-68 | the test for a leading slash is implied by the test of the pieces |
| `Text.JoinSplit` | internal/artifact/storage/storage.go:77-87 | joining the pieces of a key gives the key back |
| `Text.SplitJoin` | internal/artifact/storage/storage.go:77-87 | splitting joined pieces gives the pieces back |
| `StorageKeys.CleanIdempotent` | internal/artifact/storage/local.go:148-157 | cleaning a path twice is cleaning it once, for every path |
| `StorageKeys.ValidKeyIsClean` | internal/artifact/storage/local.go:148-157 | a valid key is a fixed point of cleaning |
| `StorageKeys.ResolveExactly` | internal/artifact/storage/local.go:148-157 | under a clean root, resolving gives root, slash, key for every valid key, and fails otherwise, or always if the root is `/` |
| `StorageKeys.ResolveInjective` | internal/artifact/storage/local.go:148-157 | two keys never share a path, and every path is the root, a separator and something more |
| `StorageKeys.DeletionRemovesTheResolved` | internal/artifact/storage/local.go:74-83 | deletion, which joins without resolving, names the file that resolving names |
| `StorageKeys.PayloadInjective` | internal/artifact/storage/local.go:49-54 | two requests have the same signed text only if method, key and expiry are equal, though keys may contain the separator |
| `SignedLinks.EscapeRoundTrip` | internal/artifact/storage/local.go:56-64 | decoding an escaped key gives the key back, for every string of bytes |
| `SignedLinks.UnescapesIff` | internal/artifact/storage/local.go:180-183 | decoding succeeds exactly when every percent sign begins an escape |
| `SignedLinks.LinkOpensIff` | internal/artifact/storage/local.go:56-200 | a link opens its object, for its method and until it expires, if and only if the key has no percent sign or one that begins no escape |
| `SignedLinks.SignatureIsForOne` | internal/artifact/storage/local.go:56-192 | a link is minted and let through for valid keys only, and one that carries a minted signature only for the key and method it was made for and before its expiry |
| `SignedLinks.EscapedByCode` | internal/artifact/storage/local.go:62-63 | which bytes a link escapes, and how |
| `SignedLinks.EscapedKeyIsRefused` | internal/artifact/storage/local.go:176-192 | the link minted for the valid key `a%41` opens nothing |
| `Registry.HubServer.Register` | internal/gateway/gateway.go:212-216 | the target's entry is this connection, the others are as before |
| `Registry.HubServer.Unregister` | internal/gateway/gateway.go:235-245 | the entry is removed exactly if it is this connection's own, and only then the target is reported offline |
| `Registry.RegistryHoldsNewest` | internal/gateway/gateway.go:212-245 | after any history of connects and exits a target's entry is the connection that registered last, if it has not left, and otherwise there is none |
| `Registry.OldExitKeepsNewer` | internal/gateway/gateway.go:230-245 | an old connection's exits never remove a newer one |
| `Variables.GroupVariableParams` | internal/component/models/variable_group.go:63-93 | the in-place merge gives one parameter for each non-empty key, with the value of its last entry, in order of first appearance |
| `Variables.MergeIsSettings` | internal/component/models/variable_group.go:59-93 | the parameters are exactly the key-value pairs the entries set |
| `Variables.LayersOverride` | internal/component/models/variable_group.go:59-93 | merging all groups is overriding group by group, later groups winning |
| `Variables.MergeNamesDistinct` | internal/component/models/variable_group.go:63-93 | no name occurs twice |
| `Passwords.PasswordClassSatisfied` | internal/permission/handler/keycloak_directory.go:388-401 | true exactly when a lower-case letter, an upper-case letter and a digit occur |
| `Passwords.GenerateTemporaryPassword` | internal/permission/handler/keycloak_directory.go:360-384 | filling a buffer and shuffling it in place gives the password the draws determine |
| `Passwords.ShuffleInPlace` | internal/permission/handler/keycloak_directory.go:380-383 | the swaps in place are the shuffle, which keeps the multiset of characters |
| `Passwords.PasswordsArePossible` | internal/permission/handler/keycloak_directory.go:360-384 | for every sequence of draws: 16 characters of the alphabet, with the three placed first among them |
| `Passwords.PossibleMixesClasses` | internal/permission/handler/keycloak_directory.go:386-401 | such a string mixes the three classes |
| `Passwords.ShuffleReaches` | internal/permission/handler/keycloak_directory.go:380-383 | the shuffle can bring about every arrangement of the characters |
| `Passwords.PasswordPossibleIff` | internal/permission/handler/keycloak_directory.go:360-384 | the passwords that can come out are exactly those strings: none is excluded |

## Left out

- CronExpr.Expr.Next: only UTC; in a zone whose offset is not a whole number of hours, or across a clock change, the hour jump truncates absolute time. The calendar here has no first or last year, where Go's time type has.
- RateLimit.GrantBound: tokens and times are real numbers, so the rounding of floating point is not modelled.
- ConfigStores.ConfigStore.Capture: runs as one step; two captures that race between listing and locking are not modelled.
- Dependencies.DependencyService.Add: runs as one step; two additions that race between the check and the insertion are not modelled.
- GrantRuns.RotationKillsOldCertificates: takes random identifiers and hashes to be new, each environment to be a cluster of its own, and a certificate to be authorized by its common name and not by its organization.
- Limiter buckets are values in the map rather than objects; no bucket is ever shared, so nothing depends on it. How the client's address is read from a request is left out.
- JSON: stored bodies are read back as they were written, `CanonicalJSON` is an arbitrary function of a column's text, and a variable group is whatever entries its body leaves the decoder with.
- Foreign keys: deleting an environment does not take its configuration rows with it here.
- Each statement of a cascade stamps rows with its own clock in the program; here one time serves all, so the order of the steps is irrelevant up to those stamps.
- Creation times copied into comparisons, log lines and error texts.
- Building a pipeline snapshot: its tasks lack the privileged flag, so nothing is claimed about it.
- The raw clean-up of old artifact rows in `internal/retention` is not part of this model.
- The two calls of a user deletion run as one event; the calls of a collector pass are events of their own.
- The file system behind the local store: a store is any set of valid keys here, though a file cannot be in the place of a directory. Symbolic links and uploads under way are left out, and a signature stands for the text it signs.
- The listing of the S3 store, whose prefix is one of characters and which drops no names but those of directories.
- The gateway's online gauge and heartbeats, which are updated outside the lock.
- The quality of random numbers, and a random source that fails, which panics.
- Listing deployable versions, searching artifacts and applying scan results: queries that state no more than their conditions.
- HTTP handlers, routing, permissions of the callers, metrics and configuration loading.
- The clients of Keycloak, Kubernetes, object stores and mail, beyond how their calls turn out.
- Run, target and trigger services, role name validation, pagination and change windows.
