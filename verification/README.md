# Verification of the workspace's protocols, pipelines and editors

A Dafny model of the parts of the repository whose correctness rests on an argument over whole runs rather than on
one branch, with proofs of what those parts are for. `dafny verify dfyconfig.toml` checks everything.

## What is modelled

**Migrations.** `Migrate` is a step relation over any number of `runMigrations` calls that share one bookkeeping
table and one session-level advisory lock. Each statement is a step. A statement may fail, may take effect without
its runner learning of it, may lose its session, or die with its process; a session's end frees the lock and keeps
what was done. A hook runs on the pool, so it can outlive the session that held the lock (`Severed`). `MigrateHistory` says what every change of a record comes from, up or down. `MigrateRunner` is the loop
itself, as methods over a database, and each call is shown to be one path of that relation.
`Readiness` and `ReadinessCache` are the readiness check, once as the class that keeps the cache and once as a step
relation over concurrent callers with a clock. `ReadyAfterMigrate` joins the two: what the count says about a table
that runners are filling.

**The mobile timeline, inbox and composer.** `TimelineThread` follows parent links as a graph and says what the walk
without a visited set finds and shows; `TimelineWalk` has its loops and says exactly when they end, and `TimelineTree`
when they look every id up once. `TimelineCoalesce` and `InboxDisplay` are the folding and deduplication passes;
`InboxIssues` says what the latter shows of each issue, and `InboxOrder` when it depends on input order.
`MentionSerialize`, `MentionRoundTrip` and `MentionInput` are the mention printer and scanner, their round trip, and
the editor state above them; `MentionReader` is the backend's expression that reads the sent message back.
`ViewedIssues` is the bounded recency list.

**Data repair.** `CodexBackfill` is the batched correction whose own update ends a row's eligibility, and `CodexScope`
says which rows it changes. `HourlyBackfill` is the month-by-month rollup over the window function of migration 102,
whose SQL is modelled with its dirty queue, and `HourlySums` says what the buckets hold; `Calendar` is the Gregorian
calendar its months come from. The backfill is proved for any increasing sequence of month starts, and
`Calendar.StartIncreases` shows the real calendar is one.

**Notifications.** `Notifications` is the fan-out to subscribers of an issue and of its parent, with each insert
stored, refused, or stored with the answer lost; `NotificationRows` says what each row holds.

**Command line.** `LogTail` is the backward scan of a log, `IdResolver` the pagination and prefix matching of short
ids, `ShellQuote` and `AttachmentLabel` two printers with the readers that have to undo them, `ByteFormat` the choice
of a byte unit.

Inputs that come from outside are parameters: clock readings, query failures, cancelled contexts, what a server
answers to each request, what another caller stored meanwhile. `migrations.ExtractVersion` and `AllVersions` are taken
to give distinct versions.

## Where the code and its documentation differ

- `apps/mobile/lib/timeline-thread.ts:24-26` says the number of entries shown equals the number read. With unique
  comment ids it does exactly when no parent chain enters a cycle; the comments on and below a cycle are not shown
  (`TimelineThread.Conservation`, `TimelineThread.TwoOnACycleAreLost`). Unique ids buy two things.
  The walk ends: in general it ends exactly if no id that reply links lead to leads back to itself
  (`TimelineWalk.EndsExactly`), which `TimelineWalk.SharedIdNeverEnds` violates. And each reply is shown once: in general
  the walk ends and looks every id up once exactly if no two replies that it finds share an id and none has the root's
  (`TimelineTree.LooksUpOnceExactly`); `TimelineWalk.SharedIdShowsTwice` ends and shows one reply twice.
- `core/internal/util/mention.go:16` reads a mention back only if its label is more than an @ and its id is "all" or of
  hexadecimal digits and dashes, and it reads text that is itself written as a link as a mention; short of these every
  message is read back exactly (`MentionReader.BackendReadsMentions`).
- `apps/mobile/lib/inbox-display.ts:64-65`: an item without an issue stands under its own id, and so goes into the group
  of an issue that has this id (`InboxIssues.OneEntryPerIssue`, `InboxIssues.LoneItemIsShown`).
- `apps/mobile/lib/mention-serialize.ts:29-31` allows any name. A picked name with whitespace in it makes the whole
  message fall back to plain text (`MentionRoundTrip.RoundTrip`). Mentions picked out of text order link nothing, or,
  when two share a name, link each to the other one (`MentionRoundTrip.OutOfOrderLinksNothing`,
  `MentionRoundTrip.OutOfOrderSwapsNamesakes`).
- `apps/mobile/lib/timeline-coalesce.ts` expects chronological input. In general a second pass changes nothing exactly if
  no two adjacent ends of runs in the input merge (`TimelineCoalesce.IdempotentExactly`);
  `TimelineCoalesce.DisorderNeedsASecondPass` is an input where they do.
- The order of inbox items shows in the result exactly if ties leave a choice of a group's representative, or of which
  group comes first (`InboxOrder.OrderIndependentExactly`); `InboxOrder.TiesDependOnOrder` is the smallest case.
- The readiness TTL separates the clock readings of two computations. Their work starts a TTL apart less the first one's
  delay after its reading (`ReadinessCache.StartsApartLessDelay`), every such gap occurs
  (`ReadinessCache.StartsAsCloseAsThat`), and so starts are a TTL apart in all runs exactly if there is no delay
  (`ReadinessCache.StartsTtlApartExactly`).
- `core/cmd/backfill_codex_usage_cache/main.go:168-170` compares the cutoff with the client's clock, while rows are
  dated by the database's. A row that is corrected while the database clock is still before the cutoff stays eligible
  as long as it has input left, and is corrected again. A finished run leaves a row at what one pass leaves exactly if the row was clamped to zero
  anyway or no batch took it that early (`CodexBackfill.OnePassRowExactly`), and removes the dry run's overcount exactly
  if that holds of all rows (`CodexBackfill.OverRemovalExactly`). With the clock behind throughout, every eligible row
  ends at zero (`CodexBackfill.LaggingClockZeroes`); with a clock that crosses the cutoff on the way a row can end in
  between (`CodexBackfill.CrossingClockCorrectsTwice`). A rerun after an interruption rebuilds the rollup for all
  rows the two runs corrected exactly if the first corrected none, or the second corrected some and began within a second
  of every batch of the first (`CodexBackfill.RerunRebuildsExactly`).
- `core/cmd/backfill_task_usage_hourly/main.go:129-130` takes its range from creation times, but the window function
  selects by update time. From any table and queue, a run leaves what the raw rows call for exactly if every bucket was
  touched within its range, is queued as dirty before its end, or was right already (`HourlyBackfill.SlicesExactly`,
  `HourlyBackfill.FullRunExactly`); `HourlyBackfill.LateUpdateMissed` is a row that is left out.
- `apps/mobile/data/viewed-issues-store.ts:15-18` has the list hold the last issues looked at, up to ten. With removals it
  is the ten most recent exactly if each of those has been among them ever since it was last put in (`ViewedIssues.FirstTenExactly`);
  a removal after an overflow leaves a gap (`ViewedIssues.RemovalLeavesAGap`) that the next view of a new issue can fill
  (`ViewedIssues.NextViewFillsTheGap`).
- `core/cmd/server/notification_listeners.go:127-130`: when preferences cannot be loaded nobody counts as muted
  (`Notifications.UnreadMuteDelivers`).
- `core/cmd/silieco/cmd_id_resolver.go:260-262`: a server that caps pages below fifty ends the collection after its
  first page (`IdResolver.CollectsAllExactly`).
- `core/cmd/silieco/cmd_attachment.go:112-116`: a file name with a line break does not come back as a card
  (`AttachmentLabel.CardRoundTrip`).
- `core/cmd/silieco/cmd_daemon_windows.go:129`: an unterminated last line is printed on top of the lines asked for
  (`LogTail.TailShowsLastLines`).

## Model

| member | source | states |
|---|---|---|
| `Migrate.MutualExclusion` | core/cmd/migrate/main.go:228-247 | in every interleaving with failures, lost sessions and crashes, at most one runner is past the lock |
| `Migrate.StepKeepsExclusive` | core/cmd/migrate/main.go:228-247 | every single step keeps the lock exclusive |
| `Migrate.StepKeepsInv` | core/cmd/migrate/main.go:262-315 | every step, up or down, keeps each runner's place truthful: all files before its index are settled, the one in hand is not |
| `Migrate.StepKeepsUpInv` | core/cmd/migrate/main.go:262-315 | steps of "up" runners also keep the table equal to what the history recorded, and that a prefix of the pending files |
| `Migrate.RecordedIsGrowingPrefix` | core/cmd/migrate/main.go:262-315 | the table is always the initial rows followed by a prefix of the pending files, and it only grows |
| `Migrate.SqlRunsInTurn` | core/cmd/migrate/main.go:281-304 | SQL runs only when every earlier file is recorded and its own is not, and directly after the same runner's hook for it completed |
| `Migrate.RerunMeansUnrecorded` | core/cmd/migrate/main.go:265-275 | a version's SQL runs again only if the earlier attempt was not recorded in between |
| `Migrate.RecordedAfterOwnSql` | core/cmd/migrate/main.go:302-312 | a version is recorded once at most, by the runner whose last action was its SQL |
| `Migrate.SuccessSettlesAll` | core/cmd/migrate/main.go:262-318 | a runner that returned success leaves every listed version recorded (unrecorded for "down"), other versions untouched |
| `Migrate.DownUndoesUp` | core/cmd/migrate/main.go:269-279 | up to success and then down to success leaves the initial table without the listed versions |
| `Migrate.InsertNeverCollides` | core/cmd/migrate/main.go:306-307 | in a reachable state the insert never meets an existing row |
| `Migrate.WaitingRunnerCanFinish` | core/cmd/migrate/main.go:236-247 | after any history, once the lock is free, a waiting runner reaches success by its own undisturbed steps alone |
| `Migrate.NewRunnerCanFinish` | core/cmd/migrate/main.go:236-247 | after any history anyone may come in, and gets through by undisturbed steps if the lock is free |
| `MigrateHistory.ChangedAfterOwnSql` | core/cmd/migrate/main.go:269-312 | up or down, whenever a step enters or removes a version's record, the runner that makes it ran that version's SQL before as its last event, in the version's turn, and nobody touched the table in between |
| `MigrateHistory.SqlInTurn` | core/cmd/migrate/main.go:262-304 | up or down, SQL runs in list order, on a version whose record has yet to change |
| `MigrateHistory.OnlyDueHooksRun` | core/cmd/migrate/main.go:293-300 | hooks run only on the way up, for listed versions that have one |
| `MigrateHistory.TableComesFirst` | core/cmd/migrate/main.go:248-257 | nothing is asked, run or recorded before the bookkeeping table exists |
| `MigrateRunner.Database.RunMigrations` | core/cmd/migrate/main.go:195-319 | one call is a path of the step relation from waiting to its return; it runs the SQL of the versions that have to change and no other, each once and in list order, all of them if it succeeds, up or down; success settles every listed version; without failures it succeeds and frees the lock |
| `MigrateRunner.Database.ApplyAll` | core/cmd/migrate/main.go:249-318 | from table creation to the unlock, every way out is a path of the step relation |
| `MigrateRunner.Database.ApplyFile` | core/cmd/migrate/main.go:262-315 | one turn of the loop ends at the next file or, on any failure, at the unlock; it runs the file's SQL exactly if the version has to change, unless it fails before |
| `MigrateRunner.Database.ReadAndHook` | core/cmd/migrate/main.go:281-300 | reading and the hook, which only "up" runs, as steps |
| `MigrateRunner.Database.ExecuteAndRecord` | core/cmd/migrate/main.go:302-314 | the SQL and then the record, as steps |
| `MigrateRunner.Database.Unlock` | core/cmd/migrate/main.go:242-246 | the deferred unlock keeps the result it was given |
| `MigrateRunner.WhatReturnMeans` | core/cmd/migrate/main.go:262-318 | any path of one runner to its return leaves unlisted versions alone and, on success, all listed ones settled |
| `Readiness.CountChecksEvery` | core/cmd/server/health.go:153-156 | a count of matching rows reaches the number required exactly when the required versions are distinct and all recorded |
| `Readiness.OkExactly` | core/cmd/server/health.go:115-163 | "ok" is answered exactly when every check passed and every one of a non-empty list of distinct versions is recorded |
| `Readiness.TextsSayWhichCheckFailed` | core/cmd/server/health.go:115-163 | which check failed decides each text: database, migrations unknown, unreadable, out of date; "ok" and 200 come together |
| `Readiness.ServerHealth.ComputeReadiness` | core/cmd/server/health.go:115-163 | the response built step by step is the one the checks call for |
| `Readiness.ServerHealth.LoadCachedReadiness` | core/cmd/server/health.go:107-113 | an entry is handed out only before it expires |
| `Readiness.ServerHealth.Readiness` | core/cmd/server/health.go:80-105 | the double-checked call: which of the two cache reads or the computation answers, and what the cache holds after |
| `ReadinessCache.StepKeepsInv` | core/cmd/server/health.go:80-113 | every step of every concurrent caller keeps the cache, the mutex and all answers consistent with the history |
| `ReadinessCache.ComputationsNeverOverlap` | core/cmd/server/health.go:90-104 | with a positive TTL no two calls compute at once, each computation ends before the next starts, and their readings are a TTL apart |
| `ReadinessCache.AnswersAreFresh` | core/cmd/server/health.go:85-98 | each answer comes from a finished computation that read the clock less than the TTL before the caller, and "ok" means all versions were there |
| `ReadinessCache.CachedOkStaysTrue` | core/cmd/server/health.go:85-98 | while versions are only added, an "ok" from the cache is true when it is handed out |
| `ReadinessCache.WithoutTtlComputationsOverlap` | core/cmd/server/health.go:81-83 | with the cache switched off two calls do compute at once |
| `ReadinessCache.NothingIsCachedWithoutTtl` | core/cmd/server/health.go:80-83 | with the cache switched off nothing is ever cached and no call takes the mutex |
| `ReadinessCache.StartsApartLessDelay` | core/cmd/server/health.go:93-102 | in every run the work of a later computation starts a TTL after an earlier one's, less the earlier one's delay after its clock reading |
| `ReadinessCache.StartsAsCloseAsThat` | core/cmd/server/health.go:93-102 | for every TTL and delay some run has its starts exactly that far apart |
| `ReadinessCache.StartsTtlApartExactly` | core/cmd/server/health.go:93-102 | starts are a TTL apart in all runs whose delays are at most d exactly if d is zero |
| `ReadyAfterMigrate.ReadyExactlyWhenAllApplied` | core/cmd/server/health.go:153-163 | while runners interleave, readiness is "ok" exactly when the whole pending list is recorded |
| `ReadyAfterMigrate.SuccessMeansReady` | core/cmd/migrate/main.go:262-318 | after any runner's success readiness is "ok" |
| `TimelineThread.VisitsDistinct` | apps/mobile/lib/timeline-thread.ts:68-78 | no id is looked up twice although no visited set is kept |
| `TimelineThread.ThreadIsDescendants` | apps/mobile/lib/timeline-thread.ts:63-80 | the thread is exactly the root's descendants, once each, parents first, depth never decreasing, siblings in input order |
| `TimelineThread.TopLevelOrder` | apps/mobile/lib/timeline-thread.ts:48-61 | rows keep input order |
| `TimelineThread.TopOrCycle` | apps/mobile/lib/timeline-thread.ts:49-57 | every parent chain either ends at a row or enters a cycle |
| `TimelineThread.RowsCount` | apps/mobile/lib/timeline-thread.ts:82-86 | how often each entry is shown: as often as it came in if its chain ends, otherwise never |
| `TimelineThread.Conservation` | apps/mobile/lib/timeline-thread.ts:24-26 | the rows show a part of the input, all of it exactly when every chain ends; what is missing is exactly what enters a cycle |
| `TimelineThread.OrphansBecomeRows` | apps/mobile/lib/timeline-thread.ts:15-18 | a reply whose parent is not loaded becomes a row |
| `TimelineThread.TwoOnACycleAreLost` | apps/mobile/lib/timeline-thread.ts:49-57 | two comments answering each other give no row at all |
| `TimelineWalk.EndsExactly` | apps/mobile/lib/timeline-thread.ts:70-78 | for every input the walk from an id ends exactly if no id that reply links lead to leads back to itself |
| `TimelineTree.LooksUpOnceExactly` | apps/mobile/lib/timeline-thread.ts:63-80 | for every input the walk from an id ends and looks every id up once exactly if no two replies that it finds share an id and none has the root's |
| `TimelineTree.UniqueIdsEnd` | apps/mobile/lib/timeline-thread.ts:63-80 | with unique comment ids that holds of every top-level comment, whatever cycles there are |
| `TimelineWalk.CollectDescendants` | apps/mobile/lib/timeline-thread.ts:63-80 | wherever the walk ends, the loop ends, with the walk's outcome |
| `TimelineWalk.BuildTimelineRows` | apps/mobile/lib/timeline-thread.ts:37-87 | one row per top-level entry, in input order, with the outcome of its walk, none for activities |
| `TimelineWalk.WalkIsThread` | apps/mobile/lib/timeline-thread.ts:63-80 | the outcome of a walk from any comment is a breadth-first thread in which everything found has been looked up |
| `TimelineTree.UniqueRows` | apps/mobile/lib/timeline-thread.ts:37-87 | with unique comment ids all the walks end and the rows are those the other lemmas are about |
| `TimelineWalk.SharedIdNeverEnds` | apps/mobile/lib/timeline-thread.ts:70-78 | with a comment answering its own id's namesake the walk never ends |
| `TimelineWalk.SharedIdShowsTwice` | apps/mobile/lib/timeline-thread.ts:72-77 | with two replies of one id the walk ends and shows the answer to them twice |
| `TimelineCoalesce.CoalesceTimeline` | apps/mobile/lib/timeline-coalesce.ts:29-58 | the loop computes the fold the lemmas are about |
| `TimelineCoalesce.CoalescedRuns` | apps/mobile/lib/timeline-coalesce.ts:33-56 | the output is the division of the input into longest mergeable runs |
| `TimelineCoalesce.RunsAreOneActors` | apps/mobile/lib/timeline-coalesce.ts:33-47 | a run of two or more is activities of one actor and one action, no evaluation, each two minutes at most from the one before unless they are task results; neighbouring runs could not be one |
| `TimelineCoalesce.CoalescingPartitions` | apps/mobile/lib/timeline-coalesce.ts:8-19 | without prior counts each output entry is its run's last with the run's length, counts add up to the input's length, comments and evaluations stay single |
| `TimelineCoalesce.CountsAddUp` | apps/mobile/lib/timeline-coalesce.ts:48-51 | with prior counts, exactly how much is lost by merging |
| `TimelineCoalesce.ShowsRunEnds` | apps/mobile/lib/timeline-coalesce.ts:48-51 | every output entry is, but for its count, the last of its run, and all the run ends are shown in order |
| `TimelineCoalesce.NewestIsShown` | apps/mobile/lib/timeline-coalesce.ts:15-16 | on chronological input every output entry is as new as the newest entry of its run |
| `TimelineCoalesce.IdempotentExactly` | apps/mobile/lib/timeline-coalesce.ts:29-58 | a second pass changes nothing exactly if no two adjacent run ends of the input merge |
| `TimelineCoalesce.Idempotent` | apps/mobile/lib/timeline-coalesce.ts:29-58 | on chronological input no two neighbours of the output merge, so a second pass changes nothing |
| `TimelineCoalesce.DisorderNeedsASecondPass` | apps/mobile/lib/timeline-coalesce.ts:43-46 | out of order a second pass can change the result |
| `InboxDisplay.SortFacts` | apps/mobile/lib/inbox-display.ts:83-86 | the sort is a stable permutation, newest first |
| `InboxDisplay.GroupByKey` | apps/mobile/lib/inbox-display.ts:74-80 | the map holds each key's items in input order, the keys by first appearance |
| `InboxDisplay.MergeGroup` | apps/mobile/lib/inbox-display.ts:87-102 | the representative of a sorted group |
| `InboxDisplay.DeduplicateInboxItems` | apps/mobile/lib/inbox-display.ts:72-108 | the whole pass, equal to the function the lemmas are about |
| `InboxDisplay.DeduplicatedFacts` | apps/mobile/lib/inbox-display.ts:63-70 | one entry per key of the unarchived items, each its group's newest with its group's newest anchor if it has none, newest first |
| `InboxIssues.OneEntryPerGroup` | apps/mobile/lib/inbox-display.ts:73-105 | said of the items' own fields: no two entries belong to one issue, each shows the newest of the items it belongs with, with the newest comment if it names none and all else unchanged, and every unarchived item has its entry |
| `InboxIssues.OneEntryPerIssue` | apps/mobile/lib/inbox-display.ts:63-67 | an issue has one entry at most, as new as its newest unarchived item, and it has one if no item without an issue that has the issue's id for its own is as new |
| `InboxIssues.LoneItemIsShown` | apps/mobile/lib/inbox-display.ts:64-65 | an item without an issue is shown as it is unless its id is another one's issue or id |
| `InboxDisplay.Idempotent` | apps/mobile/lib/inbox-display.ts:72-108 | deduplicating twice is deduplicating once |
| `InboxOrder.OrderIndependentExactly` | apps/mobile/lib/inbox-display.ts:72-108 | every permutation of the input gives the same list exactly if each group has one possible representative and the newest items of different groups differ in time |
| `InboxOrder.OrderMatters` | apps/mobile/lib/inbox-display.ts:83-107 | otherwise two permutations give different lists |
| `InboxOrder.ShownForSomeOrder` | apps/mobile/lib/inbox-display.ts:83-102 | every possible representative of a group is shown for some order |
| `InboxOrder.DistinctTimesSuffice` | apps/mobile/lib/inbox-display.ts:83-86 | distinct timestamps meet that condition |
| `InboxOrder.SameItemsSameInbox` | apps/mobile/lib/inbox-display.ts:72-108 | under it the list depends only on which unarchived items there are |
| `InboxOrder.TiesDependOnOrder` | apps/mobile/lib/inbox-display.ts:83-86 | two tied items of one issue show whichever came first |
| `MentionSerialize.TokenAtCursor` | apps/mobile/lib/mention-serialize.ts:47-78 | finds the token the cursor is in exactly when there is one |
| `MentionSerialize.TokenOfExactly` | apps/mobile/lib/mention-serialize.ts:53-77 | there is at most one such token |
| `MentionSerialize.InsertRewritesToken` | apps/mobile/lib/mention-serialize.ts:94-105 | only the token is replaced and the caret lands behind the mention's space |
| `MentionSerialize.SerializeMentions` | apps/mobile/lib/mention-serialize.ts:122-175 | the loop weaves the links in exactly when the runs' words are the markers' names in order, and otherwise strips the sentinels |
| `MentionSerialize.LinkAll` | apps/mobile/lib/mention-serialize.ts:134-168 | the walk over the text, giving up at the first mismatch |
| `MentionSerialize.LinkedIsWeave` | apps/mobile/lib/mention-serialize.ts:134-168 | giving up and weaving told apart by the text's own division into gaps and words |
| `MentionRoundTrip.AllOrNothing` | apps/mobile/lib/mention-serialize.ts:113-120 | for any text and markers: the sentinel-free text, or the same text with every run replaced by its own link |
| `MentionRoundTrip.SentinelSurvivesOnlyFromMarkers` | apps/mobile/lib/mention-serialize.ts:170-175 | a sentinel is left exactly when the text is linked and a marker holds one |
| `MentionRoundTrip.RoundTrip` | apps/mobile/lib/mention-serialize.ts:122-175 | composed text sent with its markers links every mention in place exactly when no name holds whitespace |
| `MentionRoundTrip.DraftRoundTrip` | apps/mobile/lib/mention-serialize.ts:85-175 | the same for every draft built by left-to-right typing and picking |
| `MentionRoundTrip.SentWithAnyMarkers` | apps/mobile/lib/mention-serialize.ts:148-155 | with any marker list: links exactly when the names are those of the mentions in text order |
| `MentionRoundTrip.OutOfOrderLinksNothing` | apps/mobile/lib/use-mention-input.ts:168 | two mentions picked right to left link nothing |
| `MentionRoundTrip.OutOfOrderSwapsNamesakes` | apps/mobile/lib/use-mention-input.ts:168 | two namesakes picked right to left are linked to each other's target |
| `MentionReader.BackendReadsMentions` | core/internal/util/mention.go:16 | for every text that holds no link target itself, what is sent is read back by the backend's expression as exactly the mentions picked, each with its kind and id and in order, if they were linked, and as none otherwise |
| `MentionReader.LinksShowText` | apps/mobile/lib/mention-serialize.ts:161-165 | with each link replaced by its label the message is the plain text, with the @ taken off before an issue's name and kept before every other |
| `MentionInput.ActiveMentionPointsAtItsQuery` | apps/mobile/lib/use-mention-input.ts:105-241 | over every run of the handlers an active mention points at an @ after whitespace or the start, followed by exactly its query |
| `MentionInput.HandleKeepsOk` | apps/mobile/lib/use-mention-input.ts:115-241 | each handler keeps that |
| `MentionInput.PickingRewritesOnlyTheQuery` | apps/mobile/lib/use-mention-input.ts:156-172 | after any run a pick rewrites only that run, puts the caret right after and appends one marker |
| `MentionInput.AtButtonOpensBar` | apps/mobile/lib/use-mention-input.ts:137-154 | the toolbar's @ always opens the bar with an empty query at the caret |
| `MentionInput.BarFollowsCaret` | apps/mobile/lib/use-mention-input.ts:99-133 | typing and moving the caret keep everything else and open the bar exactly for the token the caret is in |
| `MentionInput.InsertionReplacesSelection` | apps/mobile/lib/use-mention-input.ts:174-191 | inserting replaces the selection and nothing else, closes the bar and puts the caret behind, or as far before the end as asked |
| `MentionInput.PrefixGoesToLineStart` | apps/mobile/lib/use-mention-input.ts:193-214 | the prefix goes to the start of the line the selection begins in, and the caret stays in front of the same text |
| `MentionInput.AtButtonReplacesSelection` | apps/mobile/lib/use-mention-input.ts:137-153 | the toolbar's @ replaces the selection, with a blank in front unless one or nothing stands there |
| `MentionInput.ResetForgets` | apps/mobile/lib/use-mention-input.ts:234-242 | after a reset nothing of any earlier run is left |
| `MentionInput.Hook.OnChangeText` | apps/mobile/lib/use-mention-input.ts:115-124 | the handler on the hook's fields is the transition of the model |
| `MentionInput.Hook.OnSelectionChange` | apps/mobile/lib/use-mention-input.ts:126-135 | likewise |
| `MentionInput.Hook.OnAtButtonPress` | apps/mobile/lib/use-mention-input.ts:137-154 | likewise |
| `MentionInput.Hook.OnSelectMention` | apps/mobile/lib/use-mention-input.ts:156-172 | likewise |
| `MentionInput.Hook.OnInsertAtCursor` | apps/mobile/lib/use-mention-input.ts:174-191 | likewise |
| `MentionInput.Hook.OnInsertAtLineStart` | apps/mobile/lib/use-mention-input.ts:193-213 | likewise |
| `MentionInput.Hook.OnRestore` | apps/mobile/lib/use-mention-input.ts:225-232 | likewise |
| `MentionInput.Hook.Serialize` | apps/mobile/lib/use-mention-input.ts:215-218 | what would be sent for the current text and markers |
| `MentionInput.Hook.OnReset` | apps/mobile/lib/use-mention-input.ts:234-241 | likewise |
| `CodexBackfill.GoAgreesWithSql` | core/cmd/backfill_codex_usage_cache/main.go:323-329 | the helper in Go computes what the SQL clamps to, which takes away the cached part or all there is if that is less |
| `CodexBackfill.BatchIsOldestFirst` | core/cmd/backfill_codex_usage_cache/main.go:262-277 | a batch is the oldest eligible rows, as many as asked for or all there are |
| `CodexBackfill.CorrectionEndsEligibility` | core/cmd/backfill_codex_usage_cache/main.go:269-281 | a correction ends a row's eligibility exactly when the clock is past the cutoff or nothing is left to subtract |
| `CodexBackfill.BatchKeepsProgress` | core/cmd/backfill_codex_usage_cache/main.go:262-286 | a batch corrects only rows not corrected before and takes exactly those off the eligible set |
| `CodexBackfill.AnyBatchingIsOnePass` | core/cmd/backfill_codex_usage_cache/main.go:289-308 | for every batch size, interruption and rerun the end is the table of one pass; tokens removed are the dry run's overcount, rows the initially eligible |
| `CodexBackfill.RoundsConserve` | core/cmd/backfill_codex_usage_cache/main.go:278-286 | at any clock, input left plus tokens removed is the input at the start |
| `CodexBackfill.RoundsCountRows` | core/cmd/backfill_codex_usage_cache/main.go:294-298 | rows reported are rows taken off the eligible set |
| `CodexBackfill.DryRunBalances` | core/cmd/backfill_codex_usage_cache/main.go:183-187 | input before is input after plus overcount |
| `CodexBackfill.OnePassRowExactly` | core/cmd/backfill_codex_usage_cache/main.go:269-281 | at any clock, a finished run leaves an eligible row at what one pass leaves exactly if it is clamped to zero anyway or no batch took it before the cutoff |
| `CodexBackfill.OverRemovalExactly` | core/cmd/backfill_codex_usage_cache/main.go:278-286 | at any clock, a finished run removes at least the dry run's overcount, and exactly that if and only if no batch took a row with something left before the cutoff |
| `CodexBackfill.LaggingClockZeroes` | core/cmd/backfill_codex_usage_cache/main.go:280-281 | with the database clock behind the cutoff throughout, every eligible row ends at zero |
| `CodexBackfill.CrossingClockCorrectsTwice` | core/cmd/backfill_codex_usage_cache/main.go:280-281 | with a clock that crosses the cutoff between two batches a row is corrected twice and ends in between |
| `CodexBackfill.TaskUsage.RunBatch` | core/cmd/backfill_codex_usage_cache/main.go:262-292 | one statement: the new table, the rows and tokens it reports, and that an empty batch means none is eligible |
| `CodexBackfill.TaskUsage.ExecuteBackfill` | core/cmd/backfill_codex_usage_cache/main.go:260-309 | the loop ends; its table is that of the batches made, one of which may have failed after it took effect, its totals those of the batches confirmed, and a finished run is one pass |
| `CodexScope.OnlyOvercountedChange` | core/cmd/backfill_codex_usage_cache/main.go:262-287 | whatever the batches and the clock, a row that changes was of provider "codex", had input and cached tokens, was dated before the cutoff and in the workspace asked for; it loses input and is dated, and nothing else changes |
| `CodexScope.FinishedRunChangesExactly` | core/cmd/backfill_codex_usage_cache/main.go:262-287 | a run that leaves no such row changed exactly the rows that were such, and past the cutoff to the input less the cached tokens, at least zero |
| `CodexScope.SummaryAddsUp` | core/cmd/backfill_codex_usage_cache/main.go:180-200 | the summary's five figures are the sums over exactly those rows |
| `CodexScope.GroupAddsUp` | core/cmd/backfill_codex_usage_cache/main.go:180-200 | each group's figures are the sums over those of its workspace and UTC day |
| `CodexBackfill.GroupsCoverAll` | core/cmd/backfill_codex_usage_cache/main.go:198-199 | the summary's groups together count every eligible row once |
| `CodexBackfill.LoadDryRunSummary` | core/cmd/backfill_codex_usage_cache/main.go:206-233 | the accumulated total is that of all eligible rows, and it balances |
| `CodexBackfill.RebuildCoversRun` | core/cmd/backfill_codex_usage_cache/main.go:319-321 | every row a run changed is dated within the window its rollup is rebuilt over |
| `CodexBackfill.WindowCoversExactly` | core/cmd/backfill_codex_usage_cache/main.go:319-321 | after an interruption and a rerun, the rerun's window covers every row the two corrected exactly if no batch of the first is more than a second older than the rerun's start |
| `CodexBackfill.RerunRebuildsExactly` | core/cmd/backfill_codex_usage_cache/main.go:121-150 | the rollup is rebuilt for all of them exactly if the first corrected none, or the rerun corrected some and that holds |
| `CodexBackfill.RerunRebuildsOnlyItsOwn` | core/cmd/backfill_codex_usage_cache/main.go:121-150 | what a run more than a second older corrected is neither in the window nor corrected again |
| `Calendar.MonthLength` | core/cmd/backfill_task_usage_hourly/main.go:154-155 | months follow one another at 28 to 31 days, across year ends and by the leap-year rule |
| `Calendar.StartIncreases` | core/cmd/backfill_task_usage_hourly/main.go:217-219 | month starts increase, so they divide time |
| `Calendar.AddMonthsToFloor` | core/cmd/backfill_task_usage_hourly/main.go:129-130 | adding months to a floored instant gives the floor of the later month |
| `HourlyBackfill.SlicesTile` | core/cmd/backfill_task_usage_hourly/main.go:152-158 | every instant of the range is in exactly one slice and no other instant in any |
| `HourlyBackfill.WindowsJoin` | core/migrations/102_task_usage_hourly_pipeline.up.sql:274-402 | two adjacent windows have the effect of one |
| `HourlyBackfill.SlicesAreOneWindow` | core/cmd/backfill_task_usage_hourly/main.go:152-180 | the month-by-month run has the effect of a single window over the whole range |
| `HourlyBackfill.RerunIsOneRun` | core/cmd/backfill_task_usage_hourly/main.go:25-28 | a run stopped anywhere and begun again from any month reached leaves what one uninterrupted run would |
| `HourlyBackfill.WindowExactly` | core/migrations/102_task_usage_hourly_pipeline.up.sql:274-402 | from any table and queue, a window leaves what the raw rows call for exactly if each bucket called for or present is touched in it, queued before its end, or right already |
| `HourlyBackfill.SlicesExactly` | core/cmd/backfill_task_usage_hourly/main.go:152-180 | the same of a run over any months, also one that resumes after the raw rows have changed |
| `HourlyBackfill.FullRunExactly` | core/cmd/backfill_task_usage_hourly/main.go:117-180 | for a run over all months only updates after the last month with a creation can be missed |
| `HourlyBackfill.CalendarMonthsTile` | core/cmd/backfill_task_usage_hourly/main.go:152-158 | calendar months, with leap years, tile time |
| `HourlyBackfill.CalendarRunExactly` | core/cmd/backfill_task_usage_hourly/main.go:117-180 | the full run on calendar months |
| `HourlyBackfill.LateUpdateMissed` | core/cmd/backfill_task_usage_hourly/main.go:117-130 | a row created in one month and updated in the next is left out |
| `HourlyBackfill.QueueIsHonoured` | core/migrations/102_task_usage_hourly_pipeline.up.sql:311-398 | buckets queued as dirty before the end come right or go, and leave the queue |
| `HourlySums.BucketAddsUp` | core/migrations/102_task_usage_hourly_pipeline.up.sql:331-336 | a bucket's four token sums, its distinct tasks and its events are those of the rows of its group created in its hour |
| `HourlySums.EveryRowCountedOnce` | core/migrations/102_task_usage_hourly_pipeline.up.sql:323-349 | all the buckets together hold, in every figure, what the rows with a runtime hold |
| `HourlySums.WindowDoes` | core/migrations/102_task_usage_hourly_pipeline.up.sql:282-398 | a window recomputes or removes the buckets with a row updated in it, or created where no update is recorded, and those queued before its end; it leaves all others and later queue entries |
| `HourlySums.RefusedExactly` | core/cmd/backfill_task_usage_hourly/main.go:132-143 | a run is refused exactly if it is not forced and rows are older than the month it is told to go back to |
| `HourlySums.RangeExactly` | core/cmd/backfill_task_usage_hourly/main.go:129-149 | the range ends with the newest row's month and begins with the oldest row's, or with the month told if that leaves rows out |
| `HourlyBackfill.Warehouse.StampWatermark` | core/cmd/backfill_task_usage_hourly/main.go:200-215 | five minutes before now, if the state row exists and the update takes effect, whether or not it reports success |
| `HourlyBackfill.Warehouse.Range` | core/cmd/backfill_task_usage_hourly/main.go:129-148 | the slices begin at the earliest row's month or the cutoff; a range that abandons rows is refused unless forced |
| `HourlyBackfill.Warehouse.RunSlices` | core/cmd/backfill_task_usage_hourly/main.go:152-180 | the loop ends, and leaves the slices confirmed, one that failed after it was committed, and no others |
| `HourlyBackfill.Warehouse.Run` | core/cmd/backfill_task_usage_hourly/main.go:117-194 | the watermark moves only after every slice is confirmed; a dry run, a refusal, a failed slice and a cancellation leave it; the table is that of the slices made |
| `HourlyBackfill.Warehouse.Backfill` | core/cmd/backfill_task_usage_hourly/main.go:117-194 | from any table and queue and with any flags, a run that reports success leaves the right table exactly if its range covers what was not right before |
| `Notifications.MutingAGroup` | core/cmd/server/notification_listeners.go:98-104 | muting a group mutes the kinds of that group and no others |
| `Notifications.RowsExactly` | core/cmd/server/notification_listeners.go:218-364 | how many rows each user gets, whatever fails |
| `Notifications.ExactlyOne` | core/cmd/server/notification_listeners.go:218-364 | when inserts succeed, each member of the child's, the parent's or both lists who is not actor, excluded or muted gets one row, others none |
| `Notifications.TwiceExactly` | core/cmd/server/notification_listeners.go:253-268 | never more than two rows, and two exactly when the first was stored without being confirmed and the second was not refused |
| `Notifications.ParentMakesGood` | core/cmd/server/notification_listeners.go:253-268 | an insert refused in the first pass is made good by the second |
| `Notifications.NeverTo` | core/cmd/server/notification_listeners.go:309-330 | actor, agents, excluded and muted users and strangers get nothing |
| `Notifications.OnlyStatusBubbles` | core/cmd/server/notification_listeners.go:237-240 | other kinds never reach subscribers of the parent alone |
| `Notifications.UnreadMuteDelivers` | core/cmd/server/notification_listeners.go:123-130 | a mute that cannot be read does not hold |
| `Notifications.ReassignmentTellsOnce` | core/cmd/server/notification_listeners.go:599-653 | a reassignment gives a person two rows exactly when the same person is taken off and put on again |
| `NotificationRows.SubscriberRowsExactly` | core/cmd/server/notification_listeners.go:218-366 | exactly which rows are stored: of the event's kind, issue and actor, for the members addressed through the issue or, for a change of status, its parent |
| `NotificationRows.AssigneeRowsExactly` | core/cmd/server/notification_listeners.go:616-654 | exactly which rows a change of assignee stores: "issue_assigned" to the new one, "unassigned" to the old one if a member, "assignee_changed" to the other subscribers |
| `NotificationRows.MutedKinds` | core/cmd/server/notification_listeners.go:80-104 | which kinds each of the five settings mutes |
| `Notifications.Inbox.NotifyIssueSubscribers` | core/cmd/server/notification_listeners.go:275-364 | the rows and events added, in list order, and the users confirmed |
| `Notifications.Inbox.NotifySubscribers` | core/cmd/server/notification_listeners.go:218-268 | both passes together |
| `Notifications.Inbox.NotifyDirect` | core/cmd/server/notification_listeners.go:368-425 | the single row and its event, or none |
| `Notifications.Inbox.AssigneeChanged` | core/cmd/server/notification_listeners.go:599-653 | the rows and events of an assignee change |
| `LogTail.TailStart` | core/cmd/silieco/cmd_daemon_windows.go:132-156 | for every file, count and buffer size: just after the newline that leaves as many as asked, or the start |
| `LogTail.TailUnique` | core/cmd/silieco/cmd_daemon_windows.go:148-152 | there is one such place |
| `LogTail.TailShowsLastLines` | core/cmd/silieco/cmd_daemon_windows.go:129-163 | what is printed is the last complete lines asked for and an unterminated one after them |
| `IdResolver.ResolvesExactly` | core/cmd/silieco/cmd_id_resolver.go:95-117 | a prefix resolves exactly when one candidate alone has it, and is not found exactly when none has |
| `IdResolver.OutcomeExactly` | core/cmd/silieco/cmd_id_resolver.go:76-117 | every outcome with its exact case: the one match with its id and its name, all the matches in list order, nothing found, nothing fetched, a bad prefix, a full id, no id |
| `IdResolver.HexDigits` | core/cmd/silieco/cmd_autopilot.go:773 | which characters a full id is made of, dashes aside |
| `IdResolver.CompactIsPlain` | core/cmd/silieco/cmd_id_resolver.go:72-74 | the compact form has no dashes and no capitals, and what has neither nor outer blanks is its own |
| `IdResolver.LongerPrefixAgrees` | core/cmd/silieco/cmd_id_resolver.go:85-117 | once a prefix resolves, every longer prefix of that id resolves to it, the full dashed id included |
| `IdResolver.FullIdIsItself` | core/cmd/silieco/cmd_id_resolver.go:81-83 | a full id resolves to itself |
| `IdResolver.SpellingDoesNotMatter` | core/cmd/silieco/cmd_id_resolver.go:55-74 | a dash put in, letters in another case and blanks around the input leave its normal form and its resolution unchanged |
| `IdResolver.NormalizePrefix` | core/cmd/silieco/cmd_id_resolver.go:55-70 | accepted exactly if the compact form is at least four lower-case hexadecimal digits, and then that form |
| `IdResolver.CollectedDistinct` | core/cmd/silieco/cmd_id_resolver.go:221-254 | against any server the result has each id once and no empty one |
| `IdResolver.CollectsAllExactly` | core/cmd/silieco/cmd_id_resolver.go:216-274 | against a stable list the collection is whole and in order exactly when pages are not capped below fifty or one page holds all |
| `IdResolver.IgnoringOffsetIsHarmless` | core/cmd/silieco/cmd_id_resolver.go:257-259 | a server that ignores limit and offset does no harm |
| `IdResolver.FetchCandidates` | core/cmd/silieco/cmd_id_resolver.go:216-274 | the loop ends over any finite universe of ids, whatever the server answers, with the collection or an error |
| `IdResolver.ResolveAutopilotId` | core/cmd/silieco/cmd_id_resolver.go:76-117 | fetching and matching together |
| `ShellQuote.ArgIsRead` | core/cmd/silieco/cmd_daemon.go:1637-1650 | wherever it stands outside quotes a quoted argument adds exactly the argument to the word being read |
| `ShellQuote.OneWord` | core/cmd/silieco/cmd_daemon.go:1637-1650 | read by the POSIX rules for backslash and single quotes it is the one word it was made from |
| `ShellQuote.LineRoundTrip` | core/cmd/silieco/cmd_daemon.go:1619 | a line of quoted arguments reads back as those arguments |
| `AttachmentLabel.ScanEscaped` | core/cmd/silieco/cmd_attachment.go:118-126 | the scan to the first unescaped bracket stops after the label and leaves the rest intact |
| `AttachmentLabel.UnescapeEscaped` | packages/ui/markdown/file-cards.ts:116 | unescaping undoes escaping for every name |
| `AttachmentLabel.SnippetParses` | packages/ui/markdown/file-cards.ts:56-58 | one line of snippet parses to its name and address exactly when the address is allowed |
| `AttachmentLabel.CardRoundTrip` | packages/ui/markdown/file-cards.ts:107-129 | the rendered card has the file's own name exactly when the address is allowed and neither holds a line break |
| `AttachmentLabel.CardLineIsSnippet` | packages/ui/markdown/file-cards.ts:56-58 | a line that is read as a card is, outer blanks aside, a snippet whose label reads as the card's name, with an allowed address |
| `AttachmentLabel.AddressAllowed` | packages/ui/markdown/file-cards.ts:26-40 | exactly which addresses a card may have: uploads, http and https with something behind, the download of a full id, none with a closing parenthesis |
| `ByteFormat.ChooseUnit` | core/cmd/silieco/cmd_daemon.go:1722-1734 | the unit is the largest power of 1024 the count reaches, and its prefix exists for every 64-bit count |
| `ViewedIssues.ListsKeepUp` | apps/mobile/data/viewed-issues-store.ts:36-52 | in every run each list is distinct, at most ten long, a prefix of the unbounded recency order, and short of it by no more than the removals |
| `ViewedIssues.RecencyExactly` | apps/mobile/data/viewed-issues-store.ts:15-18 | the history compared with is the ids whose last event was a view, latest first |
| `ViewedIssues.PushOnlyIsFirstTen` | apps/mobile/data/viewed-issues-store.ts:36-41 | without removals it is exactly the ten most recent |
| `ViewedIssues.OthersDoNotMatter` | apps/mobile/data/viewed-issues-store.ts:36-52 | a workspace's list depends on that workspace's events only |
| `ViewedIssues.InListExactly` | apps/mobile/data/viewed-issues-store.ts:36-52 | with removals, an id is in the list exactly if it has been among the ten most recent ever since it was last put in |
| `ViewedIssues.FirstTenExactly` | apps/mobile/data/viewed-issues-store.ts:36-52 | the list is the ten most recent exactly if that holds of each of them |
| `ViewedIssues.RemovalLeavesAGap` | apps/mobile/data/viewed-issues-store.ts:42-52 | eleven views and the deletion of the last leave nine of the ten remembered |
| `ViewedIssues.NextViewFillsTheGap` | apps/mobile/data/viewed-issues-store.ts:36-52 | one more view of a new issue makes the list the ten most recent again |
| `ViewedIssues.Store.Push` | apps/mobile/data/viewed-issues-store.ts:36-41 | the store stays the run of its log |
| `ViewedIssues.Store.Remove` | apps/mobile/data/viewed-issues-store.ts:42-52 | likewise |
| `ViewedIssues.Store.Select` | apps/mobile/data/viewed-issues-store.ts:64-67 | what a screen is given keeps up with the workspace's history |

## Left out

- Databases: locking beyond "the lock has one holder", rows skipped because another session locks them, concurrent
  writers to the tables a backfill walks, and 64-bit overflow of sums.
- `core/cmd/backfill_codex_usage_cache/main.go:159-176`: date parsing of the cutoff; that it lies before now, by the
  database's clock, is the assumption of `CodexBackfill.AnyBatchingIsOnePass`.
- The hook's own body (`core/cmd/migrate/main.go:56-90`) and the SQL files: only when they run is modelled.
- Invalid directions and table names of `runMigrations`: rejected before the lock is taken.
- `context` cancellation of a readiness check is one of its failing queries.
- `ReadinessCache.StepKeepsInv`: the clock never goes back, as Go's monotonic readings guarantee.
- `TimelineWalk.CollectDescendants`: inputs on which the walk does not end, given exactly by `TimelineWalk.EndsExactly`.
- `TimelineCoalesce.CoalescingPartitions`: for input without prior counts; `TimelineCoalesce.CountsAddUp` says what
  prior counts lose.
- `MentionRoundTrip.DraftRoundTrip`: for drafts picked from left to right; other orders are
  `MentionRoundTrip.SentWithAnyMarkers` and the two counterexamples.
- React rendering: each handler is one atomic transition on the latest state; the raw text setter is not a handler.
- Strings are sequences of characters: UTF-16 surrogates and bytes of invalid UTF-8 are not modelled, and lower-casing
  changes ASCII letters only.
- Parsing of timestamps: they are integers.
- `HourlyBackfill.FullRunExactly`: no row is dated before its creation; `HourlyBackfill.SlicesExactly` does without that.
- `MigrateRunner.Database.RunMigrations`: a lost session and the death of the process in mid-call are steps of `Migrate`
  only, since a call that dies does not return.
- `IdResolver.CollectsAllExactly`: the list does not change between requests; a server that changes it is covered by
  `IdResolver.CollectedDistinct` only.
- `IdResolver.ResolveAutopilotId`: the order in which an ambiguity error lists its matches.
- `ShellQuote.Words` stops at any unquoted character with a meaning of its own instead of expanding it.
- `AttachmentLabel.CardRoundTrip`: the older `[name](url)` syntax, image snippets and the HTML output.
- `ByteFormat.ChooseUnit`: the decimal digits.
- `LogTail.TailStart`: the file does not shrink during the scan; following and rotation are not modelled.
- `Notifications.Inbox.AssigneeChanged`: an assignee has a type and an id or neither; the event's payload decoding.
- Mentions in notifications (`notifyMentionedMembers`), archiving of stale failure rows, labels and texts of rows.
- HTTP, JSON, logging, metrics, signals and throttling pauses other than their cancellation.
