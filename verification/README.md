# Verified models of Zammad's small stateful engines

Zammad is a helpdesk written in Ruby on Rails. Between its requests and its tables sit a number of small engines
that keep state of their own and have to get details right that no single method shows: a cache shared by several
processes, threads that register themselves, a package installer that must be able to undo itself, transactions
inside transactions, callbacks that save the records whose callbacks they are. This project models these engines
in Dafny and proves what holds of all their inputs, runs and reachable states. Where a property that one would
expect does not hold of the code, the code is kept as it is and a lemma says exactly when it does hold.

`dafny verify dfyconfig.toml` checks everything.

## How the files belong together

| files | engine |
|---|---|
| `Interpolation`, `SettingCache`, `SettingRuns`, `SettingDefaults` | the settings cache of `app/models/setting.rb`: the `#{config.name}` templates, one process, runs of many processes, and what these read after saves and resets |
| `SchedulerRetry`, `SchedulerThreads`, `SchedulerGiveUp`, `SchedulerTiming`, `SchedulerRounds` | `app/models/scheduler.rb`: the retry window, main loop and job threads as interleaved steps, the run that breaks their exclusion, when threads are started and end, and what one consideration of a job amounts to |
| `PackageFiles`, `PackageHealing`, `PackageManager`, `PackageVersions` | `app/models/package.rb`: files and `.save` backups, when a reinstallation repairs a tree, the package table, refusals and the versions in any history |
| `EventBuffer`, `EventCoalescing`, `EventReports` | `lib/event_buffer.rb` and `lib/transaction_dispatcher.rb`: one item for each changed object, and what it says of the events |
| `Transactions`, `TransactionLaws`, `TransactionEffects`, `TransactionScopes` | `app/models/transaction.rb` and `lib/push_messages.rb`: nested blocks, push messages and events, what blocks leave behind in the thread, and what the code inside them finds |
| `Calendars` | `app/models/calendar.rb`: callbacks that keep one default calendar |
| `Decimal`, `Base64`, `Splitting`, `FormToken` | the token of `app/controllers/form_controller.rb` (base 64 after section 4 of RFC 4648) |
| `Overviews` | `app/models/overview.rb`: priorities and links |
| `SignatureDetection`, `SignatureContent` | `lib/signature_detection.rb`, `find_signature`, and what text a signature consists of |
| `SelectorCompiler`, `SelectorWords`, `SelectorMeaning` | `lib/search_index_backend.rb`, `selector2query`: the compilation, the words of a text, and what holds whatever the clauses match |
| `Globs`, `SearchEngine`, `SelectorExactness`, `SelectorAgreement` | documents, what clauses match and what conditions ask for, and exactly when the two are the same |
| `DatabaseQueries`, `DatabaseSelectors` | `selector2sql` in `app/models/ticket.rb`: the same conditions as SQL, what a database with NULL makes of it, and exactly when that is what they ask for |
| `StorePreferences` | `app/models/store.rb`: shrinking of a preferences hash |
| `Prelude`, `Texts` | `Option`, `Result` and map lookup; blank and included texts |

Objects that the program changes in place are classes (`Process`, `Shared`, `FileTree`, `Packages`, `EventBuffer`,
`ThreadState`, `CalendarTable`, `OverviewTable`, `Selector`, `Row`, `Job`); each method is proved equal to a
specification function of the old state, and the laws are proved of these functions. The scheduler's threads and the
runs of the settings processes are state machines over atomic steps.

## What turned out not to hold

* A save that leaves a setting's value as it is does not touch the row, but still puts the bare template into the
  cache. If the process was up to date, it then reads that template, not its interpolation, until some row changes
  (`SettingRuns.NoopSaveExact`). In all other respects reads are never stale (`SettingRuns.BoundedStaleness`).
* If another process saves between the reading of the rows and the reading of the change id in `load`, the old
  values stay as long as the shared cell holds that id, which can be a day (`SettingRuns.TornLoadStaysStale`).
  `load` is therefore one step in the runs.
* A job that fails ten times can end up executing in two threads at once (`SchedulerGiveUp.GivingUpBreaksExclusion`);
  this takes a thread that is started while one that has given up is not yet at its end
  (`SchedulerThreads.MutualExclusion`).
* A job can be started again before its period has passed: the main loop goes by the row as it was loaded, and a thread
  that begins and ends in the meantime leaves the slot free (`SchedulerTiming.StartedBeforeItIsDue`).
* A package that ships a file just as it was loses that file when it is uninstalled (`PackageFiles.UndoIsExact`).
  An upgrade with a refused location removes the old version and leaves files without a record
  (`PackageManager.InstallOfNewerExactly`).
* A reinstallation does not repair a package in which one file's backup goes where another file was written
  (`PackageHealing.ReinstallHealsExactly`).
* Push messages are delivered twice if a later delivery of the same block raises
  (`TransactionLaws.DeliveredOnceExactly`).
* The push buffer can stay open after a block whose end raises (`TransactionEffects.BufferIsLeftExactly`); events
  taken by a commit that then raises never reach all backends and jobs (`TransactionEffects.EventsAreLostExactly`);
  a block whose commit runs backends loses the current user unless it resets the user id
  (`TransactionEffects.UserIsLostExactly`); a bulk block turns the flag off even inside another bulk block
  (`TransactionEffects.BulkIsTurnedOffExactly`); and the dispatcher never sees the interface handle of the block
  itself (`TransactionEffects.DispatchGetsTheOuterHandle`).
* Two default calendars that exist already are not repaired by saving a third (`Calendars.TwoDefaultsStay`).
* While a new default calendar is saved, an SLA without a calendar can get the old default, whose flag is cleared
  right after (`Calendars.MendedSlaMissesTheDefault`, and exactly when in `Calendars.MendedSlaHasTheDefaultExactly`).
* Not every condition of a selector is compiled to a query that finds what the condition asks for;
  `SelectorAgreement.ConditionAgreesExactly` says for all operators which are. Among those that are not: texts
  without a letter in text fields, which are compared with single terms; '*', '?' and '\' in "contains", which act as
  wildcards; the word operators, which find phrases inside a tag and all words but the first in any field; "not set"
  on another table than the ticket (`SelectorMeaning.TableIsRespectedExactly`), and on fields for users where the
  field is absent; the users for whom the current user stands in; and times at the very edge. "within next" has no
  lower bound and is the same as "till" (`SelectorAgreement.WithinNextIsTill`).
* Some conditions become queries that the engine refuses, so that nothing is found, whatever the other conditions of
  the selector: an attribute of a user without an organization compared with it, "contains" with a list that has a
  text in it, a comparison with nil (`SelectorAgreement.EngineAcceptsExactly`, `SelectorAgreement.FoundExactlyByAll`).
* The database does not find the same either. "contains" there ignores case and takes '%' and '_' for wildcards, makes
  one text of a list, and "contains not" misses absent fields (`DatabaseSelectors.DatabaseContainsExactly`);
  "contains all" fails for a tag named twice, and "contains all not" is taken for none of the tags
  (`DatabaseSelectors.DatabaseTagsExactly`); "is not" with an empty list finds nothing or absent fields only
  (`DatabaseSelectors.DatabaseEqualityExactly`).
* Compiling a selector with "contains" and a list leaves asterisks in the caller's list, so that a second compilation
  gives another query (`SelectorMeaning.CompilingAgain`).
* The comment in `lib/signature_detection.rb` speaks of blocks of five to ten lines; the code needs six.

## Hypotheses

* Settings: a save that changes a row gives it an `updated_at` above all others, change ids are new, rows are not
  deleted, and `load`, `set`, `reset` and the creation of a setting are one step each. The change-id cell may expire,
  processes may start at any time, and the clock does not run backwards.
* Scheduler: one step is one access to shared state. Mutual exclusion is claimed for jobs of which no thread is
  started while another one has run out of retries and not yet come to its end.
* Form token: encryption is any pair of functions of which one undoes the other, and the sealed text is not empty. That
  nothing opens but what was sealed for a token is assumed in `OnlyIssuedTokensAreAccepted` alone.
* Selector: `SelectorMeaning` leaves open what a clause matches. Conditions mean what their names say, as they are
  listed in `app/models/ticket.rb:504-549` and used in `spec/lib/search_index_backend_spec.rb`: equality with one of
  the values, a text as a part of a text, a tag in a list, a time between two; "not" is the complement. Numbers contain
  only themselves. The engine of `SearchEngine` compares numbers by their decimal text, raw texts as a whole, and other
  texts by their terms; what is assumed of terms and phrases is in `Analyses` and excludes scripts that are split
  character by character. The database of `DatabaseSelectors` is PostgreSQL. Tickets have a numeric `owner_id`, and the
  index has more than one text field.

## Model

| member | source | states |
|---|---|---|
| Interpolation.PlaceholderIsReplaced | app/models/setting.rb:123-125 | where no placeholder starts before it, exactly the placeholder gives way to the stored text of its name, which is not scanned again |
| Interpolation.SubstitutionIsLocal | app/models/setting.rb:123-125 | a cached text depends on the values it refers to and on no others |
| Interpolation.PlaceholderExactly | app/models/setting.rb:123 | the scan takes a placeholder if and only if the text begins with the opening, a name of at least one character without line breaks, whose later characters are no closing braces, and a closing brace |
| Interpolation.PlainTextStays | app/models/setting.rb:123-125 | a text without a placeholder anywhere stays as it is |
| SettingCache.Process.TakeOver | app/models/setting.rb:115-117 | whatever the order of the rows, the raw values are the old ones overlaid with the rows read |
| SettingCache.Process.RenderAll | app/models/setting.rb:118-126 | whatever the order of the hash, the cache is the old one overlaid with the one-pass interpolation of all raw values |
| SettingCache.Process.CacheValid | app/models/setting.rb:160-174 | the cache is valid within the timeout or while the change ids match; only a match renews the lookup time |
| SettingCache.Process.Load | app/models/setting.rb:98-132 | the whole state of the process after a load, forced or not, valid cache or not, incremental or full |
| SettingCache.Process.Get | app/models/setting.rb:54-57 | the state after the implied load and the value found in it |
| SettingCache.Process.Set | app/models/setting.rb:34-44 | unknown names change nothing; otherwise the row, the shared change id and the process's cache are as a save leaves them, also if the value is the same as before |
| SettingCache.Process.Reset | app/models/setting.rb:69-80 | the same for going back to the initial value, with and without force |
| SettingCache.Process.Create | app/models/setting.rb:8-9 | a new row keeps its value as the initial one and is announced like a save; a taken name is refused |
| SettingCache.Process.ForceReload | app/models/setting.rb:90-93 | a forced reload forgets the last change and reads everything |
| SettingCache.Process.ResetChangeId | app/models/setting.rb:141-148 | the bare value goes into the cache, the lookup time is cleared and the change id is published |
| SettingCache.Shared.QueryLatest | app/models/setting.rb:104 | the greatest updated_at of the table, none if it is empty |
| SettingRuns.IncrementalReloadIsFull | app/models/setting.rb:103-127 | in every synced state, reading only the newer rows ends with the raw values and the cache that a from-scratch read and one interpolation would give; only if there are none, names saved bare keep their template |
| SettingRuns.StepKeepsSynced | app/models/setting.rb:98-174 | every step of any process, saves that change nothing included, keeps each process synced with the table but for names that it has itself saved bare since the last change |
| SettingRuns.ReloadInARunIsFull | app/models/setting.rb:103-127 | in every run of any number of processes each reload is as good as a full one, but for such names if there is nothing to read |
| SettingRuns.BoundedStaleness | app/models/setting.rb:54-57 | in every run, a read returns the interpolated value that the table held now or less than the timeout ago, and never from before the reader's own last save; the bare template only if the reader itself saved it unchanged and no row was changed from then to that moment |
| SettingRuns.BareNamesWereSaved | app/models/setting.rb:141-148 | a name that a process may hold bare comes from such a save of its own |
| SettingRuns.OwnSaveIsSeenAtOnce | app/models/setting.rb:141-148 | a process that has set a value reads its interpolation at once, as long as nobody saves after it; if the value was the same as before, provided it was behind or the value has nothing to fill in |
| SettingRuns.TornLoadStaysStale | app/models/setting.rb:129-145 | a load overtaken by another save before it reads the change id keeps the old values within the timeout and while the cell holds that id; once it has expired or been replaced, the next load reads the missed row and is right |
| SettingRuns.NoopSaveSkipsRendering | app/models/setting.rb:114-127 | after a save that changes nothing an up-to-date process finds no newer row and keeps the bare value |
| SettingRuns.NoopSaveExact | app/models/setting.rb:141-148 | for every synced process: its next read is right if and only if it was behind or interpolation would not change the value |
| SettingRuns.NoopSaveOfATemplate | app/models/setting.rb:142 | a host name and a URL built from it for which it is wrong |
| SettingDefaults.ChangeIsSeen | app/models/setting.rb:141-174 | in every run a changed value is read by the saving process at once and by every other process when the timeout has passed |
| SettingDefaults.ResetRestores | app/models/setting.rb:69-80 | in every run, after a reset the table holds the value the setting was created with, whatever was saved since, and reads return its interpolation likewise |
| SettingDefaults.OneLookUpWithinTheTimeout | app/models/setting.rb:160-174 | a read that has to look whether the cache is valid renews it: until the timeout has passed the process's reads are answered from its cache, unless it saves or reloads itself |
| SchedulerRetry.TriesIsTheTrailingRun | app/models/scheduler.rb:305-312 | the try counter is at least n exactly if the last n gaps between failures are at most 300 seconds, so it is the length of the trailing run of short gaps |
| SchedulerRetry.StartJob | app/models/scheduler.rb:281-330 | for any sequence of outcomes: the job is deactivated at exactly the first failure that ends ten short gaps in a row, and otherwise ends by success or a fatal exception with its active flag untouched |
| SchedulerRetry.TenQuickFailures | app/models/scheduler.rb:305-330 | if no gap is longer than the window, the tenth failure is the last |
| SchedulerThreads.MainStepKeepsOneHolder | app/models/scheduler.rb:44-58 | each step of the main loop keeps: at most one thread holds the job, and it is the registered one, the one whose handle is being stored, or one that has given up; unless it starts a thread while one that has given up holds the job |
| SchedulerThreads.ThreadStepKeepsOneHolder | app/models/scheduler.rb:230-330 | each step of a job thread keeps it, giving up, ends and crashes at any moment included |
| SchedulerThreads.RunKeepsOneHolder | app/models/scheduler.rb:71-107 | it holds in every state of every run without such a start |
| SchedulerThreads.MutualExclusion | app/models/scheduler.rb:44-58 | in all these runs at most one thread executes the job's body |
| SchedulerThreads.MutualExclusionWithoutGivingUp | app/models/scheduler.rb:44-58 | so in every interleaving in which no thread of the job has run out of retries |
| SchedulerGiveUp.GivingUpBreaksExclusion | app/models/scheduler.rb:320-329 | there is a run with ten quick failures that ends with two threads executing the same job |
| SchedulerTiming.StartedExactlyWhenDue | app/models/scheduler.rb:44-54 | in every run a thread comes into being if and only if the main loop looks at its job and the row, as it was last loaded, is due: never run, without a period, or run at least a period ago; and then that row was active |
| SchedulerTiming.StartedBeforeItIsDue | app/models/scheduler.rb:44-54 | there is a run in which a thread is started although the row in the table is not due |
| SchedulerTiming.RoundsAreLimited | app/models/scheduler.rb:237-262 | in every run a thread makes at most 1800 rounds, and one only unless its job has a period of at most five minutes |
| SchedulerTiming.LoopEndsExactly | app/models/scheduler.rb:243-272 | after a round it goes on if and only if its job has such a period and the row is still there, active and with a period, and this was not round 1800; it leaves the slot taken if and only if the row of such a job is gone |
| SchedulerRounds.RunningJobIsSkipped | app/models/scheduler.rb:71-91 | a consideration of a job whose thread is alive changes nothing |
| SchedulerRounds.EarlyJobIsPassedOver | app/models/scheduler.rb:48-51 | one of a job that is neither running nor due removes at most a dead handle |
| SchedulerRounds.DueJobIsStarted | app/models/scheduler.rb:48-54 | one of a job that is due and not running starts a thread with the loaded row and registers it, also over a dead handle |
| SchedulerRounds.CrashedJobIsStartedAgain | app/models/scheduler.rb:93-106 | a job whose thread has crashed is started again at its next turn |
| SchedulerRounds.SuccessfulPass | app/models/scheduler.rb:230-290 | a thread without a loop whose job succeeds notes when it ran, frees the slot and ends, and changes nothing else |
| SchedulerRounds.EveryActiveJobHasItsTurn | app/models/scheduler.rb:44-58 | in every run, between two loads of the list each job that was active has its turn, in the order of priorities |
| SchedulerRounds.RowsTellTheLastAttempt | app/models/scheduler.rb:281-330 | in every run, unless it is edited, a row holds the time of the job's last attempt, retries included, and is active until a thread that has given up deactivates it |
| PackageFiles.FileTree.WriteFile | app/models/package.rb:431-471 | writing backs up what differs, leaves what is the same, and changes no other file |
| PackageFiles.FileTree.DeleteFile | app/models/package.rb:473-490 | deleting puts the backup back if there is one, and changes no other file |
| PackageFiles.InstallEffect | app/models/package.rb:281-289 | after writing all files of a package without clashes: each location, each backup and every other path of the tree |
| PackageFiles.UninstallEffect | app/models/package.rb:353-357 | the same after deleting them |
| PackageFiles.UndoIsExact | app/models/package.rb:431-490 | uninstalling right after installing gives back the tree if and only if no backup was there before and no file shipped just what was there |
| PackageFiles.UndoRemovesShadowed | app/models/package.rb:431-490 | without earlier backups it gives back the tree less exactly the files shipped as they were |
| PackageFiles.UpgradesRemoveShadowed | app/models/package.rb:227-369 | the same for any chain of upgrades, with the files that some version shipped as they were originally |
| PackageFiles.ReinstallIsNeutral | app/models/package.rb:312-321 | for files that are in order, a reinstallation changes nothing if and only if no backup equals its file |
| PackageFiles.ReinstallAfterInstall | app/models/package.rb:312-321 | right after a fresh installation it leaves every file and backup unchanged |
| PackageHealing.WritingVerifies | app/models/package.rb:281-289 | writing the files, a location possibly twice with the same content, leaves each with its content unless a later one's backup goes over it |
| PackageHealing.InconsistentIsNeverVerified | app/models/package.rb:27-51 | a package with two contents for one location is never in order |
| PackageHealing.OverwritingIsNotHealed | app/models/package.rb:431-490 | if one does, there is a tree that a reinstallation does not repair |
| PackageHealing.ReinstallHealsExactly | app/models/package.rb:312-321 | a package is repaired from every state of the tree if and only if no file's backup goes where an earlier file of it is written |
| PackageManager.Packages.UninstallPackage | app/models/package.rb:339-369 | files deleted in order, record removed unless it is a reinstallation; an unknown name or version changes nothing |
| PackageManager.Packages.InstallPackage | app/models/package.rb:227-298 | the refusals, the uninstallation of the old version, and the files and the record afterwards |
| PackageManager.Packages.WriteFiles | app/models/package.rb:266-294 | a refused location keeps the files written before it but not the record |
| PackageManager.Packages.ReinstallPackage | app/models/package.rb:312-321 | the stored package is installed again over the existing record |
| PackageManager.Packages.Verify | app/models/package.rb:27-51 | nil if and only if every file is there with its content; otherwise just the faulty locations, missing or changed |
| PackageManager.UpgradesSucceed | app/models/package.rb:246-294 | a chain of newer and newer versions installs without error, each over the uninstallation of the one before |
| PackageManager.UpgradeChainUndo | app/models/package.rb:227-369 | after a chain of upgrades and an uninstallation the table is as before, and the files too, less those that some version shipped as they were |
| PackageManager.UpgradeChainUndoExact | app/models/package.rb:227-369 | everything is as before if and only if no version shipped a file as it was |
| PackageManager.InstallOfNewerExactly | app/models/package.rb:246-294 | a new or newer package is installed if and only if all its locations are allowed; otherwise the old version is gone and the first files of the new one stay without a record |
| PackageVersions.RefusedExactly | app/models/package.rb:246-256 | an installation is refused if and only if the table has the same or a greater version, each with its own error and without any change; any other error is about a location |
| PackageVersions.AllowedExactly | app/models/package.rb:492-494 | a location is refused if and only if it has two dots in a row in it, plain or encoded |
| PackageVersions.NoSuchPackageExactly | app/models/package.rb:312-369 | an uninstallation is refused if and only if this version is not in the table; otherwise its files are deleted and only its record goes, if any; a reinstallation needs a record |
| PackageVersions.InstallOverExactly | app/models/package.rb:227-298 | with reinstall, for any package: no error if and only if there is a record and all locations are allowed, the nil error without a record, otherwise the first refused location; which files are written, and that at most the status of the record changes |
| PackageVersions.VersionsNeverFall | app/models/package.rb:227-369 | over any sequence of installations, reinstallations and uninstallations, failing ones included, the version of a name never falls while it stays in the table |
| PackageVersions.LowerVersionOnlyAfterRemoval | app/models/package.rb:227-369 | if it has fallen, the installed version was uninstalled in between, or an upgrade with a refused location removed it |
| PackageManager.ReinstallHeals | app/models/package.rb:312-321 | whatever happened to the files, verify finds nothing after a reinstallation of a package with one content for each location and without overwriting backups |
| PackageManager.ReinstallIsNeutralAfterInstall | app/models/package.rb:312-321 | install and then reinstall is install, for the files, the backups and the table |
| EventBuffers.EventBuffer.List | lib/event_buffer.rb:5-10 | the items of the key, nothing changed |
| EventBuffers.EventBuffer.Add | lib/event_buffer.rb:12-20 | the item is appended for its key and no other |
| EventBuffers.EventBuffer.Reset | lib/event_buffer.rb:22-27 | the key is emptied and no other |
| EventCoalescing.GetUniqChanges | lib/transaction_dispatcher.rb:114-176 | the loop yields the coalescing of the events that count, or the nil error of an article whose ticket is gone |
| EventCoalescing.RaisesExactly | lib/transaction_dispatcher.rb:119-131 | that error comes exactly if some event is such an article |
| EventCoalescing.MergeInPlace | lib/transaction_dispatcher.rb:158-164 | whatever the order of the attributes, known ones keep their first value and take the new last one, others are added |
| EventCoalescing.StoreItem | lib/transaction_dispatcher.rb:139-173 | an event is combined with what is stored for its object, and no other object is touched |
| EventCoalescing.CombineIsAssociative | lib/transaction_dispatcher.rb:145-173 | combining three items does not depend on the grouping |
| EventCoalescing.CoalescingComposes | lib/transaction_dispatcher.rb:114-176 | coalescing a concatenation is combining the coalesced halves |
| EventCoalescing.CoalescedPerObject | lib/transaction_dispatcher.rb:139-173 | what is stored for an object is the fold of its own events, and nothing is stored without any |
| EventCoalescing.InterleavingIsIrrelevant | lib/transaction_dispatcher.rb:139-173 | lists with the same events for each object give the same result, however they are interleaved |
| EventCoalescing.FoldedKind | lib/transaction_dispatcher.rb:146-153 | the first kind other than update stays; the last user and time win |
| EventCoalescing.FoldedChange | lib/transaction_dispatcher.rb:155-168 | a merged pair is the first value before and the last value after |
| EventCoalescing.FoldedArticle | lib/transaction_dispatcher.rb:170-173 | the last article wins |
| EventCoalescing.MergedIsReplay | lib/transaction_dispatcher.rb:155-168 | applying the merged changes once has the effect of replaying all updates in order |
| EventCoalescing.SavesAreSummedUp | lib/transaction_dispatcher.rb:179-233 | for the creation and any series of saves of a record, by any users at any times: the item takes the visible attributes from the first to the last state, is a creation exactly if the record was created, and names who made the last visible change and when; there is none exactly if nothing of the kind happened |
| EventCoalescing.NoEventsInImportMode | lib/transaction_dispatcher.rb:179-200 | in import mode creations and saves leave no events |
| EventReports.UniqChangesRaisesExactly | lib/transaction_dispatcher.rb:119-131 | the nil error comes if and only if a new article that is still there has lost its ticket |
| EventReports.UniqChangesReports | lib/transaction_dispatcher.rb:114-176 | there is an item for an object if and only if it exists and some event concerns it: its own events, and for a ticket its new articles that are still there; none under articles; kind, user, time, changes and article are those of the first and last such events, and updated or deleted articles and deleted objects contribute nothing |
| EventReports.SummedUpAmongOthers | lib/transaction_dispatcher.rb:114-233 | a record's creation and saves among any events of other objects and of articles: its item is a creation if and only if it was created, its changes take the visible attributes from first to last state by the saves alone, and it names the last new article; no item if and only if nothing of the kind happened |
| Transactions.ThreadState.Push | lib/push_messages.rb:17-37 | a message is buffered if there is a buffer and delivered otherwise |
| Transactions.ThreadState.Finish | lib/push_messages.rb:39-55 | the buffered messages are delivered in order and the buffer is gone; if a delivery raises, those before it are delivered and the buffer stays |
| Transactions.ThreadState.ExecuteBlock | app/models/transaction.rb:11-23 | a whole block with its ensure clauses, in terms of the thread before it |
| Transactions.ThreadState.FinishBlock | app/models/transaction.rb:47-53 | handle and context first, then the commit, then the messages unless the commit raises; either may raise |
| Transactions.ThreadState.CommitBlock | lib/transaction_dispatcher.rb:20-54 | nothing in import mode; otherwise the waiting events are taken out before the backends run; it can raise before taking them, between that and the backends, also without events, or when a job is queued |
| TransactionLaws.RunAccounts | app/models/transaction.rb:11-53 | for every program of nested blocks, exceptions of any kind included: the messages sent before the open block are delivered and those after it are in the buffer, in order and once each but for those that a raising delivery has repeated, which are counted; taken and waiting events are those recorded, and those handed on the ones that a commit without a fault has taken; both raise in the same cases |
| TransactionLaws.OutermostBlockDelivers | app/models/transaction.rb:38-53 | on a thread with any history, after an outermost block whose end does not raise every message sent is delivered, and each recorded event has been taken to a commit or waits, once and in order |
| TransactionLaws.DeliveredOnceExactly | lib/push_messages.rb:39-55 | the messages are then delivered exactly once and in order if and only if no delivery has raised after others of its block |
| TransactionLaws.RepeatedExactly | lib/push_messages.rb:42-53 | for any nesting: messages are delivered again if and only if a block that is reached ends so |
| TransactionLaws.CommitRaisesExactly | app/models/transaction.rb:47-53 | a commit raises if and only if it has a fault at its start, or outside import mode one before the backends, or one at the jobs with events waiting; the end of a block also if there is a delivery that raises |
| TransactionEffects.BufferIsLeftExactly | app/models/transaction.rb:38-53 | for any nesting: there is a push buffer after some code if and only if the code leaves one, which a block does if a delivery raises, or if its commit does and the code in it and its backends leave one |
| TransactionEffects.FlatBlockLeavesBufferExactly | app/models/transaction.rb:47-53 | a block without blocks in it leaves a buffer if and only if its end raises |
| TransactionEffects.EventsAreLostExactly | lib/transaction_dispatcher.rb:26-51 | for any nesting: all events taken so far have been handed on to backends and jobs if and only if they had before and no commit with waiting events has gone wrong after taking them |
| TransactionEffects.CompleteMeansAllHandedOn | lib/transaction_dispatcher.rb:26-51 | the events handed on are then exactly the events taken |
| TransactionEffects.InterfaceIsKept | app/models/transaction.rb:93-123 | all code leaves interface handle and context as they were |
| TransactionEffects.DispatchGetsTheOuterHandle | app/models/transaction.rb:47-53 | the first events that the commit of a block hands to the dispatcher are the waiting ones, with the handle of the code around the block |
| TransactionEffects.UserIsLostExactly | lib/transaction_dispatcher.rb:56-65 | for any nesting: the user after some code is the one before it, and none if and only if a commit has run backends in a block that neither resets the user id nor lies in one that does |
| TransactionEffects.BulkIsTurnedOffExactly | app/models/transaction.rb:77-87 | for any nesting: the bulk flag is on after some code if and only if it was on before and no bulk block has begun in it |
| TransactionScopes.RunSees | app/models/transaction.rb:59-123 | for any nesting, at any depth: code sees the handle and context of the innermost open block that gives one, user 1 in a block that resets the user until a backend has run, and the bulk flag in a bulk block until another one has ended; each dispatch carries the handle of the blocks around its block |
| TransactionScopes.OpenBlocksDecide | app/models/transaction.rb:11-23 | the same from outside all blocks, on a thread with any history |
| Calendars.CalendarTable.Save | app/models/calendar.rb:15-18 | from any tables the nested callbacks end; the others are cleared, or a first default is chosen, and all SLAs are mended |
| Calendars.CalendarTable.Destroy | app/models/calendar.rb:15 | the same after a destroy; SLAs stay as they are if no calendar is left |
| Calendars.CalendarTable.MinOneCheck | app/models/calendar.rb:366-389 | without a default the oldest calendar becomes it; SLAs without an existing calendar get a default one, the others are not changed |
| Calendars.CalendarTable.MendSlas | app/models/calendar.rb:377-387 | exactly the SLAs without an existing calendar get the default one |
| Calendars.CalendarTable.SyncDefault | app/models/calendar.rb:352-363 | a default calendar clears the flag of all others and of nothing else |
| Calendars.ExactlyOneAfterSave | app/models/calendar.rb:352-389 | a save leaves exactly one default if and only if it is of a default or the others had at most one |
| Calendars.ExactlyOneAfterDestroy | app/models/calendar.rb:366-389 | a destroy does if and only if calendars remain and had at most one |
| Calendars.OldestIsChosen | app/models/calendar.rb:366-373 | without a default among the remaining calendars the oldest becomes it, the smallest id of several; otherwise no flag is set, and none is cleared unless the saved calendar is the default; nothing else of a calendar changes |
| Calendars.AlwaysInOrder | app/models/calendar.rb:352-389 | from at most one default on, after every operation there is exactly one default and every SLA has an existing calendar, or no calendar is left |
| Calendars.MendedSlaHasTheDefaultExactly | app/models/calendar.rb:352-389 | after a save, an SLA without a calendar has the only default one in every case if and only if no other calendar was the default, or at most one if the saved one is not |
| Calendars.MendedAfterDestroyExactly | app/models/calendar.rb:366-389 | after a destroy, if and only if at most one of the others was |
| Calendars.MendedSlaMissesTheDefault | app/models/calendar.rb:376-381 | tables with one default for which it ends with the old default |
| Calendars.TwoDefaultsStay | app/models/calendar.rb:366-373 | two defaults are not repaired by saving a third calendar |
| Decimal.ReadOfPrint | app/controllers/form_controller.rb:195 | reading a printed number gives the number back |
| Decimal.ReadsNumeral | app/controllers/form_controller.rb:195 | any text: white space, a sign and digits in groups with single underscores are read as the number they stand for, 0 without digits, and what follows does not count |
| Base64.DecodeOfEncode | app/controllers/form_controller.rb:185-190 | lenient decoding undoes strict encoding of any bytes |
| Base64.DecodesLeniently | app/controllers/form_controller.rb:171 | other characters than those of the alphabet make no difference, and padding may be missing and ends the text |
| Base64.DecodesFullGroups | app/controllers/form_controller.rb:171 | after full groups the rest is decoded by itself, padding there is ignored, and a lone symbol gives nothing |
| Base64.EncodedAlphabet | app/controllers/form_controller.rb:160-161 | encoded text consists of the alphabet and padding only, in groups of four |
| FormToken.SealedTextSplits | app/controllers/form_controller.rb:180-184 | the sealed text splits into host, time and fingerprint again, and into two parts if the fingerprint is empty |
| FormToken.TokenAcceptedExactly | app/controllers/form_controller.rb:158-200 | a generated token is accepted if and only if host and fingerprint are the same, in ASCII and the fingerprint not empty, and the age is at most 86400 seconds; otherwise it is not authorized |
| Splitting.SplitExactly | app/controllers/form_controller.rb:179 | what split yields is the only list of texts without separators, the last one not empty, that is the text again when joined, with separators at the end at will |
| FormToken.TokenVerdictExactly | app/controllers/form_controller.rb:164-200 | for every token: forbidden if and only if it is blank, accepted if and only if it opens to three parts that name this host, a time at most a day ago and this fingerprint, not authorized otherwise, as when it does not open |
| FormToken.OnlyIssuedTokensAreAccepted | app/controllers/form_controller.rb:158-200 | if nothing opens but what was sealed for issued tokens, a token, whoever made it, is accepted if and only if it decodes to one issued for this host and fingerprint at most a day ago |
| FormToken.ConfiguredThenSubmitted | app/controllers/form_controller.rb:11-37 | configuration and submission are forbidden without a fingerprint of more than 30 characters that is not blank; with one, what configuration hands out is accepted by submission if and only if the fingerprint is the same, host and fingerprint are in ASCII, and the age is at most a day |
| Overviews.OverviewTable.Rearrange | app/models/overview.rb:32-69 | the loop numbers the others in their old order, leaving out the new priority, and writes only rows that have to change |
| Overviews.OverviewTable.UpdatePrio | app/models/overview.rb:32-34 | nothing happens unless the priority changes; then the others are renumbered and the row is written |
| Overviews.PrioritiesAreDistinct | app/models/overview.rb:41-68 | from any priorities, duplicates included, all differ afterwards |
| Overviews.OthersKeepTheirOrder | app/models/overview.rb:36-47 | the others keep their old order, by priority and newest first |
| Overviews.PrioritiesAreOneToN | app/models/overview.rb:41-53 | the priorities are exactly 1 to n if and only if the new one is among these numbers |
| Overviews.OnlyChangedPrioritiesAreWritten | app/models/overview.rb:32-68 | an update changes something if and only if the priority changes; exactly the rows whose priority changes are written, with the time of the update, and links never change |
| Overviews.OverviewTable.CalculatePrio | app/models/overview.rb:22-28 | one above the highest priority, 0 in an empty table |
| Overviews.HeldCandidatesAreFew | app/models/overview.rb:107-119 | no more candidates are taken than there are other overviews, so the search ends |
| Overviews.OverviewTable.LinkName | app/models/overview.rb:107-119 | the base or base_k for the least k that no other overview has, with at most one lookup more than there are other overviews |
| Overviews.FreeLinkKeepsUniqueness | app/models/overview.rb:78-96 | storing such a link keeps the links unique |
| SignatureDetection.DeltaIndices | lib/signature_detection.rb:33-36 | exactly the changed lines, in order, between the two boundaries |
| SignatureDetection.FindBlock | lib/signature_detection.rb:38-43 | a block is found if and only if six common lines stand in a row, and it is the first maximal run of at least six |
| SignatureDetection.BlockIsUnique | lib/signature_detection.rb:38-43 | there is only one such answer |
| SignatureDetection.BlockIsInBothMessages | lib/signature_detection.rb:46-48 | the lines of the block, cut to ten, stand one after the other in both messages |
| SignatureDetection.FindCandidate | lib/signature_detection.rb:43-51 | no candidate without a block or with an Exchange warning |
| SignatureDetection.TallyAll | lib/signature_detection.rb:31-55 | the score of each candidate is the number of diffs that gave it, in the order in which they were first met |
| SignatureDetection.FindSignature | lib/signature_detection.rb:24-58 | the candidate with the highest score, the first met of several, and none exactly if no diff gave one |
| SignatureContent.ContributesExactly | lib/signature_detection.rb:31-55 | a diff contributes a text if and only if that consists of the first ten lines, without marks, of its first part of at least six unchanged lines, and has no "CAUTION:" in it |
| SignatureContent.SignatureIsContributed | lib/signature_detection.rb:24-58 | a signature is what some diff contributes and has six to ten lines |
| SelectorCompiler.KeyParts | lib/search_index_backend.rb:501-505 | a key table.field means that field of that table, a key without a dot a field of the ticket |
| SelectorWords.WordsExactly | lib/search_index_backend.rb:602 | a text has certain words if and only if it lists them, with commas between them, white space around them, and commas at the end at will |
| SelectorWords.WordsAreClean | lib/search_index_backend.rb:602 | no word has a comma in it or white space at an end |
| SelectorWords.TrailingCommasDoNotCount | lib/search_index_backend.rb:602 | a comma at the end makes no difference, and the empty text has no words |
| SelectorWords.WordsAreQueriedExactly | lib/search_index_backend.rb:601-617 | the four word operators compile a text to a query for certain words, all or one of them, required or refused, if and only if it lists these words |
| SelectorCompiler.Selector.ToQuery | lib/search_index_backend.rb:477-734 | the loop compiles all conditions or stops at the first refused one, and what it leaves in the caller's selector |
| SelectorCompiler.FirstErrorWins | lib/search_index_backend.rb:498-680 | the error of the first refused condition is the result |
| SelectorMeaning.AcceptedExactly | lib/search_index_backend.rb:498-680 | a selector is accepted if and only if each condition is |
| SelectorMeaning.RefusedExactly | lib/search_index_backend.rb:522-678 | which conditions are refused, and with which error |
| SelectorMeaning.NotSetAsksForUserOneExactly | lib/search_index_backend.rb:516-520 | "not set" becomes a comparison with user 1 if and only if the field's name begins as those of users do, and a test for absence otherwise |
| SelectorMeaning.ContainsKindExactly | lib/search_index_backend.rb:539-567 | "contains" becomes a wildcard clause on the raw sub-field if and only if there is a text with a character from A to z, and has a plural name if and only if the value is a list |
| SelectorMeaning.QueryMeansAllConditions | lib/search_index_backend.rb:498-680 | each condition gives exactly one clause, and the query combines them by must and must_not as the conditions are combined, whatever the clauses match |
| SelectorMeaning.AggregationNarrows | lib/search_index_backend.rb:687-709 | with an aggregation the document also has to lie in its interval |
| SelectorMeaning.OrderIsIrrelevant | lib/search_index_backend.rb:498-680 | the order and repetition of conditions make no difference |
| SelectorMeaning.NegationIsComplement | lib/search_index_backend.rb:571-617 | for every value and precondition, an operator and its negation are refused alike, or each document satisfies exactly one of them |
| SelectorMeaning.TableIsRespectedExactly | lib/search_index_backend.rb:571-588 | for all tables: the clause is about the field that the key names if and only if the table is the ticket or it is not "not set" on a field other than one for users |
| Globs.FindsPartsExactly | lib/search_index_backend.rb:552-567 | for any wildcards and any folding of case: a text between wildcards is found in exactly the texts it is a part of if and only if it has no wildcard, escape or cased character |
| Globs.FindsMore | lib/search_index_backend.rb:552-567 | with one it is also found in a text it is no part of |
| Globs.EscapedFindsParts | lib/search_index_backend.rb:552-567 | with these characters escaped, which the code does not do, it would be found in exactly the right texts |
| SelectorExactness.TermsAgreeExactly | lib/search_index_backend.rb:539-548 | the raw sub-field is chosen rightly for a list of values if and only if: a text with a letter for a text field, no such text or no number for a number field, and no empty text |
| SelectorExactness.EqualityAgreesExactly | lib/search_index_backend.rb:514-600 | for "is" with every value and precondition: the condition finds what it asks for in all documents if and only if EqualityAgrees |
| SelectorExactness.NotSetAgreesWherePresent | lib/search_index_backend.rb:516-520 | "not set" on a numeric field for users is right on exactly the documents that have the field |
| SelectorExactness.ContainsAgreesExactly | lib/search_index_backend.rb:552-600 | for "contains" with every value: right on all documents if and only if, in a text field, it is a text with a letter and without wildcards; in a number field, no list of a number and such a text |
| SelectorExactness.TermsMissParts | lib/search_index_backend.rb:554-567 | for any list without letters there is a text that has one of it as a part and none as a term |
| SelectorAgreement.WordsAgreeExactly | lib/search_index_backend.rb:601-617 | for the word operators: never right on all documents of a text field if there is a word; in a number field if and only if the words after the first make no difference |
| SelectorAgreement.WordsAgreeOn | lib/search_index_backend.rb:601-617 | right on each document in which the words are found only as values of the field |
| SelectorAgreement.TimeAgreesExactly | lib/search_index_backend.rb:620-676 | for all eight operators on times: on which documents query and condition differ, the very instant and the missing bounds |
| SelectorAgreement.TimesAgreeExactly | lib/search_index_backend.rb:620-676 | they are right on all documents if and only if the field holds no times |
| SelectorAgreement.EngineAcceptsExactly | lib/search_index_backend.rb:507-600 | for which conditions the engine understands the clause |
| SelectorAgreement.NegationAgreesToo | lib/search_index_backend.rb:595-617 | the negation of an operator is right if and only if the operator is and the engine understands the clause |
| SelectorAgreement.ConditionAgreesExactly | lib/search_index_backend.rb:498-680 | for all sixteen operators, values and preconditions: an accepted condition finds exactly the documents it asks for if and only if it is faithful |
| SelectorAgreement.FoundExactlyByAll | lib/search_index_backend.rb:446-453 | a selector finds a document if and only if each of its conditions does; one that is refused takes the others with it |
| SelectorAgreement.SelectorFindsExactly | lib/search_index_backend.rb:477-734 | an accepted selector finds a document if and only if all its conditions hold there, for every document on which each condition is faithful, or its time is not off, or its words are values |
| SelectorAgreement.AggregatedFindsExactly | lib/search_index_backend.rb:687-709 | with an aggregation the document's time also has to lie in the interval, ends included |
| SelectorAgreement.LastAndBeforePartition | lib/search_index_backend.rb:620-649 | within last and before divide the documents that have the field |
| SelectorAgreement.WithinNextIsTill | lib/search_index_backend.rb:628-661 | within next and till give the same query |
| SelectorAgreement.BothSidesMissTheInstant | lib/search_index_backend.rb:636-676 | till and after, before and from, and the absolute pair exclude each other and miss only the very instant |
| DatabaseSelectors.DatabaseRefusesExactly | app/models/ticket.rb:613-630 | which conditions become no query, so that nothing is found, and which are refused |
| DatabaseSelectors.DatabaseEqualityExactly | app/models/ticket.rb:688-773 | by SQL with NULL, lists and three truth values: "is" selects what it asks for with every value and precondition; "is not" if and only if its list is not empty or NULL |
| DatabaseSelectors.DatabaseTimesExactly | app/models/ticket.rb:841-957 | all eight operators on times select what they ask for, ends included, if and only if the range is known and there is a value, or nothing can be asked for |
| DatabaseSelectors.DatabaseContainsExactly | app/models/ticket.rb:774-781 | "contains" selects what it asks for if and only if, in a text column, it is one text without wildcards and without letters that have a capital; "contains not" never does |
| DatabaseSelectors.DatabaseContainsNotOn | app/models/ticket.rb:778-781 | "contains not" selects exactly the rows with a text that "contains" does not select |
| DatabaseSelectors.LettersAreCased | config/initializers/db_preferences.rb:9-13 | every text with a letter has one that counts as the same |
| DatabaseSelectors.DatabaseTagsExactly | app/models/ticket.rb:782-840 | the word operators on tags select what they ask for if and only if no tag is named twice ("all") or only one ("all not") |
| DatabaseSelectors.FirstWithoutQueryDecides | app/models/ticket.rb:608-630 | the first condition without a query decides: its error is raised, or there is no query and nothing is found |
| DatabaseSelectors.SelectedExactlyByAll | app/models/ticket.rb:608-663 | a whole selector selects a row if and only if each of its conditions does |
| DatabaseSelectors.BothFindTheSame | app/models/ticket.rb:551-562 | a selector on whose conditions engine and database are both right finds the same tickets in both |
| SelectorMeaning.CompilingAgain | lib/search_index_backend.rb:554-561 | a second compilation gives the same clause if and only if the condition is not "contains" with a list that has a word in it |
| StorePreferences.Removed | app/models/store.rb:313-326 | one round removes matching entries in order, as long as the rest is too large, and says whether it fits |
| StorePreferences.Row.Check | app/models/store.rb:292-299 | the whole check removes a prefix of the schedule of the eight rounds, each removal while too large, and stops as soon as the rest fits |
| StorePreferences.LeftOversAreSmall | app/models/store.rb:292-330 | entries go only while the text is longer than 2400 characters; the result is a part of the original that is not longer or has only keys of at most 15 and contents of at most 75 |
| StorePreferences.RoundExactly | app/models/store.rb:292-311 | which of the eight rounds removes an entry, by the sizes of its content and key |
| StorePreferences.NoEntryGoesBeforeItsTurn | app/models/store.rb:292-311 | no entry goes while one of an earlier round stays |

## Left out

- Settings: broadcasts, the deletion of the caches named in `preferences[:cache]`, checks of the value, and rows that are deleted.
- SettingRuns.BoundedStaleness: leaves out loads that another save overtakes (`TornLoadStaysStale`).
- Scheduler: delayed jobs and their clean-up, database reconnects, the sleeps, the text fields of a row, and handles that are not threads (lines 76-80).
- SchedulerThreads.MutualExclusion: not claimed for runs that start a thread of the job while one that has given up is not yet at its end, in which it can fail (`GivingUpBreaksExclusion`).
- SchedulerRetry.StartJob: the outcomes of the attempts and the clock readings are given; the release of the registry at line 321 is part of `SchedulerThreads`.
- Packages: permissions, directories, migrations, `link` and `unlink`, reading zpm files and their JSON and base 64, and the uninstallation from a string.
- Packages: versions are integers in place of the order of Gem::Version; there is at most one record for a name.
- PackageManager.ReinstallHeals: needs one content for each location, without which nothing is ever in order, and no overwriting backup.
- PackageHealing.ReinstallHealsExactly: that an overwriting backup is exactly the obstacle is stated for distinct locations only; a second listing of a location can undo the damage.
- PackageManager.UpgradeChainUndo: needs distinct locations, none another's backup, and no backups from before; for one installation `UndoIsExact` says what earlier backups do.
- Dispatcher: the record itself in an event, the parameters of backends and jobs, and the order in which the items are dispatched.
- EventCoalescing.GetUniqChanges: the merged hash shares its pairs with the first event's hash in Ruby; the events are not used again, so values are modelled.
- Transaction blocks: database effects and rollbacks, and what the synchronous backends do other than sending, recording and opening blocks; an event is a number here, its merging is in `EventCoalescing`.
- TransactionLaws.OutermostBlockDelivers: leaves out an end that raises, after which messages can stay in the buffer (`BufferIsLeftExactly`); a broadcast that reaches some clients before it raises counts as not delivered.
- TransactionEffects.EventsAreLostExactly: when queueing a job raises, some of the events may have been handed on; which of them is not part of this model.
- Calendars: iCal feeds, business hours, time zones, validation; all saves succeed, and `find_each` reads its rows before the loop.
- FormToken.TokenAcceptedExactly: times are not negative; the length of a fingerprint is counted in bytes, and encryption is abstract.
- Form controller: configuration, submission, origin checks and request limits.
- Overviews.OverviewTable.LinkName: the text normalisation of lines 99-106 is not part of this model, its result is the parameter `base`; priorities are never NULL.
- Signature detection: html to text, the diff itself (its lines are given), and the rebuilding of stored signatures.
- Selector: index names, HTTP calls, sort order, result size and date histograms; the text of a query string is kept as its list of words, without quotation marks in them.
- SelectorAgreement.ConditionAgreesExactly: fields of dates are not compared for equality, booleans and floats are left out, and so is a field that is itself called keyword; a replacement is looked up for the current user only.
- DatabaseSelectors.DatabaseTagsExactly: for other attributes than the tags of tickets the database has no word operators and raises.
- DatabaseSelectors: working time, mentions, joins over several articles, comparisons of tags that are no lists of words (tickets have no such column), and preconditions that there are not.
- StorePreferences.Row.Check: the length of the YAML text and the size of a content are arbitrary numbers; the stored file itself is not part of this model.
- HTML sanitising, escalation, channels, policies, views and the other controllers: their decisive parts are in libraries or would add only easy members.
