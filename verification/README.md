# Statup, verified

Statup is a status page: services, the events that concern them, the outages
its checks detect, the maintenances it repeats, and the messages it sends. Its
state is in tables, and each repository function is one statement or one
transaction on them. This project models that behaviour in Dafny and proves
what the tables keep over every run, together with the calendar arithmetic and
the text algorithms that work beside them.

`dafny verify dfyconfig.toml` checks the whole project.

## How it is laid out

Code that updates tables in place is a class whose fields are the tables
(`AccessStore.Store`, `EventStore.Tables`, `OutageStore.Tables`,
`QueueStore.Deliveries`, `LinkStore.LinkTable`,
`SubscriberStore.SubscriberTable`, `LogWriting.LogWriter`). Each method is
proved equal to a function on a plain value of the state, and the laws are
lemmas about runs of those functions. Code that loops over text or rows
(`Scrub`, `EscapeText`, `FoldLine`, `Ics`, `Sections`) is a method with
invariants, proved against a specification that a reader of the standard would
recognise. Code made of expressions (recurrence rules, the clock, the strip) is
functions.

- **Who sees a service**: `Audiences` (what each operation does to the page),
  `AccessTables` and `AccessStore` (the same on the rows), `AudienceLaws` (over
  runs), `AudienceEffects` (operation by operation, said of the tables and of the
  lists asked for), `Scope`. A service that follows its folder carries a copy of the folder's
  audience and the read rule looks at services only, so every operation must
  keep the copies in step. The store carries the audience rows as relations;
  `View()` reads them back as the page.
- **Repeating maintenance**: `Civil` (the proleptic calendar), `Clock` (an
  abstract zone), `Recurrence`, `MaintenanceSeries`, `SeriesRuns` (two concrete
  runs).
- **Events, outages and the strip**: `Events`, `EventEffects`, `EventStore`,
  `Outages`, `OutageStore`, `Strip`, `Sections`.
- **Queues and links**: `Queues`, `QueueLaws`, `QueueEffects`, `QueueStore`, `Subscribers`,
  `SubscriberStore`, `Links`, `LinkStore`.
- **Text and bytes**: `ICalendar`, `Scrub`, `LogFile`, `LogWriting`.

## Conventions

A zone is a function from UTC minutes to an offset. What is asked of one is
`Clock.Regular`: offsets under a day, two changes of the clock at least two
days apart, jumps forward of at most 180 minutes. Dates are day numbers
without bound. Times on rows are whole seconds, as the tables store them;
`now` is a parameter. Ids grow and are never given twice. Addresses that differ
only in case are one number.

## Where the code does not do what its documentation says

- `next_occurrence` is documented as the next moment the clock shows a time.
  In a doubled hour it skips the second showing
  (`Clock.NextOccurrenceSkipsSecondReading`), and when tomorrow's reading is
  skipped it finds nothing, though the time is shown the day after
  (`Clock.NextOccurrenceStopsAtSkippedReading`).
  `Clock.NextOccurrenceIsNextShowing` says exactly when it holds.
- `add_session` is documented as writing nothing when the series changed since
  it was read. A session under way that is edited to last longer leaves the
  start its series waits for, and a round that had read the series before then
  adds a session of the old length (`SeriesRuns.EditIsNotNoticed`).
  `MaintenanceSeries.ChangeIsNoticedExactlyWhen` says exactly which changes are
  noticed, and `MaintenanceSeries.StaleRoundExactlyWhen` when missing one
  matters.
- Undoing the cancellation of a session after a round added the next one leaves
  two sessions waiting (`SeriesRuns.UndoLeavesTwoWaiting`);
  `MaintenanceSeries.UndoKeepsOneWaiting` says exactly when.
- Outages are cut into days between midnights, and a day counts nothing when one
  of its midnights is skipped by the clock (`Strip.SkippedMidnightLosesOutage`).
  `Strip.CuttingIntoDaysConserves` is the exact condition.
- A strip loads what ended after its first midnight, or after 1970 when that
  midnight does not exist. `Strip.LoadingChangesNoCell` says exactly when no
  cell changes, and `Strip.LoadsEnoughSince1970` that every window since 1970
  meets it.
- The journal's final cut is not stable: a second scrubbing shortens the text of
  `Scrub.CutIsNotStable`. `Scrub.CutIsStableExactlyWhen` says exactly when it
  is, for every text and limit: nothing was cut, or the cut did not fall right
  after the `/…` of an address. Before the cut scrubbing is idempotent
  (`Scrub.ScrubbedTwice`), and the cut uncovers nothing
  (`Scrub.CutUncoversNothing`).
- A log whose new file cannot be opened after the rename goes on writing to the
  file set aside, and never rotates again until the next start
  (`LogFile.StuckOnAside`, `LogFile.GetsStuckExactlyWhen`); the comment on
  `write` only speaks of a rename that fails.

## Model

| member | source | states |
|---|---|---|
| AudienceLaws.EveryFollowerAgrees | src/repositories/folder_repo.rs:1-7 | After any run of folder, group, service and account operations, cascades included, each follower is in an existing folder and carries exactly its visibility, groups and members |
| AudienceLaws.RunKeepsSound | src/repositories/folder_repo.rs:311-357 | The invariant behind it, from any sound page: copies agree, grants name existing groups and accounts, and only restricted audiences hold grants |
| AudienceLaws.AddServicesNeverWidens | src/repositories/folder_repo.rs:168-212 | Joining a folder shows no service to anyone who did not see it, visitor or account, followers already there included |
| AudienceLaws.AddServicesAudience | src/repositories/folder_repo.rs:178-212 | A service open to everyone takes the folder's audience when it joins, and every other keeps its own |
| AudienceLaws.AddServicesComeLast | src/repositories/folder_repo.rs:178-212 | Services that join come after all others, in the order they were listed |
| AudienceLaws.SaveSettingsReachesFollowers | src/repositories/folder_repo.rs:142-166 | Saving a folder gives its followers what was chosen and no other service anything |
| AudienceLaws.FollowTakesFolderAudience | src/repositories/folder_repo.rs:216-234 | A service that follows again has its folder's audience at once, and no other service changes |
| AudienceLaws.ViewsUnchanged | src/repositories/folder_repo.rs:236-297 | Taking a service out of its folder, deleting a folder and reordering change nobody's view |
| AudienceLaws.ReorderServicesReadsBack | src/repositories/service_repo.rs:133-153 | An order that lists every service once reads back as sent |
| AudienceLaws.OpenToOnlyAdds | src/repositories/group_repo.rs:193-236 | Opening to a group adds the services opened and the followers of the folders opened, to the group's members alone |
| AudienceLaws.CloseFolderOnlyHides | src/repositories/group_repo.rs:238-257 | Closing a folder to a group hides its followers from those who reached them through the group alone, and changes nothing for anyone outside it |
| AudienceLaws.CloseServiceOnlyHides | src/repositories/group_repo.rs:259-275 | The same of one service, unless it follows its folder |
| AudienceLaws.ClosedByDeletingIsExact | src/repositories/group_repo.rs:277-294 | The services counted are the restricted ones whose grants become empty when the group goes, and then no reader sees them |
| AudienceLaws.AddMembersOnlyAdds | src/repositories/group_repo.rs:118-136 | Enrolling adds to the new members alone exactly the restricted services open to the group |
| AudienceLaws.RemoveMemberOnlyHides | src/repositories/group_repo.rs:138-149 | Taking a member out hides from that member alone what was reached through the group alone |
| AudienceLaws.DeleteGroupOnlyHides | src/repositories/group_repo.rs:53-59 | Deleting a group hides what was reached through it alone, and changes nothing for anyone outside it |
| AudienceLaws.DeleteUserHidesFromNoOther | migrations/20261019000003_member_access.sql:3-17 | Deleting an account, with its memberships and grants, changes no other reader's view |
| AudienceLaws.CreatedIsSeenByItsAudience | src/repositories/service_repo.rs:46-79 | A new service is seen by its audience from the start and by nobody else |
| AudienceLaws.CreatedInFolderIsSeenByItsAudience | src/repositories/folder_repo.rs:43-63 | So is a service created in a folder, by the folder's audience |
| AudienceEffects.SetVisibilityShows | src/repositories/service_repo.rs:372-393 | Afterwards each reader sees what they saw but this service, and this one exactly when everyone was asked for, or whoever is signed in and they are, or they are a listed active reader or a member of a listed existing group; it stops following, in its folder and at its place |
| AudienceEffects.SetVisibilityOfNone | src/repositories/service_repo.rs:372-393 | For no such service nothing is written, and it is refused exactly when an existing group or an active reader was listed for a restricted one |
| AudienceEffects.CreateServiceShows | src/repositories/service_repo.rs:46-79 | A new service is added to the views of those asked for and to no other, last, in no folder |
| AudienceEffects.SaveSettingsShows | src/repositories/folder_repo.rs:142-166 | Followers are shown to those asked for, said of the lists, as is a service created in the folder next, and nothing else changes |
| AudienceEffects.CreateFolderIs | src/repositories/folder_repo.rs:29-39 | A new folder is open to everyone, holds no service and comes last |
| AudienceEffects.CreateInFolderIs | src/repositories/folder_repo.rs:43-63 | Refused exactly for no such folder; else the service follows it and comes last, and nothing else changes |
| AudienceEffects.AddServicesMoves | src/repositories/folder_repo.rs:168-212 | Exactly the listed services that exist elsewhere move, those open to everyone or with just the folder's audience follow, and each is told with whether it does |
| AudienceEffects.FollowIs | src/repositories/folder_repo.rs:216-234 | Only a service of the folder follows it, under its audience, in its place; nothing changes otherwise |
| AudienceEffects.RemoveServiceIs | src/repositories/folder_repo.rs:236-253 | A service taken out follows nothing and keeps audience and place |
| AudienceEffects.DeleteFolderIs | src/repositories/folder_repo.rs:255-271 | No service is left in a folder deleted, and services keep all else |
| AudienceEffects.ListsExactlyIs | src/repositories/folder_repo.rs:275-297 | An order is saved exactly when it lists each of them, once, and nothing else |
| AudienceEffects.ReorderFoldersReadsBack | src/repositories/folder_repo.rs:275-297 | Each folder gets its place in the list and nothing else changes |
| AudienceEffects.ReorderServicesIs | src/repositories/service_repo.rs:133-153 | Only positions change |
| AudienceEffects.DeleteServiceIs | src/repositories/service_repo.rs:413-419 | The service leaves every reader's view, and nothing else changes |
| AudienceEffects.CreateGroupIs | src/repositories/group_repo.rs:17-22 | A new group has no member and opens nothing |
| AudienceEffects.DeleteGroupIs | src/repositories/group_repo.rs:53-59 | The group is nowhere any more, and each reader sees exactly what they reached without it |
| AudienceEffects.AddMembersIs | src/repositories/group_repo.rs:118-136 | Exactly the active readers listed join, refused exactly when one would join no group, and those who were not members are counted |
| AudienceEffects.RemoveMemberIs | src/repositories/group_repo.rs:138-149 | One membership goes and nothing else |
| AudienceEffects.OpenToIs | src/repositories/group_repo.rs:193-236 | Exactly the restricted folders listed, their followers, and the restricted services listed that do not follow are open to the group too, and what was not yet is told |
| AudienceEffects.CloseFolderIs | src/repositories/group_repo.rs:238-257 | The folder and its followers are no longer open to the group: each reader sees those as without it, and nothing else changes |
| AudienceEffects.CloseServiceIs | src/repositories/group_repo.rs:259-275 | The same of one service that does not follow |
| AudienceEffects.DeleteUserIs | migrations/20261019000003_member_access.sql:3-17 | The account's memberships and grants go with it, and nothing else |
| AudienceEffects.AccountIs | src/repositories/user_repo.rs:44-62 | A new account has no membership and no grant: it sees what any account signed in sees |
| AudienceEffects.ChangedAccountIs | src/repositories/user_repo.rs:168-203 | A role or an account changed changes nobody's view |
| Scope.ScopeIsCanonical | src/models/visibility.rs:62-74 | Two lists make the same scope exactly when they hold the same ids |
| Scope.NarrowedSeesVisible | src/services/visibility.rs:27-32 | The scope made of a reader's visible ids sees exactly the services the read rule lets them see |
| Scope.NarrowedSeesEvents | src/models/visibility.rs:82-94 | And exactly the events that concern no service or one of those |
| Scope.NarrowedIsAllExactlyWhen | src/services/visibility.rs:27-32 | The scope is that of all services exactly when the reader sees each of them |
| AccessStore.Store.CopySetting | src/repositories/folder_repo.rs:311-357 | The four statements leave the page with every follower, or the one named, given the folder's audience |
| AccessStore.Store.CreateFolder | src/repositories/folder_repo.rs:29-39 | Writes the page `Audiences.CreateFolder` says |
| AccessStore.Store.CreateInFolder | src/repositories/folder_repo.rs:43-63 | Creates and copies in one transaction, refused for no such folder |
| AccessStore.Store.SaveSettings | src/repositories/folder_repo.rs:142-166 | Settings and grants written, then copied to followers, all or nothing |
| AccessStore.Store.AddServices | src/repositories/folder_repo.rs:178-212 | The update of the listed services, then the copy to followers, give the page and the followers `Audiences.AddServices` says |
| AccessStore.Store.Follow | src/repositories/folder_repo.rs:216-234 | Only a service of the folder follows it, and takes its audience |
| AccessStore.Store.RemoveService | src/repositories/folder_repo.rs:239-253 | The service keeps its audience as its own |
| AccessStore.Store.DeleteFolder | src/repositories/folder_repo.rs:257-271 | Its services keep their audiences as their own |
| AccessStore.Store.ReorderFolders | src/repositories/folder_repo.rs:275-297 | Positions rewritten only when every folder is listed once |
| AccessStore.Store.CreateService | src/repositories/service_repo.rs:46-79 | The row and its grants, after every other service |
| AccessStore.Store.SetVisibility | src/repositories/service_repo.rs:372-393 | Writes the page `Audiences.SetVisibility` says; `AudienceEffects.SetVisibilityShows` is the law |
| AccessStore.Store.ReorderServices | src/repositories/service_repo.rs:133-153 | Positions rewritten only when every service is listed once |
| AccessStore.Store.DeleteService | src/repositories/service_repo.rs:413-419 | The service and its rows go |
| AccessStore.Store.VisibleIds | src/repositories/service_repo.rs:335-355 | The query on the rows returns exactly the services the read rule lets the reader see, and how many there are |
| AccessStore.Store.DeleteGroup | src/repositories/group_repo.rs:53-59 | The group goes with its memberships and grants |
| AccessStore.Store.AddMembers | src/repositories/group_repo.rs:118-136 | Active readers listed are enrolled, once each |
| AccessStore.Store.RemoveMember | src/repositories/group_repo.rs:138-149 | One membership goes |
| AccessStore.Store.OpenTo | src/repositories/group_repo.rs:193-236 | The loops open what is restricted and not yet open, and copy each folder opened |
| AccessStore.Store.CloseFolder | src/repositories/group_repo.rs:238-257 | The grant goes from the folder, then from its followers |
| AccessStore.Store.CloseService | src/repositories/group_repo.rs:259-275 | The grant goes from a service that does not follow |
| AccessStore.Store.ServicesClosedByDeleting | src/repositories/group_repo.rs:278-294 | The count the query returns is the size of that set |
| AccessStore.Store.ReplaceServiceGrants | src/repositories/mod.rs:57-106 | The rows of a service become those of its new grants, and no other's |
| AccessStore.Store.ReplaceFolderGrants | src/repositories/mod.rs:57-106 | The same for a folder |
| Civil.MonthStartStep | src/models/recurrence.rs:237-241 | Each month begins right after the last day of the one before, across years and leap years |
| Civil.MonthOfIsUnique | src/models/recurrence.rs:72-99 | A day is in one month only |
| Civil.DayZero | src/models/recurrence.rs:237-241 | Day 0 is the first of January 1970, a Thursday |
| Civil.KnownFebruaries | src/models/recurrence.rs:237-241 | February had 28 days in 1900 and 29 in 2000 |
| Recurrence.AddMonthsIsConsecutive | src/models/recurrence.rs:237-241 | Adding months enumerates months in a row across years |
| Recurrence.RankRoundTrip | src/models/recurrence.rs:72-99 | For every date, the rank of its day gives that date back, days 29 to 31 included |
| Recurrence.DayInHasRank | src/models/recurrence.rs:83-99 | The day of a rank is in its month, on its weekday and of that rank; `Last` is the latest such day |
| Recurrence.DayInFindsRank | src/models/recurrence.rs:83-99 | Every day of a rank is the one found for it |
| Recurrence.NextAfterIsLeastStart | src/models/recurrence.rs:205-233 | In any regular zone the next start exists and is the least strictly after `after` among the starts of all the rule's days, past and future |
| Recurrence.WeeklyDaysCover | src/models/recurrence.rs:217-225 | Three weeks of candidates leave out no day until past the answer |
| Recurrence.MonthlyDaysCover | src/models/recurrence.rs:225-233 | Nor do fourteen months |
| Recurrence.FromFirstStartsThere | src/models/recurrence.rs:143-153 | The rule set by a first start lands on its day and time; the start is one of the rule's exactly when it is not the second reading of a doubled hour |
| Recurrence.FromFirstHasRhythm | src/models/recurrence.rs:143-153 | The rule has the rhythm asked for: weekly on the day's weekday, or monthly with the day's rank, at the reading's time |
| Clock.ToUtcReaches | src/clock.rs:163-168 | A reading converts to the instant the clock first reaches it, and to none exactly when it is skipped |
| Clock.ToUtcOrLaterReaches | src/clock.rs:170-177 | Searching past a gap always finds the instant at which the clock first shows the reading or a later one |
| Clock.ToUtcOrLaterIsMonotone | src/clock.rs:170-177 | Conversion keeps the order of readings through gaps and doubled hours |
| Clock.NextOccurrenceIsNextShowing | src/clock.rs:126-160 | What is returned is the next moment the clock shows the time, exactly when that is no second reading and no later than tomorrow |
| Clock.NextOccurrenceSkipsSecondReading | src/clock.rs:126-160 | A concrete doubled hour in which it is not |
| Clock.NextOccurrenceStopsAtSkippedReading | src/clock.rs:126-160 | A concrete jump that skips tomorrow's reading: nothing is returned, though the time is shown the day after |
| MaintenanceSeries.EveryRunInStep | src/repositories/series_repo.rs:125-155 | Over every interleaving of rounds from reads of any age, starts, completions, moves and stops: at most one waiting session, begun before the next start, none once stopped, no slot given twice |
| MaintenanceSeries.CommitAddsNext | src/services/series_service.rs:102-117 | When a round writes, it adds a session with none waiting, after its `now`, at the start waited for or later, with the length it read and the series' services, and moves the series past it |
| MaintenanceSeries.RoundWritesExactlyWhen | src/repositories/series_repo.rs:120-155 | A round writes nothing exactly when the series waits elsewhere than where it was read, is stopped, or has a session waiting |
| MaintenanceSeries.ChangeIsNoticedExactlyWhen | src/repositories/series_repo.rs:120-155 | A change since the read is noticed exactly unless it edited the series and left the start it waits for, with no session waiting |
| MaintenanceSeries.StaleRoundExactlyWhen | src/services/series_service.rs:102-117 | With the rule not edited, a round from an earlier read writes what one reading now would exactly when it writes nothing or the length and what stays up were not edited either |
| SeriesRuns.EditIsNotNoticed | src/repositories/series_repo.rs:120-143 | A session under way edited longer, carried forward, then a round from a read before it: a session of the old length is added |
| MaintenanceSeries.NextStartGrows | src/repositories/series_repo.rs:125-155 | The next start never goes back, and grows with each session added |
| MaintenanceSeries.NextSessionStartIs | src/models/maintenance_series.rs:28-34 | There always is a next session: at the start waited for, or when that went by at the rule's first start after `now` |
| MaintenanceSeries.FromWindowExactlyWhen | src/models/maintenance_series.rs:72-89 | A window sets a series exactly when it lasts a minute or more: the rule of its start, its length in whole minutes, waiting for the rule's first start after its own |
| MaintenanceSeries.CarryForwardStaysAhead | src/repositories/series_repo.rs:214-257 | An edit carried forward leaves every waiting session before the start the series then waits for |
| MaintenanceSeries.StopHasNoUndo | src/repositories/series_repo.rs:185-212 | A cancellation by a stop cannot be undone |
| MaintenanceSeries.StopIs | src/repositories/series_repo.rs:185-212 | A stop writes its time and cancels exactly the waiting sessions, which it tells; of a stopped series or none it writes nothing |
| MaintenanceSeries.StopIsForGood | src/repositories/series_repo.rs:185-212 | After a stop, whatever rounds from reads of any age follow, the series awaits no session, has none waiting, was given no other start, and is not stopped again |
| MaintenanceSeries.CommitIs | src/repositories/series_repo.rs:125-155 | A session added leaves the series waiting for the rule's first start after it; the session has the start, length and services said, and nothing else is written |
| MaintenanceSeries.CreateIs | src/repositories/series_repo.rs:71-98 | A first session sets a series exactly when its end comes a minute or more after its start: its rule, length in whole minutes and services, waiting for the rule's first start after it |
| MaintenanceSeries.AwaitingIsAdded | src/repositories/series_repo.rs:112-122 | The series a round reads are exactly those it would add a session to |
| MaintenanceSeries.CarryForwardIs | src/repositories/series_repo.rs:214-257 | The series takes the session's rule, length and services, the session after it moves with them, and the series waits for the rule's first start after that one |
| MaintenanceSeries.NextOneBeginsFirst | src/repositories/series_repo.rs:214-257 | The session that moves with the series is another waiting one, and begins before each other; one without a start before any |
| MaintenanceSeries.UndoKeepsOneWaiting | src/repositories/event_repo.rs:456-469 | An undo puts a second session in wait exactly when the session had been waiting and another was added since |
| SeriesRuns.UndoLeavesTwoWaiting | src/repositories/event_repo.rs:456-469 | Announced, cancelled by hand, replaced by a round, the cancellation undone: two sessions wait |
| EventStore.Tables.Create | src/repositories/series_repo.rs:71-98 | Series and first session written together; `MaintenanceSeries.FromWindowExactlyWhen` says when |
| EventStore.Tables.AwaitingSession | src/repositories/series_repo.rs:112-122 | Exactly the series still repeating with no session to come |
| EventStore.Tables.AddSession | src/repositories/series_repo.rs:125-155 | The compare-and-set and the insert are one step, nothing written when it fails; `MaintenanceSeries.EveryRunInStep` is the law |
| EventStore.Tables.AddNextSession | src/services/series_service.rs:102-117 | What a round does with a series it read; `MaintenanceSeries.RoundWritesExactlyWhen` is the law |
| EventStore.Tables.Stop | src/repositories/series_repo.rs:185-212 | Stops, and cancels exactly the waiting sessions; `MaintenanceSeries.StopIsForGood` is the law |
| EventStore.Tables.CarryForward | src/repositories/series_repo.rs:214-257 | The session that begins first among the others, one without a start coming first, moves with the series; `MaintenanceSeries.CarryForwardStaysAhead` is the law |
| EventStore.Tables.Insert | src/repositories/event_repo.rs:83-119 | The row stored for a new event, as in those runs |
| EventStore.Tables.Transition | src/repositories/event_repo.rs:418-452 | One move, only from the step expected; `EventEffects.MoveIs` is the law, and `Events.RunKeepsConsistent` over runs |
| EventStore.Tables.PostMove | src/services/event_service.rs:114-148 | A move of an event as it was read, after the guard of the service, as in the runs of `Events.OnlyUndoReopens` |
| EventStore.Tables.RevertTransition | src/repositories/event_repo.rs:454-469 | One undo, as in those runs; what it gives back is `Events.UndoAfterMove` |
| EventStore.Tables.StartDueMaintenance | src/repositories/event_repo.rs:385-400 | Starts exactly the maintenances due, and returns them; `Events.MissedRoundsChangeNothing` is the law |
| EventStore.Tables.CompleteDueMaintenance | src/repositories/event_repo.rs:402-416 | Completes exactly the maintenances due, and returns them; `Events.PassLeavesNoneDue` is the law |
| EventStore.Tables.ApplySchedule | src/services/event_service.rs:259-262 | A round starts what is due, then completes what is due |
| Events.DrivingIncidentIsOpen | src/repositories/event_repo.rs:58-64 | After every run of inserts, moves as the service makes them from reads of any age, undos, edits and rounds, an incident that drives its services has no restored nor end time, and its span on the strip is open |
| Events.RunKeepsConsistent | src/repositories/event_repo.rs:418-469 | The invariant behind it, tying `restored_at` to the step an undo comes back to |
| Events.MovesLeadOnward | src/models/event/dimensions.rs:155-175 | Nothing leads out of a closed step, nor of a step of another kind, and only of those; a move leads to another step of the kind, never back to waiting |
| Events.OnlyUndoReopens | src/services/event_service.rs:114-157 | Whatever the interleaving of moves from older reads, edits and rounds, only an undo opens a closed event again or touches its times |
| Events.MissedRoundsChangeNothing | src/repositories/event_repo.rs:385-416 | Whatever rounds ran before, the round at `now` leaves the same events |
| Events.PassLeavesNoneDue | src/repositories/event_repo.rs:385-416 | A round leaves nothing due to start or to complete |
| Events.UndoAfterMove | src/repositories/event_repo.rs:454-469 | An undo right after a move gives the event back, and exactly when each time stays lost |
| EventEffects.NewEventIs | src/repositories/event_repo.rs:83-119 | A new event begins at once, except an announced maintenance and an incident said to have begun earlier, with no end and nothing to undo |
| EventEffects.MoveIs | src/repositories/event_repo.rs:418-452 | A move answers true exactly when the event is where it was read and its step leads there; resolving or completing ends it now, watching it notes when the service first came back, working on it again forgets that |
| EventEffects.UndoIs | src/repositories/event_repo.rs:454-469 | An undo opens the event again at the step before, with no end |
| EventEffects.EditIs | src/repositories/event_repo.rs:123-155 | An edit touches neither the step nor the times reached |
| EventEffects.RoundIs | src/repositories/event_repo.rs:385-416 | A maintenance whose start has come began then, one whose end has come is over since then, both in one round, and nothing else changes |
| EventEffects.MaintenanceDrivesMeanwhile | src/repositories/event_repo.rs:53-64 | Announced, it sets the state of its services exactly from its start until its end, unless it keeps them up |
| EventEffects.MovedIncidentDrives | src/repositories/event_repo.rs:53-64 | An incident moved sets the state of its services exactly when it is moved to be worked on |
| EventEffects.NewIncidentDrives | src/repositories/event_repo.rs:53-64 | So does a new one, unless declared watched |
| EventEffects.EveryClosedHasItsEnd | src/repositories/event_repo.rs:418-469 | After every run what is resolved or completed has an end, and what is under way has none |
| EventEffects.EndIsKept | src/services/event_service.rs:114-157 | What a move closed keeps the time of that move, whatever follows but an undo |
| Outages.EveryRunAgrees | src/repositories/service_repo.rs:234-314 | After any run a service is found down exactly when one outage of it is under way, and no outage ends before it starts |
| Outages.RunKeepsSound | src/repositories/outage_repo.rs:222-270 | The invariant behind it, from any sound log |
| Outages.RacingUpsTellOnce | src/repositories/service_repo.rs:293-314 | Reports racing to end one outage tell it once, and it ends at the time of the first |
| Outages.RunKeepsDisjoint | src/repositories/outage_repo.rs:222-270 | When reports never step back, a service's outages are disjoint |
| Outages.DownStartsOutage | src/repositories/service_repo.rs:274-289 | Found down, a service has an outage under way since then; refused exactly for no such service or with one under way already |
| Outages.UpEndsOutage | src/repositories/service_repo.rs:293-314 | Answering again ends its outage at the later of its start and the report, and no other; false exactly when it was not found down |
| Outages.RacingUpsEndAtFirst | src/repositories/service_repo.rs:293-314 | Of reports racing, the outage ends at the later of its start and the first |
| Outages.SetCheckIs | src/repositories/service_repo.rs:234-270 | A changed check clears the mark and erases exactly the outage under way |
| Outages.EraseIs | src/repositories/outage_repo.rs:94-113 | Exactly the ended outages listed go, and are given back with their times, when the first is an ended one of the service; else none |
| Outages.AddedIs | src/repositories/service_repo.rs:46-79 | A new service is found up and has no outage |
| Outages.DroppedIs | src/repositories/service_repo.rs:413-419 | A service deleted takes exactly its own outages |
| OutageStore.Tables.MarkDetectedDown | src/repositories/service_repo.rs:274-289 | The mark and the outage are written together or not at all |
| OutageStore.Tables.MarkDetectedUp | src/repositories/service_repo.rs:293-314 | The mark goes and the outage ends, no earlier than it began |
| OutageStore.Tables.SetCheck | src/repositories/service_repo.rs:234-270 | A changed check drops what the old one detected, with its outage under way |
| OutageStore.Tables.Erase | src/repositories/outage_repo.rs:94-113 | The first outage then each of the others, ended ones only, nothing when the first is not erasable |
| Strip.CuttingIntoDaysConserves | src/modules/services.rs:405-425 | The seconds counted on the days of a window sum to the outages' overlap with it, exactly when no day with an outage has a skipped midnight |
| Strip.DayLosesOnlyToSkippedMidnights | src/modules/services.rs:405-425 | The same of one day, which never counts more than its own seconds |
| Strip.MinutesLoseLessThanOneADay | src/modules/services.rs:405-425 | Rounded to minutes, each day loses less than one |
| Strip.SkippedMidnightLosesOutage | src/modules/services.rs:409-414 | A concrete skipped midnight that makes twenty hours count for nothing on two days |
| Strip.DayHoldsItsOutages | src/modules/services.rs:405-425 | For outages apart from each other, listed in any order, a day's detected time never exceeds that day's real length |
| Strip.LoggedDayHoldsItsOutages | src/repositories/outage_repo.rs:15-34 | The same of the log, after any run whose reports never step back |
| Strip.CellSays | src/modules/services.rs:333-402 | Each cell: nothing before the service existed, 2 for a critical incident that day, 0 for neither incident nor detected minute, and the minutes told exactly when no incident explains them |
| Strip.LoadingChangesNoCell | src/modules/services.rs:271-279 | Loading only what had not ended before the window gives the strip of the whole history, for every history, exactly unless the window begins before 1970 without a midnight |
| Strip.LoadsEnoughSince1970 | src/modules/services.rs:206-210 | Every window that begins after 1970 meets the condition |
| Strip.FilterIsQuery | src/repositories/event_repo.rs:649-676 | Filtering the rows of a longer history gives exactly the spans the query on the events table returns |
| Strip.QueriesGiveWholeStrip | src/modules/services.rs:271-279 | For any events table, and in any order of rows, the strip read from the two queries is the one of any longer history |
| Strip.ShortStripEndsLongStrip | src/modules/services.rs:333-355 | A shorter strip of the same moment is the end of a longer one, each loading its own part |
| Strip.PanelMatchesPage | src/modules/services.rs:206-240 | Since April 1970 the panel's thirty days are the last thirty of the page's ninety |
| Strip.DrivingIncidentColoursItsDays | src/modules/services.rs:384-402 | After any run of events, an incident that drives a service colours every day of its strip since it began |
| Strip.ResolvedIncidentLeavesStrip | src/modules/services.rs:384-402 | An incident resolved colours no day after the one it was resolved on, over every run without an undo |
| Strip.OneOutageCounts | src/modules/services.rs:198-205 | An outage counts from its start to its end, or to now while under way, exactly when that is fifteen minutes or more |
| Strip.OutagesAddUp | src/modules/services.rs:405-425 | The time of several outages is the sum of theirs |
| Strip.SpanTouches | src/modules/services.rs:384-392 | An incident touches the days from its first to its last, today included while it has no end |
| Sections.Sections | src/modules/services.rs:90-104 | The rows in their order, cut only where the folder changes, under the folder's name |
| Sections.CutIsUnique | src/modules/services.rs:87-104 | There is only one such cut |
| QueueLaws.EveryRunIsInOrder | src/repositories/subscriber_delivery_repo.rs:34-194 | Over every run in which rounds settle only what they took while due: each destination's finished messages are older than its waiting ones, none leaves twice, and each is waiting, finished or gone with its subject |
| QueueLaws.NoneIsLost | src/repositories/subscriber_delivery_repo.rs:34-194 | Without removals every message ever queued waits or is finished, purges included |
| QueueLaws.BackIsToldOncePerOutage | src/repositories/notification_repo.rs:99-132 | Between two messages to a destination that a service is back there is one that it was down, over whole runs, purges included |
| QueueLaws.PurgeForgetsTheOldest | src/repositories/notification_repo.rs:271-282 | A purge never uncovers an older message by forgetting a newer one |
| QueueLaws.PurgeKeepsWhatIsShown | src/repositories/subscriber_delivery_repo.rs:183-194 | A purge changes no latest outcome, no waiting message and no message it keeps |
| QueueEffects.PurgeForgetsExactly | src/repositories/notification_repo.rs:271-282 | A message is forgotten exactly when it is finished, was queued before the date, and is no outcome or a newer one of its destination is there; all others stay as they are |
| QueueEffects.EachTableKeepsItsOwn | src/repositories/subscriber_delivery_repo.rs:13-16 | The subscribers' table keeps the newest email sent or given up, whatever was left out since; the channels' the newest finished message |
| QueueEffects.RecentIsKept | src/repositories/notification_repo.rs:271-282 | Over every run, a message queued no earlier than the dates of the purges since is still there, and finished if it was, unless its destination, event or service went |
| QueueEffects.SentIs | src/repositories/notification_repo.rs:170-180 | A message sent is due no more, with its time, one more attempt and no failure; no other changes |
| QueueEffects.WaitsOn | src/repositories/subscriber_delivery_repo.rs:64-95 | A message tried again or noted keeps its place, with the reason, the time and the attempts said; one that does not wait is left alone |
| QueueEffects.ClosedIs | src/repositories/subscriber_delivery_repo.rs:96-136 | One given up or left out counts the attempt and keeps why and when |
| QueueEffects.FailWaitingIs | src/repositories/notification_repo.rs:220-239 | No message of the destination is left waiting, attempts as they were, and those of others stay |
| QueueEffects.SkipVisitorsIs | src/repositories/subscriber_delivery_repo.rs:138-156 | Exactly what waits for a visitor is left out, as an attempt |
| QueueEffects.GiveUpWaitingIs | src/repositories/subscriber_delivery_repo.rs:158-181 | Exactly what was queued before the time, or all that waits, is given up |
| QueueEffects.DroppedAre | src/repositories/notification_repo.rs:86-93 | A destination, an event or a service takes exactly its own messages |
| QueueEffects.QueuedAre | src/repositories/notification_repo.rs:95-132 | A new message waits last, from its time on, with no attempt, one for each destination that ticks its part; a service back only where the newest message kept about it said it was down |
| QueueEffects.QueuedInOrder | src/repositories/notification_repo.rs:95-132 | Messages queued together are numbered in the order of their destinations |
| QueueLaws.NewsReaches | src/repositories/notification_repo.rs:95-132 | News reaches exactly the destinations that tick its part, a service back only those last told it was down, and never leaves before its time |
| QueueLaws.RetryHoldsBack | src/repositories/subscriber_delivery_repo.rs:64-82 | A message tried again later is not due before, and holds back the ones behind it |
| QueueLaws.NextHasItsTurn | src/repositories/subscriber_delivery_repo.rs:96-136 | Once the head is sent or given up, the next waiting one is the head |
| QueueLaws.StepKeepsFifo | src/repositories/notification_repo.rs:137-239 | Each statement keeps each queue first in, first out |
| QueueStore.Deliveries.Due | src/repositories/subscriber_delivery_repo.rs:34-51 | The first waiting message of each destination whose time has come, oldest first, none left out but past the limit |
| QueueLaws.DueOncePerDest | src/repositories/notification_repo.rs:134-150 | Never two for one destination |
| QueueStore.Deliveries.EnqueueAfter | src/repositories/notification_repo.rs:99-132 | One message per destination that ticks the part, a service back only where its outage was |
| QueueStore.Deliveries.MarkSent | src/repositories/notification_repo.rs:170-180 | Writes the row whatever its status was; `QueueEffects.SentIs` and `QueueLaws.EveryRunIsInOrder` are the laws |
| QueueStore.Deliveries.RetryLater | src/repositories/notification_repo.rs:183-199 | One attempt counted on a waiting message; `QueueLaws.RetryHoldsBack` is the law |
| QueueStore.Deliveries.Note | src/repositories/subscriber_delivery_repo.rs:86-95 | Why a message waits, no attempt counted; `QueueEffects.WaitsOn` is the law |
| QueueStore.Deliveries.Fail | src/repositories/notification_repo.rs:202-218 | One waiting message given up; `QueueLaws.NextHasItsTurn` is the law |
| QueueStore.Deliveries.Skip | src/repositories/subscriber_delivery_repo.rs:107-136 | One waiting message left out; `QueueLaws.NextHasItsTurn` is the law |
| QueueStore.Deliveries.FailWaiting | src/repositories/notification_repo.rs:220-239 | Every waiting message of a destination given up, and counted |
| QueueStore.Deliveries.SkipVisitors | src/repositories/subscriber_delivery_repo.rs:138-156 | Every waiting message of every visitor left out, and counted |
| QueueStore.Deliveries.GiveUpWaiting | src/repositories/subscriber_delivery_repo.rs:158-181 | The waiting messages queued before a time, or all, given up, and counted |
| QueueStore.Deliveries.DeleteDest | src/repositories/notification_repo.rs:86-93 | A destination goes with its queue, as in the runs of `QueueLaws.EveryRunIsInOrder` |
| QueueStore.Deliveries.Purge | src/repositories/subscriber_delivery_repo.rs:183-194 | Old finished messages forgotten but each latest outcome, and counted; `QueueEffects.PurgeForgetsExactly` and `QueueEffects.RecentIsKept` are the laws |
| Subscribers.OneEmailPerAddress | src/repositories/subscriber_repo.rs:127-173 | No address is written to twice about one piece of news |
| Subscribers.EveryReaderIsWrittenTo | src/repositories/subscriber_repo.rs:127-173 | An address is written to exactly when an active member, or a visitor while the page is open, wants the news there |
| Subscribers.MemberComesFirst | src/repositories/subscriber_repo.rs:127-173 | Where an active member wants the news, it is the member who is written to, not the visitor at the same address |
| Subscribers.ConfirmSubscribes | src/repositories/subscriber_repo.rs:44-84 | Confirming keeps one subscriber per address, with what it last asked for under its first secret, and touches no other |
| Subscribers.ConfirmUsesUpRequests | src/repositories/subscriber_repo.rs:44-84 | Every request of the address is used up, and those of others stay |
| Subscribers.SecondClickChangesNothing | src/repositories/subscriber_repo.rs:44-84 | Of two clicks only the first counts |
| SubscriberStore.SubscriberTable.ConfirmVisitor | src/repositories/subscriber_repo.rs:51-84 | The transaction writes the state `Subscribers.Confirm` says |
| SubscriberStore.SubscriberTable.Enqueue | src/repositories/subscriber_repo.rs:135-173 | One message for each recipient and no other, none for detected outages |
| Links.RunKeepsLimits | src/repositories/subscription_request_repo.rs:13-62 | Over every run, whatever is deleted and even if the clock steps back, no hour holds more stored links than allowed, per address and in all |
| Links.NeverOpensAgain | src/repositories/password_reset_repo.rs:46-58 | A link that was used, replaced or expired never opens again |
| Links.OneLiveLink | src/repositories/subscription_request_repo.rs:80-96 | At most one link of an owner is live |
| Links.InsertIs | src/repositories/subscription_request_repo.rs:13-62 | A link is stored exactly when the last hour held fewer than allowed, for its owner and in all, and is then the one row added |
| Links.NewLinkReplaces | src/repositories/password_reset_repo.rs:46-58 | It opens until its time is over, the older ones of its owner open nothing any more, and those of others what they did |
| Links.UseUpIs | src/repositories/password_reset_repo.rs:60-80 | The links of an account go together, with its new password, exactly when it has one; links and passwords of others stay |
| Links.DeleteStaleIs | src/repositories/password_reset_repo.rs:82-89 | Exactly the links stored more than a day ago go: none that still opens something, as links live no longer |
| Links.RacingUsesSucceedOnce | src/repositories/password_reset_repo.rs:60-80 | Of uses racing for an account's links only the first sets its password |
| LinkStore.LinkTable.InsertWithinLimits | src/repositories/password_reset_repo.rs:24-44 | Counting and storing in one step; `Links.RunKeepsLimits` is the law |
| LinkStore.LinkTable.FindLive | src/repositories/subscription_request_repo.rs:82-96 | A link is found exactly when it is unexpired and not replaced |
| LinkStore.LinkTable.UseUp | src/repositories/password_reset_repo.rs:64-80 | Every link of the account and the new password, both or neither; `Links.RacingUsesSucceedOnce` is the law |
| LinkStore.LinkTable.DeleteStale | src/repositories/password_reset_repo.rs:82-89 | The links older than a day go; `Links.NeverOpensAgain` is the law |
| ICalendar.FileReadsBack | src/models/calendar.rs:32-52 | Unfolding and splitting the whole file gives exactly the lines intended, and unescaping gives each text back with CRLF and lone CR read as LF, for any texts; stamp, start and end read back, the end absent exactly when there is none (sections 3.1 and 3.3.11 of RFC 5545) |
| ICalendar.FileIsACalendar | src/models/calendar.rs:32-52 | One event in one calendar, version 2.0, to be published |
| ICalendar.FileFits | src/models/calendar.rs:90-110 | No physical line of the file exceeds 75 octets in UTF-8 |
| ICalendar.OctetsAreEncoded | src/models/calendar.rs:93-110 | The octets counted are those of the text in UTF-8 |
| ICalendar.EveryLineFolds | src/models/calendar.rs:90-110 | No escape is cut, each continuation starts with a space, and no line is cut earlier than it must be |
| ICalendar.FoldingReadsBack | src/models/calendar.rs:93-110 | Any content lines read back after folding |
| ICalendar.EscapeReadsBack | src/models/calendar.rs:70-88 | Any text reads back after escaping, which leaves no line break and no bare separator |
| ICalendar.EscapeText | src/models/calendar.rs:71-88 | The loop computes `Escape` |
| ICalendar.FoldLine | src/models/calendar.rs:93-110 | The loop computes the folding, counting UTF-8 octets |
| ICalendar.Ics | src/models/calendar.rs:32-52 | The file is the content lines folded in order |
| Scrub.ScrubbedIsClean | src/journal/mod.rs:172-212 | In the output every `http(s)://`, in any case, is followed by a host without `@`, `/`, `?` or `#`, then the end, a delimiter or `/…`: no new address forms where pieces join |
| Scrub.ScrubbedStays | src/journal/mod.rs:172-212 | Scrubbing leaves a text as it is exactly when it is that clean already |
| Scrub.ScrubbedTwice | src/journal/mod.rs:172-185 | Scrubbing twice is scrubbing once |
| Scrub.ScrubbedKeepsTheRest | src/journal/mod.rs:172-212 | All the text around the addresses is kept, and each address is shown by the scheme and host it is made of, what stands before its `@` left out, with `/…` exactly for a tail |
| Scrub.OriginByParts | src/journal/mod.rs:198-212 | An address made of a scheme, a user or none, a host and a tail is cut down to the scheme and the host, then `/…` exactly when there is a tail |
| Scrub.PartsOf | src/journal/mod.rs:198-212 | Every address is made so |
| Scrub.ScrubbedByParts | src/journal/mod.rs:172-187 | An address in a text, up to the delimiter after it, is replaced where it stands, and what follows is scrubbed in turn |
| Scrub.Delimiters | src/journal/mod.rs:176-183 | An address ends at any of the twenty-five white space characters of Unicode, a quote, an angle bracket, a closing parenthesis or a backquote |
| Scrub.ExcerptKeepsStart | src/models/event/record.rs:512-519 | A text within the limit is kept whole; of a longer one the first characters, less the white space they end with, then an ellipsis |
| Scrub.CutUncoversNothing | src/models/event/record.rs:512-519 | Whatever the limit, the cut uncovers no part of an address |
| Scrub.CutIsStableExactlyWhen | src/models/event/record.rs:512-519 | For every text and limit, scrubbing with its cut is idempotent exactly when nothing was cut or the cut did not fall right after the `/…` of an address |
| Scrub.CutIsNotStable | src/models/event/record.rs:512-519 | A concrete text on which scrubbing with its cut is not idempotent |
| Scrub.Scrub | src/journal/mod.rs:172-187 | The loop computes the scrubbed text and its excerpt; `Scrub.ScrubbedKeepsTheRest` and `Scrub.ExcerptKeepsStart` say what is shown |
| LogFile.RunKeepsTheEnd | src/log_file.rs:45-85 | Over every run, restarts and file system failures included, the two files hold the end of all that was written: all of it, or more than the limit |
| LogFile.SmoothRunIsBounded | src/log_file.rs:70-80 | Without failures the log outgrows its limit by at most one write |
| LogFile.StuckOnAside | src/log_file.rs:60-80 | Once the new file could not be opened, all goes to the file set aside until the next start |
| LogFile.GetsStuckExactlyWhen | src/log_file.rs:60-80 | Exactly when a write gets there |
| LogFile.WriteIs | src/log_file.rs:70-80 | Above the limit what was there is set aside and the log starts with what is written; up to it the log grows and the other file stays |
| LogFile.FailedRenameIsTriedLater | src/log_file.rs:70-80 | A rename that fails keeps the lines in the log and is tried again only after another limit's worth of them, whatever the file system would answer |
| LogWriting.LogWriter.SetAside | src/log_file.rs:60-67 | The rename and the reopening, and where the handle points after each failure; `LogFile.StuckOnAside` is the law |
| LogWriting.LogWriter.Write | src/log_file.rs:70-80 | Sets aside first once above the limit, then appends what was taken; `LogFile.RunKeepsTheEnd` is the law |
| LogWriting.OpenBelow | src/log_file.rs:45-58 | The log of a folder, set aside at once when above the limit |

## Left out

- AccessStore.Store.DeleteService: the repository's own effect; the service layer refuses to delete a service that has events, which is not part of this model.
- MaintenanceSeries.EveryRunInStep: edits by hand and undos are outside its runs; `CarryForwardStaysAhead` and `UndoKeepsOneWaiting` say what one of them does.
- EventStore.Tables.CarryForward: of other waiting sessions with the same start, or without one, any may be moved; the title and text of sessions are not part of this model.
- QueueLaws.EveryRunIsInOrder: waves (`wave_of`) overtake the queue on purpose and are matched by second, so runs are without them; queueing times never step back, and no crash comes between a send and its record, after which a message would be sent again.
- QueueStore.Deliveries.Due: the other columns it returns, read with the message, are not part of this model; nor is the deletion of an event's update, which takes its messages with it as the deletion of the event does.
- Subscribers.ConfirmSubscribes: what a request asked for is given as it was read; hashing and comparing secrets is not part of this model.
- ICalendar.Ics: formatted dates and the version number are words given to it; the Google link is not part of this model.
- Scope.NarrowedSeesVisible: the binary search of the standard library is membership in the sorted ids.
- Recurrence.NextAfterIsLeastStart: dates have no bound here, where the date library has one; rules are stored to the minute.
- Names, slugs and their uniqueness, icons, case folding: plain columns.
- SQL, pools and migrations: each statement is its effect on the tables; unique indexes, checks and cascades of the schema are part of the operations.
- The order of rows with equal keys where a query leaves it open; `Strip` takes its spans and outages in any order.
- Labels, summaries, colours and other words of the strip.
- Log lines and their dates; other processes writing to the same folder.
