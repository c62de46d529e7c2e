# Two-way table synchronisation with timestamp windows

A Dafny model of the synchronisation core of SynchronizeMultipleDatabase. It covers four
saved versions of `ApplicationDbContext.cs`: the latest, `2019-12-29_11_02_36_752`, and the
earlier `10_46_56_725`, `10_39_02_175` and `10_37_20_394`.

- `SyncTablesAsync` synchronises a local table ("here") and a remote one ("there") over a
  window (from, to]:
  - It selects the records each side changed in the window.
  - It drops keys that both sides changed at the very same instant.
  - It resolves keys changed on both sides by one of four strategies:
    - `Stop` throws.
    - `OverrideAzure` keeps the local copy.
    - `OverrideLocal` keeps the remote copy.
    - `OverrideOld` keeps the newer copy.
  - It stamps the surviving local changes with one `SyncedAt`.
  - It upserts each list into the opposite table, by primary key.
- `TrySyncDayByDayAsync` cuts the time from the last sync up to now into windows of at most
  one day and synchronises window by window with `OverrideOld`.
- `LogTimeStamps` runs before every save. Unless the context keeps its timestamps:
  - added syncable entities get CreatedAt = ChangedAt = now;
  - modified ones get ChangedAt = now.

The earlier versions hold the same logic at other lines, and the model covers them too:

- `10_46_56_725`:
  - `LogTimeStamps` at lines 34-52;
  - the window queries at 62-69;
  - the same-instant filter at 71-81;
  - the conflict keys at 83-85;
  - the strategy switch at 87-124 (Stop at 91-92, the one-sided overrides at 94-105, OverrideOld at 106-120);
  - the stamping and writes at 126-129;
  - `AddOrUpdateEntities` at 132-144.
- `10_39_02_175`: only `LogTimeStamps`, at lines 32-50.
- `10_37_20_394`: only `LogTimeStamps`, at lines 31-49.

Modules, one per file:

- `Wrappers` (`wrappers.dfy`): `Option` and `Result`.
- `Entities` (`entities.dfy`): the `ISyncableEntity` record, which has a Guid key, CreatedAt,
  ChangedAt, an optional SyncedAt and IsDeleted. Instants are DateTime ticks, bounded by
  DateTime.MaxValue. The module also has the list operations the LINQ code uses:
  - `Filter` (Where);
  - `Drop` (Where-not-Contains);
  - `IndexOf`, `FirstWithId` and `RemoveFirstWithId` (First and List.Remove).
- `Tables` (`tables.dfy`): a DbSet as a `Table` class holding its rows. The Guid is the
  primary key, and its uniqueness is the class invariant. `AddOrUpdate` is upsert by key,
  specified by `Upserted`. `UpsertAll` is the fold of upserts.
- `Selection` (`selection.dfy`): the two window queries, the same-instant filter and the
  conflict keys. `Candidates` composes them.
- `Resolution` (`resolution.dfy`): `SyncStrategy` and the conflict-resolution `switch` with its
  `Remove` loops, proved against `Resolve`.
- `Sync` (`sync.dfy`): the `SyncedAt` stamping loop, `AddOrUpdateEntities` and
  `SyncTablesAsync`, all proved against `SyncPlan`. `SyncPlan` is what one sync writes into
  each table, or the error it throws.
- `SyncProperties` (`sync_properties.dfy`): what `SyncPlan` guarantees for every strategy.
- `DayByDay` (`day_by_day.dfy`): the day-window loop and the tiling of the interval.
- `TimeStamps` (`time_stamps.dfy`): the change-tracker entries and `LogTimeStamps`.

How host-system facts are modelled:

- The clock, `DateTime.UtcNow`, is a parameter:
  - `utcNow` in one sync;
  - `now` plus `clock(k)` for the sync of the k-th window;
  - `now` in `LogTimeStamps`.
- The two database queries read the table rows in storage order.
- AddOrUpdate looks a row up by key with `AsNoTracking`. Keys are unique within each list
  that is upserted, so that lookup sees the same rows as the model's table.
- A thrown exception is an `Err` result, or the `failed` flag of the day loop.

## Model

| member | source | states |
|---|---|---|
| Entities.Filter | Demo/Data/.vshistory/ApplicationDbContext.cs/2019-12-29_11_02_36_752.cs:78-85 | the result holds exactly the records of the list that the predicate accepts, is no longer than the list, and keeps keys unique |
| Entities.Drop | Demo/Data/.vshistory/ApplicationDbContext.cs/2019-12-29_11_02_36_752.cs:93-97 | the result holds exactly the records whose key is not in the set; its key set is the list's keys less the set; keys stay unique |
| Entities.IndexOf | Demo/Data/.vshistory/ApplicationDbContext.cs/2019-12-29_11_02_36_752.cs:125-126 | no position exactly when the key is absent; otherwise the first position holding the key |
| Entities.FirstWithId | Demo/Data/.vshistory/ApplicationDbContext.cs/2019-12-29_11_02_36_752.cs:125-126 | the record found is in the list and has the key; with unique keys it is the only such record |
| Entities.RemoveFirstWithId | Demo/Data/.vshistory/ApplicationDbContext.cs/2019-12-29_11_02_36_752.cs:113 | List.Remove of the found record shortens the list by exactly one |
| Entities.RemoveIsDrop | Demo/Data/.vshistory/ApplicationDbContext.cs/2019-12-29_11_02_36_752.cs:111-114 | removing the first record of a key not yet removed gives the list with that key dropped as well, so the Remove loop is one Drop |
| Entities.DropLength | Demo/Data/.vshistory/ApplicationDbContext.cs/2019-12-29_11_02_36_752.cs:110-136 | with unique keys, dropping a set of present keys removes exactly one record per key |
| Entities.DropNone | Demo/Data/.vshistory/ApplicationDbContext.cs/2019-12-29_11_02_36_752.cs:103-104 | dropping no key leaves the list as it was (no conflicts, no removal) |
| Tables.Upserted | Demo/Data/.vshistory/ApplicationDbContext.cs/2019-12-29_11_02_36_752.cs:182-195 | the new record is in the table; the key set gains its key; the table grows only when the key was new; every row with another key stays; keys stay unique; no other row appears |
| Tables.UpsertAllSpec | Demo/Data/.vshistory/ApplicationDbContext.cs/2019-12-29_11_02_36_752.cs:154-159 | upserting a list of distinct keys leaves every listed record in the table, keeps every row whose key is not listed, adds nothing else, and keeps keys unique |
| Tables.Table.AddOrUpdate | Demo/Data/.vshistory/ApplicationDbContext.cs/2019-12-29_11_02_36_752.cs:162-196 | the rows become Upserted(old rows, data) and the primary-key invariant holds |
| Selection.SelectHere | Demo/Data/.vshistory/ApplicationDbContext.cs/2019-12-29_11_02_36_752.cs:78-80 | a local row is selected exactly when its ChangedAt or CreatedAt lies in (from, to] |
| Selection.SelectThere | Demo/Data/.vshistory/ApplicationDbContext.cs/2019-12-29_11_02_36_752.cs:82-85 | a remote row is selected exactly when its ChangedAt, CreatedAt or non-null SyncedAt lies in (from, to] |
| Selection.Ids | Demo/Data/.vshistory/ApplicationDbContext.cs/2019-12-29_11_02_36_752.cs:99-100 | the keys of a list in order; its elements are exactly the list's keys; distinct when the list's keys are |
| Selection.SameInstantIds | Demo/Data/.vshistory/ApplicationDbContext.cs/2019-12-29_11_02_36_752.cs:87-91 | a key is listed exactly when a remote and a local change carry it with equal ChangedAt |
| Selection.ConflictIds | Demo/Data/.vshistory/ApplicationDbContext.cs/2019-12-29_11_02_36_752.cs:99-101 | the conflict keys are exactly the keys in both filtered lists, each listed once |
| Selection.CandidatesSpec | Demo/Data/.vshistory/ApplicationDbContext.cs/2019-12-29_11_02_36_752.cs:78-97 | a local row survives the filters exactly when it changed in the window and no remote row changed in the window with its key and its ChangedAt; symmetrically for remote rows; keys stay unique |
| Selection.LocalCandidatesSpec | Demo/Data/.vshistory/ApplicationDbContext.cs/2019-12-29_10_46_56_725.cs:71-78 | the local half of CandidatesSpec |
| Selection.RemoteCandidatesSpec | Demo/Data/.vshistory/ApplicationDbContext.cs/2019-12-29_10_46_56_725.cs:80-81 | the remote half of CandidatesSpec |
| Selection.UniqueOnKey | Demo/SinjulMSBH/Entities/ISyncableEntity.cs:7 | in a table, a key names one record |
| Selection.ConflictsNeverTie | Demo/Data/.vshistory/ApplicationDbContext.cs/2019-12-29_11_02_36_752.cs:87-101 | after the same-instant filter, the two copies of a conflicting key never have equal ChangedAt |
| Resolution.LosersPartition | Demo/Data/.vshistory/ApplicationDbContext.cs/2019-12-29_11_02_36_752.cs:110-136 | every strategy but Stop discards exactly one copy of each conflicting key: local and remote losers are disjoint and together are the conflicts |
| Resolution.ResolveConflicts | Demo/Data/.vshistory/ApplicationDbContext.cs/2019-12-29_11_02_36_752.cs:103-140 | the switch over the strategy computes Resolve: no conflicts leaves both lists; Stop fails; otherwise each list loses its losers |
| Resolution.RemoveConflicts | Demo/Data/.vshistory/ApplicationDbContext.cs/2019-12-29_11_02_36_752.cs:110-121 | the foreach/Remove loop leaves the list without exactly the conflicting keys |
| Resolution.RemoveOlder | Demo/Data/.vshistory/ApplicationDbContext.cs/2019-12-29_11_02_36_752.cs:122-136 | the OverrideOld loop drops the local copy of every key whose remote copy is strictly newer, and the remote copy of every other conflicting key |
| Resolution.OlderStep | Demo/Data/.vshistory/ApplicationDbContext.cs/2019-12-29_11_02_36_752.cs:123-135 | each loop step adds its key to exactly one of the two loser sets, and neither held it before |
| Resolution.PrefixStep | Demo/Data/.vshistory/ApplicationDbContext.cs/2019-12-29_10_46_56_725.cs:107 | the keys visited so far grow by the one new key |
| Sync.WithSyncedAt | Demo/Data/.vshistory/ApplicationDbContext.cs/2019-12-29_11_02_36_752.cs:142-143 | every local change carries SyncedAt = utcNow and nothing else about it changes; length, keys and key uniqueness are kept |
| Sync.StampSynced | Demo/Data/.vshistory/ApplicationDbContext.cs/2019-12-29_11_02_36_752.cs:143 | the ForEach loop computes WithSyncedAt |
| Sync.AddOrUpdateEntities | Demo/Data/.vshistory/ApplicationDbContext.cs/2019-12-29_11_02_36_752.cs:148-160 | the destination ends as UpsertAll(old rows, list) and keeps unique keys |
| Sync.SyncTables | Demo/Data/.vshistory/ApplicationDbContext.cs/2019-12-29_11_02_36_752.cs:70-146 | the result is SyncPlan of the old rows; on Err neither table changes; on Ok the remote table gets the stamped local changes and the local table the remote changes, both by upsert |
| SyncProperties.DecideDrops | Demo/Data/.vshistory/ApplicationDbContext.cs/2019-12-29_11_02_36_752.cs:103-145 | under any strategy but Stop, the local list loses its losers and is stamped, and the remote list loses its losers |
| SyncProperties.DecideFailsIffStopWithConflicts | Demo/Data/.vshistory/ApplicationDbContext.cs/2019-12-29_11_02_36_752.cs:103-108 | a sync fails exactly when the strategy is Stop and some key changed on both sides; with no conflict both lists go out whole, whatever the strategy |
| SyncProperties.DecideWritesNoIdBothWays | Demo/Data/.vshistory/ApplicationDbContext.cs/2019-12-29_11_02_36_752.cs:110-136 | after any strategy that does not throw, no key is written in both directions |
| SyncProperties.DecideWritesOnlyChanges | Demo/Data/.vshistory/ApplicationDbContext.cs/2019-12-29_11_02_36_752.cs:142-145 | only selected changes are written: remote ones unchanged, local ones with SyncedAt = utcNow |
| SyncProperties.DecideKeepsKeys | Demo/Data/.vshistory/ApplicationDbContext.cs/2019-12-29_11_02_36_752.cs:142-145 | the written lists carry no key that was not a candidate |
| SyncProperties.DecideKeepsOneSidedChanges | Demo/Data/.vshistory/ApplicationDbContext.cs/2019-12-29_11_02_36_752.cs:110-121 | whatever the strategy, a change made on one side only goes to the other side |
| SyncProperties.DecideLocalWins | Demo/Data/.vshistory/ApplicationDbContext.cs/2019-12-29_11_02_36_752.cs:110-115 | OverrideAzure writes every local change (stamped), and only the non-conflicting remote changes |
| SyncProperties.DecideRemoteWins | Demo/Data/.vshistory/ApplicationDbContext.cs/2019-12-29_11_02_36_752.cs:116-121 | OverrideLocal writes every remote change, and only the non-conflicting local changes (stamped) |
| SyncProperties.DecideNewestWins | Demo/Data/.vshistory/ApplicationDbContext.cs/2019-12-29_11_02_36_752.cs:122-136 | OverrideOld: for a conflicting key, a strictly newer remote copy is written locally and the local copy nowhere; otherwise the stamped local copy goes out and the remote copy nowhere |
| SyncProperties.DecideDropsOnePerConflict | Demo/Data/.vshistory/ApplicationDbContext.cs/2019-12-29_11_02_36_752.cs:110-136 | any strategy but Stop writes as many records as the candidates less one per conflicting key |
| SyncProperties.PlanStaysInWindow | Demo/Data/.vshistory/ApplicationDbContext.cs/2019-12-29_11_02_36_752.cs:78-85 | everything written locally is a remote row changed in the window; everything written remotely is a local row changed in the window, stamped |
| SyncProperties.SameInstantNotCandidate | Demo/Data/.vshistory/ApplicationDbContext.cs/2019-12-29_11_02_36_752.cs:87-97 | both copies of a key changed at the same instant on both sides leave the candidate lists |
| SyncProperties.PlanSkipsSameInstant | Demo/Data/.vshistory/ApplicationDbContext.cs/2019-12-29_11_02_36_752.cs:87-97 | a key changed at the same instant on both sides is written to neither table |
| SyncProperties.LocalCopyIsCandidate | Demo/Data/.vshistory/ApplicationDbContext.cs/2019-12-29_11_02_36_752.cs:93-94 | the local copy of a key changed on both sides at different instants survives the filter |
| SyncProperties.RemoteCopyIsCandidate | Demo/Data/.vshistory/ApplicationDbContext.cs/2019-12-29_11_02_36_752.cs:96-97 | the remote copy of such a key survives the filter |
| SyncProperties.ConflictingCandidates | Demo/Data/.vshistory/ApplicationDbContext.cs/2019-12-29_11_02_36_752.cs:99-101 | two copies of a key changed in the window at different instants make it a conflict, and they are the copies First finds |
| SyncProperties.PlanNewestWins | Demo/Data/.vshistory/ApplicationDbContext.cs/2019-12-29_11_02_36_752.cs:78-136 | OverrideOld over a window: of two copies changed in the window at different instants, the strictly newer one is written to the other side and the older one nowhere |
| SyncProperties.StampedMember | Demo/Data/.vshistory/ApplicationDbContext.cs/2019-12-29_10_46_56_725.cs:126-127 | a surviving local change is written with SyncedAt = utcNow |
| SyncProperties.KeptOutsideLosers | Demo/Data/.vshistory/ApplicationDbContext.cs/2019-12-29_10_46_56_725.cs:94-105 | a record whose key is not a conflict survives removing the conflicts |
| DayByDay.TrySyncDayByDay | Demo/Data/.vshistory/ApplicationDbContext.cs/2019-12-29_11_02_36_752.cs:273-313 | the windows tile (last synced, synced-up-to] contiguously; each is non-empty and at most a day; all but the last are exactly a day, and when the loop stops before now the last is too, so each window runs from its start to min(start + 1 day, now); when it started earlier the loop reaches now unless AddDays overflows; an overflow ends it early; the tables end as the window-by-window sync |
| DayByDay.SyncOneWindow | Demo/Data/.vshistory/ApplicationDbContext.cs/2019-12-29_11_02_36_752.cs:292-303 | one window's sync with OverrideOld changes the two tables as SyncWindow says |
| DayByDay.OverrideOldNeverStops | Demo/Data/.vshistory/ApplicationDbContext.cs/2019-12-29_11_02_36_752.cs:278 | with OverrideOld the strategy switch never fails: only Stop throws (line 108) |
| DayByDay.TilesCover | Demo/Data/.vshistory/ApplicationDbContext.cs/2019-12-29_11_02_36_752.cs:286-307 | every instant between the last synced time and the end lies in exactly one window |
| DayByDay.TilesReach | Demo/Data/.vshistory/ApplicationDbContext.cs/2019-12-29_11_02_36_752.cs:288-290 | some window holds each instant of the interval |
| DayByDay.TilesOrdered | Demo/Data/.vshistory/ApplicationDbContext.cs/2019-12-29_11_02_36_752.cs:305-306 | windows do not overlap, and their ends, the successive lastSyncedAt values, strictly increase |
| DayByDay.TilesSnoc | Demo/Data/.vshistory/ApplicationDbContext.cs/2019-12-29_11_02_36_752.cs:288-290 | a window starting where the tiling ends extends it |
| DayByDay.FullDaysSnoc | Demo/Data/.vshistory/ApplicationDbContext.cs/2019-12-29_11_02_36_752.cs:289-290 | all windows stay a full day exactly when the appended one is |
| DayByDay.SyncedThroughSnoc | Demo/Data/.vshistory/ApplicationDbContext.cs/2019-12-29_11_02_36_752.cs:292-306 | one more window applies one more sync to the state so far |
| TimeStamps.StampAll | Demo/Data/.vshistory/ApplicationDbContext.cs/2019-12-29_11_02_36_752.cs:50-68 | stamping keeps every state; added syncable entities get CreatedAt = ChangedAt = now; modified ones get ChangedAt = now and keep CreatedAt; key, SyncedAt and IsDeleted stay; every other entry stays as it was |
| TimeStamps.ChangeTracker.LogTimeStamps | Demo/Data/.vshistory/ApplicationDbContext.cs/2019-12-29_11_02_36_752.cs:50-68 | with KeepTimeStamps nothing changes; otherwise the two loops leave the entries as StampAll says |
| TimeStamps.StampAllOneInstant | Demo/Data/.vshistory/ApplicationDbContext.cs/2019-12-29_10_37_20_394.cs:35 | all entries stamped by one call carry the same instant, because the clock is read once |
| TimeStamps.StampedAddedCreatedWhenChanged | Demo/Data/.vshistory/ApplicationDbContext.cs/2019-12-29_10_39_02_175.cs:37-45 | after stamping, an added syncable entity was created at the instant it last changed |
| TimeStamps.StampAllLastWins | Demo/Data/.vshistory/ApplicationDbContext.cs/2019-12-29_11_02_36_752.cs:26-48 | every save stamps afresh, so stamping twice equals stamping at the later instant, and stamping twice at one instant is idempotent |

## Left out

- The Z.BulkOperations demo programs (`Demo/SinjulMSBH/BulkSynchronize`): they are calls into a commercial library, plus console I/O.
- Database access: queries, `ToListAsync`, `SaveChanges`/`SaveChangesAsync` and persistence, the DbContext configuration and the Identity base class. A table is its sequence of rows in storage order.
- Asynchrony: every `await` is a sequential call.
- Change tracking:
  - A stamped local change is written to the remote table, but the tracked local entity that also gets SyncedAt through `ForEach` is not persisted here.
  - EF's identity-map rule is left out.
    - The window queries track the rows they load (lines 78-85). The losing copy of a conflicting key stays tracked after `List.Remove`.
    - Writing the winning copy into that table goes through `AddOrUpdate`. It loads an untracked copy (line 182) and marks it Modified (lines 191-192), while another instance with that key is already tracked.
    - Under EF this most likely throws `InvalidOperationException`. The model does not capture that, and it does not capture what follows in the day loop: the catch (lines 309-312) ends the loop before `WriteLastSyncedTime` (line 305).
    - So the model's conflict resolution under the three non-Stop strategies describes the intended outcome, not necessarily what the running program does when a window has a conflict.
  - The separate `AddOrUpdate(DbContext, object)` switch over EntityState (lines 247-266 of the latest version) is left out.
- Reflection: `GetContext`, and the PropertyInfo key search in `AddOrUpdate`. The key is always the Guid `Id`, so the "no KeyAttribute field" exception (line 180) cannot arise and is omitted.
- `AddOrUpdate` with a key expression (lines 198-238): it is not called by the synchronisation.
- `Mapper.Map(changed, target, excludes)`: it is a foreign mapper, modelled as a copy of the record. Property exclusion is not modelled.
- `default: throw new ArgumentOutOfRangeException` in the strategy switch (lines 137-138): a C# enum can hold any integer, so a caller passing an undeclared value such as `(SyncStrategy)4` would reach it. No caller shown does. The four-constructor `SyncStrategy` datatype cannot express such a value, so this error path is not modelled.
- The environment:
  - `DateTime.UtcNow` is a parameter.
  - `ConfigurationManager`, the logger, `ReadLastSyncedTime` and `WriteLastSyncedTime` are left out.
  - The persisted last-synced time is the `syncedUpTo` result and the ends of the returned windows.
- DayByDay.TrySyncDayByDay: it syncs one table pair per window. The source syncs Persons, Pages, Books and Shelves in turn, with saves between them; these are four independent instances of the same step.
- DayByDay.TrySyncDayByDay: only `AddDays` overflow past DateTime.MaxValue is modelled as the caught exception. In the model, a window's sync cannot fail under OverrideOld, because its strategy switch only throws for Stop. These are not modelled: the change-tracking exception described under "Change tracking" above, and faults of the database or the network.
- Entities.RemoveFirstWithId: its own contract states only the length. What it removes is stated by Entities.RemoveIsDrop.
- `KeepTimeStamps` has a private setter in the source but is set in object initialisers. The model takes it as a constructor argument.
- `ILogTimeStamps` is not part of this model. The cast in `LogTimeStamps` is read as access to the ISyncableEntity timestamps.
- The four saved versions do not compile as written. There are extension methods in a non-static class, a missing closing brace before `TrySyncDayByDayAsync`, and overrides without matching base members. The model follows the evident intended logic.
