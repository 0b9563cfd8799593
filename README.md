# lbx-change-sets: the change-set repositories, modelled in Dafny

`CrudChangeSetRepository` wraps a LoopBack entity table. Every mutation of a tracked entity
records a *change-set* in a second table. A change-set holds a type (CREATE, REPLACE, RESET,
UPDATE, DELETE, RESTORE), the owning entity id, a timestamp and the acting user. For every
field whose value changed, a *change* row with the key, the previous value and the new value
goes into a third table.

The repository can reset the effect of one change-set on its entity, and it can roll an entity
back to a date by resetting every newer change-set, newest first.
`CrudChangeSetSoftDeleteRepository` adds a `deleted` flag. The flag is never diffed. Entities
can be soft-deleted and restored, each with a change-set of its own, and the bulk operations
can be restricted to deleted or to live entities.

The model has these parts:

- `models.dfy` (module `Models`): field values, where `Absent` stands for `undefined`. It also
  holds records, change-sets, changes, equality filters, `find` and `findById`.
- `diff.dfy` (module `Diff`): the shallow diff. `getKeysToIncludeInChangeSet`, `hasValueChanged`
  and `getChangesFromData` are each a specification function plus a method with the source's
  loop, proved equal to the function. Undo and redo payloads of a diff and their round trip are
  here too.
- `audit_log.dfy` (module `AuditLog`): the change-set and change tables as sequences. It has the
  per-entity audit trail `History` (each change-set of the entity with its changes as a diff),
  the table invariant (ids and timestamps strictly increasing, no orphan change rows, no
  excluded key recorded), and how appending and deleting change-sets act on every trail.
- `rollback.dfy` (module `Rollback`): the values a reset writes back, and which change-sets a
  rollback to a date consumes and in which order. It also has the newest-first merge of the
  written-back values and the "oldest change-set touching a key wins" rule.
- `crud_change_set_repository.dfy` (module `CrudChangeSet`): the class `CrudChangeSetRepository`.
  Its fields are the three tables, a logical clock, an id counter, the current user, the
  excluded keys and the model defaults. There is one method per repository operation.
- `crud_change_set_soft_delete_repository.dfy` (module `CrudChangeSetSoftDelete`): the class
  `CrudChangeSetSoftDeleteRepository` over a `CrudChangeSetRepository` whose excluded keys
  include `deleted`. This file also has the `whereWithDeleted` helper.

Every state-changing method states the whole new state: the entity table, and each entity's
audit trail as a function of the old one. It keeps the table invariant `Valid()`.

The change-set model file names the timestamp and user fields `createdAt`/`createdBy`
(src/models/change-set.model.ts:41,50). The repository writes and filters `changedAt`/`changedBy`
(src/repositories/crud-change-set.repository.ts:260-262,365-366). The model has one timestamp
field and follows the repository's name for it.

## Model

| member | source | states |
|---|---|---|
| Models.Find | src/repositories/crud-change-set.repository.ts:57 | an entity is found exactly when it satisfies every condition of the filter, and it is returned with its stored fields |
| Models.FindById | src/repositories/crud-change-set.repository.ts:63 | succeeds exactly when the id is stored, with the stored fields; otherwise NotFound |
| Diff.KeysToIncludeInChangeSet | src/repositories/crud-change-set.repository.ts:417-425 | the included keys are exactly the payload's keys that are not excluded |
| Diff.GetKeysToIncludeInChangeSet | src/repositories/crud-change-set.repository.ts:417-425 | the key-by-key loop collects exactly the included keys |
| Diff.ChangesFromData | src/repositories/crud-change-set.repository.ts:383-409 | only payload keys that are not excluded appear; each change's new value is the payload's and its previous value is the entity's (Absent for CREATE); no change has equal previous and new values; every included key whose value differs does appear |
| Diff.GetChangesFromData | src/repositories/crud-change-set.repository.ts:383-396 | the loop over the included keys produces exactly the diff |
| Diff.NoChangesWhenDataAgrees | src/repositories/crud-change-set-soft-delete.repository.ts:160-162 | a payload that agrees with the entity on every included key yields an empty diff, so `softDelete`'s change-set and update record no change |
| Diff.NoChangesForFlagOnly | src/repositories/crud-change-set-soft-delete.repository.ts:201 | the entity's own fields with only an excluded flag changed yield an empty diff, as in `restore`'s payload |
| Diff.Undo | src/repositories/crud-change-set.repository.ts:127-129 | the undo payload has the diff's keys, each set to its previous value |
| Diff.Redo | src/repositories/crud-change-set.repository.ts:124-125 | the redo payload has the diff's keys, each set to its new value |
| Diff.DiffRoundTrip | src/repositories/crud-change-set.repository.ts:383-396 | on every included key, redoing an update's diff on the old entity gives the updated entity, and undoing it on the updated entity gives back the old one |
| AuditLog.ChangesOf | src/repositories/crud-change-set.repository.ts:120 | the change rows of a change-set are exactly the rows it owns |
| AuditLog.OwnedBy | src/repositories/crud-change-set.repository.ts:339 | the change-sets of an entity are exactly those it owns |
| AuditLog.WithoutChangeSets | src/repositories/crud-change-set.repository.ts:342 | exactly the change-sets with the given ids are removed |
| AuditLog.WithoutChangesOf | src/repositories/crud-change-set.repository.ts:341 | exactly the change rows owned by the given change-sets are removed |
| AuditLog.RowsRecordDiff | src/repositories/crud-change-set.repository.ts:369-371 | one row per changed key, each with that key's values, reads back as exactly the diff |
| AuditLog.RowsRecordOnePerKey | src/repositories/crud-change-set.repository.ts:369-371 | the rows of one change-set are exactly as many as the diff's keys, no key twice, all owned by that change-set |
| AuditLog.DiffOfCovers | src/repositories/crud-change-set.repository.ts:369-371 | change rows that agree with a diff and cover its keys read back as exactly that diff |
| AuditLog.InHistory | src/repositories/crud-change-set.repository.ts:264 | an entity's trail holds exactly its own change-sets, each with its rows |
| AuditLog.ChronologicalAppend | src/repositories/crud-change-set.repository.ts:361-368 | appending a change-set with a larger id and a later stamp keeps the table ordered |
| AuditLog.UniqueIds | src/repositories/crud-change-set.repository.ts:368 | in an ordered table two change-sets with the same id are the same |
| AuditLog.HistoryChronological | src/repositories/crud-change-set.repository.ts:262 | every entity's trail is in strictly increasing stamp order |
| AuditLog.AppendWellFormed | src/repositories/crud-change-set.repository.ts:356-372 | appending a fresh, later change-set with rows it owns and no excluded key keeps the table invariant |
| AuditLog.HistoryAppend | src/repositories/crud-change-set.repository.ts:368-371 | appending a change-set and its rows extends its owner's trail by one entry with the rows' diff and leaves every other trail alone |
| AuditLog.HistoryRemove | src/repositories/crud-change-set.repository.ts:340-343 | deleting change-sets with their rows removes exactly their entries from every trail |
| AuditLog.DeleteOwnedHistory | src/repositories/crud-change-set.repository.ts:338-344 | deleting an entity's change-sets with their rows empties its trail and leaves every other trail alone |
| AuditLog.HistoryAvoids | src/repositories/crud-change-set.repository.ts:25 | when no change row records an excluded key, no trail entry does |
| AuditLog.KeepAppended | src/repositories/crud-change-set.repository.ts:133-138 | deleting other change-sets after appending one keeps the appended entry last |
| AuditLog.AppendedOne | src/repositories/crud-change-set.repository.ts:58 | one change-set recorded for one entity is the one-entity case of the bulk append |
| AuditLog.AppendedEachStep | src/repositories/crud-change-set.repository.ts:58 | recording one entity and then the rest is recording all of them |
| AuditLog.ConsumeAsWritten | src/repositories/crud-change-set.repository.ts:137 | the change-set is gone and the change table is left as it was |
| AuditLog.ConsumeAsWrittenLeavesOrphans | src/repositories/crud-change-set.repository.ts:137 | a table of one change-set with one change and no orphan rows is left with an orphan row |
| AuditLog.Consume | src/repositories/crud-change-set.repository.ts:137 | the corrected form of the consumption at this line (see Findings), not the line as written: the change-set and exactly its rows are gone, and a table without orphan rows stays so |
| AuditLog.ConsumeWellFormed | src/repositories/crud-change-set.repository.ts:137 | the corrected consumption (see Findings) keeps the table invariant; the line as written does not keep its no-orphans part |
| AuditLog.ConsumeHistory | src/repositories/crud-change-set.repository.ts:137 | the corrected consumption (see Findings), deleting the change-set with its rows, removes exactly its entry from every trail |
| Rollback.ValuesToRestore | src/repositories/crud-change-set.repository.ts:124-129 | a reset writes back exactly the diff's keys: new values for a preserved CREATE, previous values otherwise |
| Rollback.ResetValuesFromTrail | src/repositories/crud-change-set.repository.ts:121-131 | building the payload row by row gives exactly the values the change-set's diff says to restore |
| Rollback.CollectResetValues | src/repositories/crud-change-set.repository.ts:121-131 | the loop over the change rows builds exactly that payload |
| Rollback.Since | src/repositories/crud-change-set.repository.ts:259-264 | the targets are exactly the trail's entries stamped at or after the date |
| Rollback.SinceNewestFirst | src/repositories/crud-change-set.repository.ts:262 | the targets come newest first, by stamp and by id |
| Rollback.Steps | src/repositories/crud-change-set.repository.ts:266-273 | one written-back payload per target, in target order |
| Rollback.Accumulate | src/repositories/crud-change-set.repository.ts:274 | the merged payload has exactly the keys some step wrote |
| Rollback.AccumulateWins | src/repositories/crud-change-set.repository.ts:274 | a key takes its value from the last merged step that wrote it |
| Rollback.OldestTouchWins | src/repositories/crud-change-set.repository.ts:262-274 | in a rollback each key takes the value restored by the oldest consumed change-set that touched it |
| Rollback.AccumulateCons | src/repositories/crud-change-set.repository.ts:274 | merging the first step, then the rest, is merging the rest over the first |
| Rollback.AccumulateAvoids | src/repositories/crud-change-set.repository.ts:266-275 | a rollback writes back no key that no target recorded |
| Rollback.RollbackKeepsUntracked | src/repositories/crud-change-set.repository.ts:266-275 | a rollback leaves an excluded field as it was |
| Rollback.RollbackRestoresUpdates | src/repositories/crud-change-set.repository.ts:252-280 | rolling back a series of updates, newest first, restores every included field to its value before the first update |
| Rollback.ConsumedBy | src/repositories/crud-change-set.repository.ts:136-138 | a reset deletes its change-set exactly when it is not a preserved CREATE change-set |
| Rollback.NextTarget | src/repositories/crud-change-set.repository.ts:266-275 | halfway through a rollback the next target is still stored with its rows, and consuming it leaves every other trail alone |
| Rollback.ScenarioResetSingle | src/__tests__/unit/crud-change-set.repository.test.ts:216-233 | for an entity created as James Smith, updated to Max Mustermann and then to Max Smith, resetting the first UPDATE writes back James Smith, and its RESET diff against the snapshot is only `firstName` from Max to James |
| Rollback.ScenarioRollbackToCreate | src/__tests__/unit/crud-change-set.repository.test.ts:235-275 | rolling that entity back to the stamp of its CREATE change-set, preserving it, gives James Smith again; both UPDATEs are consumed so only the CREATE entry stays before the RESET; the RESET diff is only `firstName` from Max to James |
| CrudChangeSet.UpdatesOf | src/repositories/crud-change-set.repository.ts:58 | each matched entity gets the UPDATE diff of the payload against its own fields |
| CrudChangeSet.ByIdFilter | src/repositories/crud-change-set.repository.ts:55 | the filter `{id}` matches that entity alone, so `updateById` through `updateAll` merges the payload into it alone |
| CrudChangeSet.RolledBackOne | src/repositories/crud-change-set.repository.ts:328 | one entity rolled back from its stored fields is the one-entity case of the bulk rollback |
| CrudChangeSet.RolledBackEachStep | src/repositories/crud-change-set.repository.ts:328 | rolling back one entity and then the rest is rolling back all of them |
| CrudChangeSet.CrudChangeSetRepository.constructor | src/repositories/crud-change-set.repository.ts:25 | empty tables, `changeSets` always excluded from diffs, table invariant holds |
| CrudChangeSet.CrudChangeSetRepository.CreateChangeSet | src/repositories/crud-change-set.repository.ts:356-372 | nothing is recorded exactly when the diff is empty and not forced; otherwise one change-set is appended with the next id, a strictly later stamp, the type, the user and the owner; the change table keeps its old rows and gains exactly one row of that change-set per changed key, with that key's values; the owner's trail grows by that entry with exactly the diff; other trails unchanged |
| CrudChangeSet.CrudChangeSetRepository.AddChanges | src/repositories/crud-change-set.repository.ts:369-371 | appends exactly one change row of the change-set per key of the diff, carrying that key's previous and new values |
| CrudChangeSet.CrudChangeSetRepository.Create | src/repositories/crud-change-set.repository.ts:45-49 | stores a new entity with the defaults under the payload, and its trail gets the CREATE entry of the payload's diff (no entry when that diff is empty); other trails unchanged |
| CrudChangeSet.CrudChangeSetRepository.CreateAll | src/repositories/crud-change-set.repository.ts:51-53 | one new entity per payload with fresh increasing ids, each created as by `create`; stored entities and other trails unchanged, and no entity other than the created ones added |
| CrudChangeSet.CrudChangeSetRepository.RecordUpdates | src/repositories/crud-change-set.repository.ts:58 | every matched entity's trail gets the UPDATE entry of the payload against its pre-update fields; other trails unchanged |
| CrudChangeSet.CrudChangeSetRepository.UpdateAll | src/repositories/crud-change-set.repository.ts:56-60 | returns the number of matches, merges the payload into each match, records each match's UPDATE diff against its old fields and touches no other trail |
| CrudChangeSet.CrudChangeSetRepository.UpdateById | src/repositories/crud-change-set.repository.ts:55 | succeeds exactly when the entity exists; it then merges the payload and records its UPDATE diff; otherwise NotFound with entities and trail unchanged |
| CrudChangeSet.CrudChangeSetRepository.ReplaceById | src/repositories/crud-change-set.repository.ts:62-66 | a missing entity is NotFound and changes nothing; otherwise the REPLACE diff against the loaded fields is recorded and the fields become the payload |
| CrudChangeSet.CrudChangeSetRepository.UpdateByIdWithoutChangeSet | src/repositories/crud-change-set.repository.ts:151-162 | an undefined id is InvalidArgument, a missing entity NotFound, otherwise the payload is merged; the audit tables never change |
| CrudChangeSet.CrudChangeSetRepository.DeleteChangeSetWithChanges | src/repositories/crud-change-set.repository.ts:341-342 | removes the change-set with exactly its rows, NotFound when it is not stored; every trail loses exactly that entry |
| CrudChangeSet.CrudChangeSetRepository.DeleteChangeSetsForEntity | src/repositories/crud-change-set.repository.ts:338-344 | removes every change-set the entity owns with its rows; its trail is empty and every other trail unchanged |
| CrudChangeSet.CrudChangeSetRepository.DeleteEach | src/repositories/crud-change-set.repository.ts:340-343 | the loop removes exactly the given change-sets and their rows |
| CrudChangeSet.CrudChangeSetRepository.DeleteById | src/repositories/crud-change-set.repository.ts:90-93 | the entity's change-sets and rows go first, then the entity; NotFound exactly when it was missing; other trails unchanged |
| CrudChangeSet.CrudChangeSetRepository.DeleteAll | src/repositories/crud-change-set.repository.ts:75-80 | returns the number of matches, removes exactly the matches and empties exactly their trails |
| CrudChangeSet.CrudChangeSetRepository.DeleteEachById | src/repositories/crud-change-set.repository.ts:78 | removes exactly the given entities and empties exactly their trails |
| CrudChangeSet.CrudChangeSetRepository.ResetSingleChangeSet | src/repositories/crud-change-set.repository.ts:108-140 | another entity's change-set is refused (OwnershipMismatch) and a missing entity is NotFound, both changing nothing; otherwise the change-set's restore values are merged into the entity, an optional RESET entry is diffed against the snapshot, the change-set goes unless it is a preserved CREATE, and with it its rows (the corrected consumption of line 137, see Findings), and the reloaded entity with the written-back values is returned |
| CrudChangeSet.CrudChangeSetRepository.RecordResetAndConsume | src/repositories/crud-change-set.repository.ts:133-138 | the optional RESET entry against the snapshot, then the consumed change-set deleted with its rows (the corrected form of line 137, see Findings), so its entry leaves every trail; NotFound exactly when a consumed change-set was not stored |
| CrudChangeSet.CrudChangeSetRepository.ResetSingleChangeSetById | src/repositories/crud-change-set.repository.ts:177-186 | a missing entity is NotFound and changes nothing; otherwise as `resetSingleChangeSet` on the stored entity |
| CrudChangeSet.CrudChangeSetRepository.ResetTargets | src/repositories/crud-change-set.repository.ts:265-275 | resets the targets newest first without RESET entries: the entity's fields take the merged written-back values, which are returned, and exactly the consumed change-sets leave its trail |
| CrudChangeSet.CrudChangeSetRepository.RollbackToDate | src/repositories/crud-change-set.repository.ts:252-280 | a missing entity is NotFound and changes nothing; otherwise the entity's fields are the rolled-back fields of its trail, every change-set stamped at or after the date leaves the trail unless it is a preserved CREATE, one optional RESET entry is diffed against the snapshot, and the reloaded entity is returned; other trails unchanged |
| CrudChangeSet.CrudChangeSetRepository.RollbackToDateById | src/repositories/crud-change-set.repository.ts:295-304 | a missing entity is NotFound and changes nothing; otherwise as `rollbackToDate` on the stored entity |
| CrudChangeSet.CrudChangeSetRepository.RollbackToChangeSet | src/repositories/crud-change-set.repository.ts:202-210 | `rollbackToDate` to the change-set's stamp |
| CrudChangeSet.CrudChangeSetRepository.RollbackToChangeSetById | src/repositories/crud-change-set.repository.ts:226-237 | another entity's change-set is OwnershipMismatch and changes nothing; otherwise as `rollbackToDateById` to the change-set's stamp |
| CrudChangeSet.CrudChangeSetRepository.RollbackAllToDate | src/repositories/crud-change-set.repository.ts:319-330 | returns the number of matches and rolls each back from the snapshot the query returned; other entities and trails unchanged |
| CrudChangeSet.CrudChangeSetRepository.RollbackEach | src/repositories/crud-change-set.repository.ts:328 | each snapshot's entity is rolled back from that snapshot; other entities and trails unchanged |
| CrudChangeSetSoftDelete.WhereWithDeleted | src/repositories/crud-change-set-soft-delete.repository.ts:237-239 | the filter keeps its id and every other condition, and its `deleted` condition is the given value, whatever it was |
| CrudChangeSetSoftDelete.WhereWithDeletedMatches | src/repositories/crud-change-set-soft-delete.repository.ts:237-239 | an entity matches the rewritten filter exactly when it matches the other conditions and its flag is the value |
| CrudChangeSetSoftDelete.FindWithDeleted | src/repositories/crud-change-set-soft-delete.repository.ts:56-74 | the query with the rewritten filter finds exactly the matches of the other conditions with that flag |
| CrudChangeSetSoftDelete.SoftDeletedFields | src/repositories/crud-change-set-soft-delete.repository.ts:162 | the flag is set and every other field is kept |
| CrudChangeSetSoftDelete.MergedFlag | src/repositories/crud-change-set-soft-delete.repository.ts:162 | merging `{deleted: true}` gives exactly the soft-deleted fields |
| CrudChangeSetSoftDelete.RestoredFields | src/repositories/crud-change-set-soft-delete.repository.ts:201-203 | the snapshot with the flag cleared is written over the stored fields; stored fields the snapshot lacks are kept |
| CrudChangeSetSoftDelete.RestoreUndoesSoftDelete | src/repositories/crud-change-set-soft-delete.repository.ts:155-204 | restoring a soft-deleted live entity from its own snapshot gives back exactly the fields it had before |
| CrudChangeSetSoftDelete.RestoredFromStored | src/repositories/crud-change-set-soft-delete.repository.ts:201-203 | restoring from the stored fields themselves only clears the flag |
| CrudChangeSetSoftDelete.WithFlag | src/repositories/crud-change-set-soft-delete.repository.ts:183-188 | the given entities get the flag value and every other entity is unchanged |
| CrudChangeSetSoftDelete.WithFlagStep | src/repositories/crud-change-set-soft-delete.repository.ts:186 | flagging one entity, then the rest, is flagging all of them |
| CrudChangeSetSoftDelete.NoChanges | src/repositories/crud-change-set-soft-delete.repository.ts:186 | an empty diff for each given entity |
| CrudChangeSetSoftDelete.CrudChangeSetSoftDeleteRepository.constructor | src/repositories/crud-change-set-soft-delete.repository.ts:21 | the excluded keys are `changeSets` and `deleted`, and `deleted` defaults to false |
| CrudChangeSetSoftDelete.CrudChangeSetSoftDeleteRepository.FlagNeverRecorded | src/repositories/crud-change-set-soft-delete.repository.ts:21 | no entry of an entity's trail records the flag |
| CrudChangeSetSoftDelete.CrudChangeSetSoftDeleteRepository.FlagNeverRecordedAll | src/repositories/crud-change-set-soft-delete.repository.ts:21 | no trail entry of any entity records the flag |
| CrudChangeSetSoftDelete.CrudChangeSetSoftDeleteRepository.FindDeleted | src/repositories/crud-change-set-soft-delete.repository.ts:56-61 | exactly the matches of the other conditions that are flagged as deleted |
| CrudChangeSetSoftDelete.CrudChangeSetSoftDeleteRepository.FindNonDeleted | src/repositories/crud-change-set-soft-delete.repository.ts:69-74 | exactly the matches of the other conditions whose flag is false |
| CrudChangeSetSoftDelete.CrudChangeSetSoftDeleteRepository.FindPartition | src/repositories/crud-change-set-soft-delete.repository.ts:56-74 | when every flag is a boolean, the deleted and non-deleted matches are disjoint and together are all matches |
| CrudChangeSetSoftDelete.CrudChangeSetSoftDeleteRepository.DeleteAllDeleted | src/repositories/crud-change-set-soft-delete.repository.ts:45-48 | returns the number of deleted matches, removes exactly them and empties exactly their trails |
| CrudChangeSetSoftDelete.CrudChangeSetSoftDeleteRepository.UpdateAllDeleted | src/repositories/crud-change-set-soft-delete.repository.ts:83-86 | returns the number of deleted matches; exactly they get the payload and an UPDATE entry |
| CrudChangeSetSoftDelete.CrudChangeSetSoftDeleteRepository.UpdateAllNonDeleted | src/repositories/crud-change-set-soft-delete.repository.ts:95-98 | returns the number of live matches; exactly they get the payload and an UPDATE entry |
| CrudChangeSetSoftDelete.CrudChangeSetSoftDeleteRepository.RollbackAllDeletedToDate | src/repositories/crud-change-set-soft-delete.repository.ts:113-122 | returns the number of deleted matches, rolls exactly them back, and they stay flagged as deleted |
| CrudChangeSetSoftDelete.CrudChangeSetSoftDeleteRepository.RollbackAllNonDeletedToDate | src/repositories/crud-change-set-soft-delete.repository.ts:137-146 | returns the number of live matches, rolls exactly them back, and none becomes flagged |
| CrudChangeSetSoftDelete.CrudChangeSetSoftDeleteRepository.SoftDelete | src/repositories/crud-change-set-soft-delete.repository.ts:155-163 | an already-flagged snapshot changes nothing; otherwise one forced DELETE entry with no changes, then the flag is set with nothing else recorded (NotFound when the entity is gone) |
| CrudChangeSetSoftDelete.CrudChangeSetSoftDeleteRepository.SoftDeleteById | src/repositories/crud-change-set-soft-delete.repository.ts:172-175 | a missing entity is NotFound and changes nothing; otherwise as `softDelete` on the stored entity |
| CrudChangeSetSoftDelete.CrudChangeSetSoftDeleteRepository.SoftDeleteAll | src/repositories/crud-change-set-soft-delete.repository.ts:183-188 | returns the number of live matches; exactly they are flagged and get one DELETE entry with no changes |
| CrudChangeSetSoftDelete.CrudChangeSetSoftDeleteRepository.SoftDeleteEach | src/repositories/crud-change-set-soft-delete.repository.ts:186 | each live snapshot's entity is flagged with one DELETE entry; nothing else changes |
| CrudChangeSetSoftDelete.CrudChangeSetSoftDeleteRepository.SoftDeleteStored | src/repositories/crud-change-set-soft-delete.repository.ts:155-163 | a live stored entity gets only its flag set and one DELETE entry with no changes |
| CrudChangeSetSoftDelete.CrudChangeSetSoftDeleteRepository.Restore | src/repositories/crud-change-set-soft-delete.repository.ts:196-204 | an unflagged snapshot changes nothing; otherwise one forced RESTORE entry with no changes, then the snapshot with the flag cleared is written over the stored fields with nothing else recorded (NotFound when the entity is gone) |
| CrudChangeSetSoftDelete.CrudChangeSetSoftDeleteRepository.RestoreById | src/repositories/crud-change-set-soft-delete.repository.ts:212-215 | a missing entity is NotFound and changes nothing; otherwise as `restore` on the stored entity |
| CrudChangeSetSoftDelete.CrudChangeSetSoftDeleteRepository.RestoreAll | src/repositories/crud-change-set-soft-delete.repository.ts:223-228 | returns the number of deleted matches; exactly they are unflagged and get one RESTORE entry with no changes |
| CrudChangeSetSoftDelete.CrudChangeSetSoftDeleteRepository.RestoreEach | src/repositories/crud-change-set-soft-delete.repository.ts:226 | each flagged snapshot's entity is unflagged with one RESTORE entry; nothing else changes |
| CrudChangeSetSoftDelete.CrudChangeSetSoftDeleteRepository.RestoreStored | src/repositories/crud-change-set-soft-delete.repository.ts:196-204 | a flagged stored entity gets only its flag cleared and one RESTORE entry with no changes |

## Left out

- I/O, `async`/`await`, transactions and the `options` pass-through: the store is three in-memory tables.
- LoopBack dependency injection, the relation factories and inclusion resolvers, and the backup services: wiring and shell I/O, not logic.
- Concurrency: `Promise.all` in `createAll`, `updateAll`, `deleteAll`, `rollbackAllToDate`, `softDeleteAll` and `restoreAll` is modelled as one call after another.
- `sleep(1)` and `new Date()`: replaced by a logical clock that every recorded change-set advances.
- `getChangedByUserId`: the security context is not modelled. The resolved user is the field `currentUser`, `None` when none resolves.
- Ids are uuids in the store. The model draws entity, change-set and change ids from one counter.
- `ResetSingleChangeSet`, `RecordResetAndConsume`, `ResetSingleChangeSetById`: require the given change-set's id to have been handed out by the counter (`cs.id < nextId`). This is the counter's stand-in for a uuid never being reused, so a caller's change-set cannot collide with a later one.
- `ResetSingleChangeSet`, `RecordResetAndConsume`, `ResetSingleChangeSetById`, `ResetTargets`, `RollbackToDate`, `RollbackToDateById`, `RollbackToChangeSet`, `RollbackToChangeSetById`, `RollbackAllToDate`, `RollbackEach`, and the soft-delete rollbacks `RollbackAllDeletedToDate` and `RollbackAllNonDeletedToDate`: consume a change-set with the corrected deletion from the Findings table. That deletion removes the change rows first and then the change-set. The source's `deleteById` at line 137 leaves those rows behind. So after a reset or rollback the model's change table is smaller than the source's by the consumed change-sets' rows. The no-orphans part of `Valid()` holds only for the corrected form; it would not hold as written. The entity table differs too, on a later reset of a change-set that was already consumed. The source's `changes(changeSet.id).find()` at line 120 still returns the orphan rows. So the source writes their values back into the entity, records a RESET change-set when that diff is not empty, and only then fails with NotFound at line 137. In the model no rows remain, so such a reset writes nothing back, records nothing and returns NotFound.
- LoopBack filter syntax (`gte`, `order`, `include`, operators other than equality): filters are an optional id plus equality conditions on fields. The date query of `rollbackToDate` is the trail filtered and reversed.
- The key order of a payload and of the change rows: payloads are maps, and the change rows of a change-set are appended in an unspecified key order.
- `hasValueChanged`: the `JSON.stringify` test and object identity are not modelled. Field values are plain data, so a change is recorded exactly when the values differ. Two distinct objects with equal contents, which the source counts as changed, cannot occur.
- Field values are strings, integers, booleans and `undefined` only; nested objects and dates are not modelled.
- `replaceById` in LoopBack drops the fields the payload lacks. The model's fields become exactly the payload, and defaults are applied only by `create`.
- The inheritance of the soft-delete repository is modelled as composition: it holds a base repository whose excluded keys include `deleted` and whose defaults set `deleted` to false.
- `restore` also clears the flag on the caller's object. The model's snapshots are values, so this side effect on the caller is not modelled.
- `softDelete` and `restore` print a warning when they return early. That output is not modelled.
- `CrudChangeSetSoftDeleteRepository.FindPartition`: requires every stored flag to be a boolean. A flag that is missing or of another type matches neither `deleted: true` nor `deleted: false`.
- `createChangesFromData` is never called and is not modelled.

## Findings

| source | as written | input that shows it | evidently intended | confidence | as-written member | corrected member |
|---|---|---|---|---|---|---|
| src/repositories/crud-change-set.repository.ts:137 | a consumed change-set is deleted with `changeSetRepository.deleteById`, which does not cascade to its change rows, so they stay behind without an owner | a table with change-set 1 (UPDATE of entity 2) and its change row 2 (`firstName`: `James` to `Max`); reset change-set 1. Row 2 stays. If entity 2 is then updated to `Max` and change-set 1 is reset again, the orphan row writes `James` back and a RESET is recorded before the NotFound | delete the change rows first, then the change-set, as `deleteChangeSetsForEntity` does at lines 341-342 | not executed | AuditLog.ConsumeAsWrittenLeavesOrphans | CrudChangeSet.CrudChangeSetRepository.DeleteChangeSetWithChanges |
