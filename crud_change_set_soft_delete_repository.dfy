/**
 * The soft-delete variant of the change-set repository: entities carry a `deleted` flag that
 * is never diffed, can be flagged as deleted and restored, each with a change-set of its own,
 * and the bulk operations can be restricted to deleted or to live entities.
 */
module CrudChangeSetSoftDelete {
  import opened Wrappers
  import opened Models
  import opened Diff
  import opened AuditLog
  import opened Rollback
  import opened CrudChangeSet

  /** `whereWithDeleted(value, where)`: the filter `where` with its `deleted` condition set to `value`. */
  function WhereWithDeleted(value: bool, w: Where): (r: Where)
    ensures r.id == w.id && r.fields.Keys == w.fields.Keys + {DeletedKey}
    ensures r.fields[DeletedKey] == Flag(value)
    ensures forall k :: k in w.fields && k != DeletedKey ==> r.fields[k] == w.fields[k]
  {
    Where(w.id, w.fields[DeletedKey := Flag(value)])
  }

  /** The fields of an entity after `softDelete`: the flag set, nothing else touched. */
  function SoftDeletedFields(stored: Record): (fields: Record)
    ensures fields.Keys == stored.Keys + {DeletedKey} && Truthy(Get(fields, DeletedKey))
    ensures forall k :: k in stored && k != DeletedKey ==> fields[k] == stored[k]
  {
    stored[DeletedKey := Flag(true)]
  }

  /** `updateById` with the payload `{deleted: true}` merges exactly the soft-deleted flag. */
  lemma MergedFlag(stored: Record)
    ensures stored + map[DeletedKey := Flag(true)] == SoftDeletedFields(stored)
  {
    var merged := stored + map[DeletedKey := Flag(true)];
    assert merged.Keys == SoftDeletedFields(stored).Keys;
  }

  /**
   * The fields of an entity after `restore` from the snapshot `entity`: the whole snapshot,
   * flag cleared, written over the stored fields.
   */
  function RestoredFields(stored: Record, entity: Record): (fields: Record)
    ensures fields.Keys == stored.Keys + entity.Keys + {DeletedKey} && Get(fields, DeletedKey) == Flag(false)
    ensures forall k :: k in entity && k != DeletedKey ==> fields[k] == entity[k]
    ensures forall k :: k in stored && k !in entity && k != DeletedKey ==> fields[k] == stored[k]
  {
    stored + entity[DeletedKey := Flag(false)]
  }

  /** Restoring a soft-deleted entity from its own snapshot brings back the fields it had before. */
  lemma RestoreUndoesSoftDelete(fields: Record)
    requires Get(fields, DeletedKey) == Flag(false)
    ensures RestoredFields(SoftDeletedFields(fields), SoftDeletedFields(fields)) == fields
  {
    var restored := RestoredFields(SoftDeletedFields(fields), SoftDeletedFields(fields));
    assert DeletedKey in fields;
    assert restored.Keys == fields.Keys;
  }

  /** Restoring from the stored fields themselves only clears the flag. */
  lemma RestoredFromStored(stored: Record)
    ensures RestoredFields(stored, stored) == stored[DeletedKey := Flag(false)]
  {
    var restored := RestoredFields(stored, stored);
    assert restored.Keys == stored.Keys + {DeletedKey};
  }

  /** The entity table with the flag of every entity of `ids` set to `value`, nothing else touched. */
  function WithFlag(entities: map<Id, Record>, ids: set<Id>, value: bool): (flagged: map<Id, Record>)
    ensures flagged.Keys == entities.Keys
    ensures forall id :: id in entities && id in ids ==> Get(flagged[id], DeletedKey) == Flag(value)
    ensures forall id :: id in entities && id !in ids ==> flagged[id] == entities[id]
  {
    map id | id in entities :: if id in ids then entities[id][DeletedKey := Flag(value)] else entities[id]
  }

  /** Flagging one entity of `snapshots`, then the rest, is flagging them all. */
  lemma WithFlagStep(entities: map<Id, Record>, id: Id, snapshots: map<Id, Record>, value: bool)
    requires id in entities && id in snapshots
    ensures WithFlag(entities[id := entities[id][DeletedKey := Flag(value)]], (snapshots - {id}).Keys, value)
         == WithFlag(entities, snapshots.Keys, value)
  {
    var left := WithFlag(entities[id := entities[id][DeletedKey := Flag(value)]], (snapshots - {id}).Keys, value);
    var right := WithFlag(entities, snapshots.Keys, value);
    assert left.Keys == right.Keys;
    forall x | x in left ensures left[x] == right[x] {
    }
  }

  /** An empty diff for each entity of `ids`: flagging records no change rows. */
  function NoChanges(ids: set<Id>): (diffs: map<Id, map<Key, NewChange>>)
    ensures diffs.Keys == ids
    ensures forall id :: id in diffs ==> diffs[id] == map[]
  {
    map id | id in ids :: map[]
  }

  /** The empty diffs of all but one entity of `snapshots` are those of all, that one removed. */
  lemma NoChangesWithout(snapshots: map<Id, Record>, id: Id)
    ensures NoChanges((snapshots - {id}).Keys) == NoChanges(snapshots.Keys) - {id}
  {
    assert (snapshots - {id}).Keys == snapshots.Keys - {id};
  }

  /** The filter `w` without its `deleted` condition. */
  function WithoutDeleted(w: Where): Where {
    Where(w.id, w.fields - {DeletedKey})
  }

  /**
   * An entity matches `whereWithDeleted(value, w)` exactly when it matches every other condition
   * of `w` and its flag is `value`, whatever `w` said about the flag.
   */
  lemma WhereWithDeletedMatches(value: bool, w: Where, id: Id, r: Record)
    ensures Matches(WhereWithDeleted(value, w), id, r)
        <==> Matches(WithoutDeleted(w), id, r) && Get(r, DeletedKey) == Flag(value)
  {
    var ww := WhereWithDeleted(value, w);
    if Matches(WithoutDeleted(w), id, r) && Get(r, DeletedKey) == Flag(value) {
      forall k | k in ww.fields ensures Get(r, k) == ww.fields[k] {
        if k != DeletedKey {
          assert k in WithoutDeleted(w).fields;
        }
      }
    }
    if Matches(ww, id, r) {
      assert DeletedKey in ww.fields;
      forall k | k in WithoutDeleted(w).fields ensures Get(r, k) == WithoutDeleted(w).fields[k] {
        assert k in ww.fields;
      }
    }
  }

  /** The entities a `find` with `whereWithDeleted(value, w)` returns are those of `w` with that flag. */
  lemma FindWithDeleted(entities: map<Id, Record>, value: bool, w: Where)
    ensures forall id :: id in Find(entities, WhereWithDeleted(value, w)) <==>
      id in Find(entities, WithoutDeleted(w)) && Get(entities[id], DeletedKey) == Flag(value)
  {
    forall id | id in entities {
      WhereWithDeletedMatches(value, w, id, entities[id]);
    }
  }

  class CrudChangeSetSoftDeleteRepository {
    /** The change-set repository the soft-delete repository extends, with `deleted` excluded from diffs. */
    const repo: CrudChangeSetRepository

    ghost predicate Valid()
      reads this, repo
    {
      repo.Valid() && DeletedKey in repo.keysToExcludeFromChangeSets
    }

    /** Entities default to not deleted; `deleted` joins the keys never recorded. */
    constructor (defaults: Record)
      ensures Valid() && fresh(repo)
      ensures repo.keysToExcludeFromChangeSets == {ChangeSetsKey, DeletedKey}
      ensures repo.defaults == map[DeletedKey := Flag(false)] + defaults
      ensures repo.entities == map[] && repo.changeSets == [] && repo.changes == []
    {
      repo := new CrudChangeSetRepository({DeletedKey}, map[DeletedKey := Flag(false)] + defaults);
    }

    /** No change row of this repository records the flag, so no trail entry does. */
    lemma FlagNeverRecorded(e: Id)
      requires Valid()
      ensures forall x :: x in repo.Log(e) ==> DeletedKey !in x.diff
    {
      HistoryAvoids(repo.changeSets, repo.changes, {DeletedKey}, e);
    }

    /** `findDeleted`: the matches of `w` (apart from its flag condition) that are flagged as deleted. */
    function FindDeleted(w: Where): (found: map<Id, Record>)
      reads repo
      ensures forall id :: id in found <==>
        id in Find(repo.entities, WithoutDeleted(w)) && Get(repo.entities[id], DeletedKey) == Flag(true)
      ensures forall id :: id in found ==> found[id] == repo.entities[id]
    {
      FindWithDeleted(repo.entities, true, w);
      Find(repo.entities, WhereWithDeleted(true, w))
    }

    /** `findNonDeleted`: the matches of `w` (apart from its flag condition) that are not flagged as deleted. */
    function FindNonDeleted(w: Where): (found: map<Id, Record>)
      reads repo
      ensures forall id :: id in found <==>
        id in Find(repo.entities, WithoutDeleted(w)) && Get(repo.entities[id], DeletedKey) == Flag(false)
      ensures forall id :: id in found ==> found[id] == repo.entities[id]
    {
      FindWithDeleted(repo.entities, false, w);
      Find(repo.entities, WhereWithDeleted(false, w))
    }

    /**
     * Where every entity carries a boolean flag, the deleted and the non-deleted matches
     * partition the matches of the filter.
     */
    lemma FindPartition(w: Where)
      requires forall id :: id in repo.entities ==> Get(repo.entities[id], DeletedKey).Flag?
      ensures FindDeleted(w).Keys !! FindNonDeleted(w).Keys
      ensures FindDeleted(w).Keys + FindNonDeleted(w).Keys == Find(repo.entities, WithoutDeleted(w)).Keys
    {
      var all := Find(repo.entities, WithoutDeleted(w)).Keys;
      forall id | id in all ensures id in FindDeleted(w) || id in FindNonDeleted(w) {
        var b := Get(repo.entities[id], DeletedKey).b;
        assert Get(repo.entities[id], DeletedKey) == Flag(b);
      }
    }

    /**
     * `deleteAllDeleted`: deletes, with their change-sets, the matches of `w` that are flagged
     * as deleted, and returns how many.
     */
    method DeleteAllDeleted(w: Where) returns (count: nat)
      requires Valid()
      modifies repo`entities, repo`changeSets, repo`changes
      ensures Valid()
      ensures count == |old(FindDeleted(w))|
      ensures repo.entities == old(repo.entities) - old(FindDeleted(w)).Keys
      ensures forall id :: id in old(FindDeleted(w)) ==> repo.Log(id) == []
      ensures forall id :: id !in old(FindDeleted(w)) ==> repo.Log(id) == old(repo.Log(id))
    {
      count := repo.DeleteAll(WhereWithDeleted(true, w));
    }

    /** `updateAllDeleted`: `updateAll` restricted to the matches of `w` flagged as deleted. */
    method UpdateAllDeleted(data: Record, w: Where) returns (count: nat)
      requires Valid()
      modifies repo`entities, repo`changeSets, repo`changes, repo`clock, repo`nextId
      ensures Valid()
      ensures count == |old(FindDeleted(w))|
      ensures UpdatedOnly(old(FindDeleted(w)), data)
    {
      ghost var matched := FindDeleted(w);
      count := repo.UpdateAll(data, WhereWithDeleted(true, w));
      assert forall id :: id in repo.entities ==> repo.entities[id] == UpdatedAll(old(repo.entities), WhereWithDeleted(true, w), data)[id];
    }

    /** `updateAllNonDeleted`: `updateAll` restricted to the matches of `w` not flagged as deleted. */
    method UpdateAllNonDeleted(data: Record, w: Where) returns (count: nat)
      requires Valid()
      modifies repo`entities, repo`changeSets, repo`changes, repo`clock, repo`nextId
      ensures Valid()
      ensures count == |old(FindNonDeleted(w))|
      ensures UpdatedOnly(old(FindNonDeleted(w)), data)
    {
      ghost var matched := FindNonDeleted(w);
      count := repo.UpdateAll(data, WhereWithDeleted(false, w));
      assert forall id :: id in repo.entities ==> repo.entities[id] == UpdatedAll(old(repo.entities), WhereWithDeleted(false, w), data)[id];
    }

    /**
     * Each entity of `matched` has `data` merged over its fields, with an UPDATE entry for what
     * changed; every other entity and trail is untouched.
     */
    twostate predicate UpdatedOnly(matched: map<Id, Record>, data: Record)
      reads repo
    {
      && matched.Keys <= old(repo.entities).Keys
      && repo.entities.Keys == old(repo.entities).Keys
      && (forall id :: id in repo.entities ==>
            repo.entities[id] == if id in matched then old(repo.entities)[id] + data else old(repo.entities)[id])
      && (forall id :: id in matched ==>
            AppendedEntry(old(repo.Log(id)), repo.Log(id), Update,
              ChangesFromData(old(repo.entities)[id], data, Update, repo.keysToExcludeFromChangeSets), repo.currentUser, false))
      && (forall id :: id !in matched ==> repo.Log(id) == old(repo.Log(id)))
    }

    /**
     * `rollbackAllDeletedToDate`: rolls the matches of `w` flagged as deleted back to `date`;
     * they stay flagged as deleted, since the flag is never recorded.
     */
    method RollbackAllDeletedToDate(date: nat, w: Where, createChangeSet: bool, preserveCreateChangeSet: bool)
      returns (count: nat)
      requires Valid()
      modifies repo`entities, repo`changeSets, repo`changes, repo`clock, repo`nextId
      ensures Valid()
      ensures count == |old(FindDeleted(w))|
      ensures repo.RolledBackAll(old(FindDeleted(w)), date, createChangeSet, preserveCreateChangeSet)
      ensures forall id :: id in old(FindDeleted(w)) ==> Get(repo.entities[id], DeletedKey) == Flag(true)
    {
      ghost var matched := FindDeleted(w);
      FlagNeverRecordedAll();
      count := repo.RollbackAllToDate(date, WhereWithDeleted(true, w), createChangeSet, preserveCreateChangeSet);
      forall id | id in matched ensures Get(repo.entities[id], DeletedKey) == Get(matched[id], DeletedKey) {
        RollbackKeepsUntracked(matched[id], old(repo.Log(id)), date, preserveCreateChangeSet, {DeletedKey}, DeletedKey);
      }
    }

    /**
     * `rollbackAllNonDeletedToDate`: rolls the matches of `w` not flagged as deleted back to
     * `date`; none of them becomes flagged as deleted.
     */
    method RollbackAllNonDeletedToDate(date: nat, w: Where, createChangeSet: bool, preserveCreateChangeSet: bool)
      returns (count: nat)
      requires Valid()
      modifies repo`entities, repo`changeSets, repo`changes, repo`clock, repo`nextId
      ensures Valid()
      ensures count == |old(FindNonDeleted(w))|
      ensures repo.RolledBackAll(old(FindNonDeleted(w)), date, createChangeSet, preserveCreateChangeSet)
      ensures forall id :: id in old(FindNonDeleted(w)) ==> Get(repo.entities[id], DeletedKey) == Flag(false)
    {
      ghost var matched := FindNonDeleted(w);
      FlagNeverRecordedAll();
      count := repo.RollbackAllToDate(date, WhereWithDeleted(false, w), createChangeSet, preserveCreateChangeSet);
      forall id | id in matched ensures Get(repo.entities[id], DeletedKey) == Get(matched[id], DeletedKey) {
        RollbackKeepsUntracked(matched[id], old(repo.Log(id)), date, preserveCreateChangeSet, {DeletedKey}, DeletedKey);
      }
    }

    /**
     * `softDelete` of the snapshot `entity`: nothing when the snapshot is already flagged;
     * otherwise a forced DELETE change-set with no change rows (the flag is never recorded), then
     * the flag set through `updateById`, which finds nothing to record and is NotFound when the
     * entity is gone, after the change-set exists.
     */
    twostate predicate SoftDeleted(entity: Entity, new r: Result<(), Error>)
      reads repo
    {
      && (forall e :: e != entity.id ==> repo.Log(e) == old(repo.Log(e)))
      && if Truthy(Get(entity.fields, DeletedKey)) then
           r == Ok(()) && repo.entities == old(repo.entities) && repo.Log(entity.id) == old(repo.Log(entity.id))
         else
           && AppendedEntry(old(repo.Log(entity.id)), repo.Log(entity.id), ChangeSetType.Delete, map[], repo.currentUser, true)
           && (r.Ok? <==> entity.id in old(repo.entities))
           && (r.Ok? ==> repo.entities == old(repo.entities)[entity.id := SoftDeletedFields(old(repo.entities)[entity.id])])
           && (r.Err? ==> r.error == NotFound && repo.entities == old(repo.entities))
    }

    /** `softDelete`: flags the entity as deleted, recording a DELETE change-set first. */
    method SoftDelete(entity: Entity) returns (r: Result<(), Error>)
      requires Valid()
      modifies repo`entities, repo`changeSets, repo`changes, repo`clock, repo`nextId
      ensures Valid()
      ensures SoftDeleted(entity, r)
    {
      if Truthy(Get(entity.fields, DeletedKey)) {
        return Ok(());
      }
      var data := map[DeletedKey := Flag(true)];
      NoChangesWhenDataAgrees(entity.fields, data, ChangeSetType.Delete, repo.keysToExcludeFromChangeSets);
      var created := repo.CreateChangeSet(entity, data, ChangeSetType.Delete, true);
      if entity.id in repo.entities {
        NoChangesWhenDataAgrees(repo.entities[entity.id], data, Update, repo.keysToExcludeFromChangeSets);
        MergedFlag(repo.entities[entity.id]);
      }
      r := repo.UpdateById(entity.id, data);
    }

    /** `softDeleteById`: the stored entity soft-deleted; a missing entity is NotFound and changes nothing. */
    method SoftDeleteById(id: Id) returns (r: Result<(), Error>)
      requires Valid()
      modifies repo`entities, repo`changeSets, repo`changes, repo`clock, repo`nextId
      ensures Valid()
      ensures id !in old(repo.entities) ==> r == Err(NotFound) && unchanged(repo`entities, repo`changeSets, repo`changes, repo`clock, repo`nextId)
      ensures id in old(repo.entities) ==> SoftDeleted(Entity(id, old(repo.entities)[id]), r)
    {
      var found := FindById(repo.entities, id);
      if found.Err? {
        return Err(found.error);
      }
      r := SoftDelete(found.value);
    }

    /**
     * Each entity of `matched` soft-deleted from its snapshot, with a DELETE entry; every other
     * entity and trail untouched.
     */
    twostate predicate SoftDeletedAll(matched: map<Id, Record>)
      reads repo
    {
      && matched.Keys <= old(repo.entities).Keys
      && repo.entities == WithFlag(old(repo.entities), matched.Keys, true)
      && AppendedEach(old(repo.changeSets), old(repo.changes), repo.changeSets, repo.changes, NoChanges(matched.Keys),
           ChangeSetType.Delete, repo.currentUser, true)
    }

    /**
     * `softDeleteAll`: soft-deletes every match of `w` not flagged as deleted, each from the
     * snapshot the query returned, and returns how many.
     */
    method SoftDeleteAll(w: Where) returns (count: nat)
      requires Valid()
      modifies repo`entities, repo`changeSets, repo`changes, repo`clock, repo`nextId
      ensures Valid()
      ensures count == |old(FindNonDeleted(w))|
      ensures SoftDeletedAll(old(FindNonDeleted(w)))
    {
      var matched := Find(repo.entities, WhereWithDeleted(false, w));
      SoftDeleteEach(matched);
      count := |matched|;
    }

    /** Soft-deletes the entities of `snapshots` one after the other (the source runs them concurrently). */
    method SoftDeleteEach(snapshots: map<Id, Record>)
      requires Valid()
      requires forall id :: id in snapshots ==>
        id in repo.entities && repo.entities[id] == snapshots[id] && Get(snapshots[id], DeletedKey) == Flag(false)
      modifies repo`entities, repo`changeSets, repo`changes, repo`clock, repo`nextId
      decreases snapshots.Keys
      ensures Valid()
      ensures SoftDeletedAll(snapshots)
    {
      if snapshots == map[] {
        return;
      }
      var id :| id in snapshots;
      ghost var before := repo.entities;
      SoftDeleteStored(Entity(id, snapshots[id]));
      ghost var (css, chs) := (repo.changeSets, repo.changes);
      SoftDeleteEach(snapshots - {id});
      NoChangesWithout(snapshots, id);
      AppendedEachStep(old(repo.changeSets), old(repo.changes), css, chs, repo.changeSets, repo.changes, id,
        NoChanges(snapshots.Keys), ChangeSetType.Delete, repo.currentUser, true);
      WithFlagStep(before, id, snapshots, true);
    }

    /** `softDelete` of an entity as stored, not flagged: its flag set, with a DELETE entry. */
    method SoftDeleteStored(entity: Entity)
      requires Valid()
      requires entity.id in repo.entities && repo.entities[entity.id] == entity.fields
      requires !Truthy(Get(entity.fields, DeletedKey))
      modifies repo`entities, repo`changeSets, repo`changes, repo`clock, repo`nextId
      ensures Valid()
      ensures repo.entities == old(repo.entities)[entity.id := entity.fields[DeletedKey := Flag(true)]]
      ensures AppendedEach(old(repo.changeSets), old(repo.changes), repo.changeSets, repo.changes, map[entity.id := map[]],
        ChangeSetType.Delete, repo.currentUser, true)
    {
      var r := SoftDelete(entity);
      forall e | e != entity.id ensures History(repo.changeSets, repo.changes, e) == old(History(repo.changeSets, repo.changes, e)) {
        assert repo.Log(e) == old(repo.Log(e));
      }
      AppendedOne(old(repo.changeSets), old(repo.changes), repo.changeSets, repo.changes, entity.id, map[],
        ChangeSetType.Delete, repo.currentUser, true);
    }

    /**
     * `restore` of the snapshot `entity`: nothing when the snapshot is not flagged; otherwise a
     * forced RESTORE change-set with no change rows, then the whole snapshot with the flag cleared
     * written over the stored fields without a change-set; a missing entity is NotFound, after the
     * change-set exists.
     */
    twostate predicate Restored(entity: Entity, new r: Result<(), Error>)
      reads repo
    {
      && (forall e :: e != entity.id ==> repo.Log(e) == old(repo.Log(e)))
      && if !Truthy(Get(entity.fields, DeletedKey)) then
           r == Ok(()) && repo.entities == old(repo.entities) && repo.Log(entity.id) == old(repo.Log(entity.id))
         else
           && AppendedEntry(old(repo.Log(entity.id)), repo.Log(entity.id), ChangeSetType.Restore, map[], repo.currentUser, true)
           && (r.Ok? <==> entity.id in old(repo.entities))
           && (r.Ok? ==> repo.entities == old(repo.entities)[entity.id := RestoredFields(old(repo.entities)[entity.id], entity.fields)])
           && (r.Err? ==> r.error == NotFound && repo.entities == old(repo.entities))
    }

    /** `restore`: clears the flag from the snapshot, recording a RESTORE change-set first. */
    method Restore(entity: Entity) returns (r: Result<(), Error>)
      requires Valid()
      modifies repo`entities, repo`changeSets, repo`changes, repo`clock, repo`nextId
      ensures Valid()
      ensures Restored(entity, r)
    {
      if !Truthy(Get(entity.fields, DeletedKey)) {
        return Ok(());
      }
      var fields := entity.fields[DeletedKey := Flag(false)];
      NoChangesForFlagOnly(entity.fields, DeletedKey, Flag(false), ChangeSetType.Restore, repo.keysToExcludeFromChangeSets);
      var created := repo.CreateChangeSet(entity, fields, ChangeSetType.Restore, true);
      r := repo.UpdateByIdWithoutChangeSet(Some(entity.id), fields);
    }

    /** `restoreById`: the stored entity restored; a missing entity is NotFound and changes nothing. */
    method RestoreById(id: Id) returns (r: Result<(), Error>)
      requires Valid()
      modifies repo`entities, repo`changeSets, repo`changes, repo`clock, repo`nextId
      ensures Valid()
      ensures id !in old(repo.entities) ==> r == Err(NotFound) && unchanged(repo`entities, repo`changeSets, repo`changes, repo`clock, repo`nextId)
      ensures id in old(repo.entities) ==> Restored(Entity(id, old(repo.entities)[id]), r)
    {
      var found := FindById(repo.entities, id);
      if found.Err? {
        return Err(found.error);
      }
      r := Restore(found.value);
    }

    /** `restore` of an entity as stored, flagged: only its flag cleared, with a RESTORE entry. */
    method RestoreStored(entity: Entity)
      requires Valid()
      requires entity.id in repo.entities && repo.entities[entity.id] == entity.fields
      requires Truthy(Get(entity.fields, DeletedKey))
      modifies repo`entities, repo`changeSets, repo`changes, repo`clock, repo`nextId
      ensures Valid()
      ensures repo.entities == old(repo.entities)[entity.id := entity.fields[DeletedKey := Flag(false)]]
      ensures AppendedEach(old(repo.changeSets), old(repo.changes), repo.changeSets, repo.changes, map[entity.id := map[]],
        ChangeSetType.Restore, repo.currentUser, true)
    {
      RestoredFromStored(entity.fields);
      var r := Restore(entity);
      forall e | e != entity.id ensures History(repo.changeSets, repo.changes, e) == old(History(repo.changeSets, repo.changes, e)) {
        assert repo.Log(e) == old(repo.Log(e));
      }
      AppendedOne(old(repo.changeSets), old(repo.changes), repo.changeSets, repo.changes, entity.id, map[],
        ChangeSetType.Restore, repo.currentUser, true);
    }

    /**
     * Each entity of `matched` restored from its snapshot, so with only its flag cleared, with a
     * RESTORE entry; every other entity and trail untouched.
     */
    twostate predicate RestoredAll(matched: map<Id, Record>)
      reads repo
    {
      && matched.Keys <= old(repo.entities).Keys
      && repo.entities == WithFlag(old(repo.entities), matched.Keys, false)
      && AppendedEach(old(repo.changeSets), old(repo.changes), repo.changeSets, repo.changes, NoChanges(matched.Keys),
           ChangeSetType.Restore, repo.currentUser, true)
    }

    /**
     * `restoreAll`: restores every match of `w` flagged as deleted, each from the snapshot the
     * query returned, and returns how many.
     */
    method RestoreAll(w: Where) returns (count: nat)
      requires Valid()
      modifies repo`entities, repo`changeSets, repo`changes, repo`clock, repo`nextId
      ensures Valid()
      ensures count == |old(FindDeleted(w))|
      ensures RestoredAll(old(FindDeleted(w)))
    {
      var matched := Find(repo.entities, WhereWithDeleted(true, w));
      RestoreEach(matched);
      count := |matched|;
    }

    /** Restores the entities of `snapshots` one after the other (the source runs them concurrently). */
    method RestoreEach(snapshots: map<Id, Record>)
      requires Valid()
      requires forall id :: id in snapshots ==>
        id in repo.entities && repo.entities[id] == snapshots[id] && Get(snapshots[id], DeletedKey) == Flag(true)
      modifies repo`entities, repo`changeSets, repo`changes, repo`clock, repo`nextId
      decreases snapshots.Keys
      ensures Valid()
      ensures RestoredAll(snapshots)
    {
      if snapshots == map[] {
        return;
      }
      var id :| id in snapshots;
      ghost var before := repo.entities;
      RestoreStored(Entity(id, snapshots[id]));
      ghost var (css, chs) := (repo.changeSets, repo.changes);
      RestoreEach(snapshots - {id});
      NoChangesWithout(snapshots, id);
      AppendedEachStep(old(repo.changeSets), old(repo.changes), css, chs, repo.changeSets, repo.changes, id,
        NoChanges(snapshots.Keys), ChangeSetType.Restore, repo.currentUser, true);
      WithFlagStep(before, id, snapshots, false);
    }

    /** No trail of this repository records the flag. */
    lemma FlagNeverRecordedAll()
      requires Valid()
      ensures forall e, x :: x in repo.Log(e) ==> DeletedKey !in x.diff
    {
      forall e {
        FlagNeverRecorded(e);
      }
    }
  }
}
