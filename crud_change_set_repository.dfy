/**
 * The repository that records a change-set for every mutation of a tracked entity and can
 * reset or roll back entities from those change-sets.
 */
module CrudChangeSet {
  import opened Wrappers
  import opened Models
  import opened Diff
  import opened AuditLog
  import opened Rollback

  /** The entity table after a plain `updateAll(data, where)`: each match gets `data` merged over its fields. */
  function UpdatedAll(entities: map<Id, Record>, w: Where, data: Record): (updated: map<Id, Record>)
    ensures updated.Keys == entities.Keys
  {
    map id | id in entities :: if Matches(w, id, entities[id]) then entities[id] + data else entities[id]
  }

  /** Every entity in table `after` that is not in table `before` is one of `es`. */
  ghost predicate AddedOnly(before: map<Id, Record>, after: map<Id, Record>, es: seq<Entity>) {
    forall id :: id in after && id !in before ==> exists i :: 0 <= i < |es| && es[i].id == id
  }

  /** Storing one more entity keeps `AddedOnly` with that entity appended. */
  lemma AddedOnlyStep(before: map<Id, Record>, after: map<Id, Record>, es: seq<Entity>, e: Entity)
    requires AddedOnly(before, after, es)
    ensures AddedOnly(before, after[e.id := e.fields], es + [e])
  {
    var es' := es + [e];
    forall id | id in after[e.id := e.fields] && id !in before ensures exists i :: 0 <= i < |es'| && es'[i].id == id {
      if id == e.id {
        assert es'[|es|].id == id;
      } else {
        var i :| 0 <= i < |es| && es[i].id == id;
        assert es'[i].id == id;
      }
    }
  }

  /** The UPDATE diff of `data` against each of the `matched` entities. */
  function UpdatesOf(matched: map<Id, Record>, data: Record, excluded: set<Key>): (diffs: map<Id, map<Key, NewChange>>)
    ensures diffs.Keys == matched.Keys
    ensures forall id :: id in diffs ==> diffs[id] == ChangesFromData(matched[id], data, Update, excluded)
  {
    map id | id in matched :: ChangesFromData(matched[id], data, Update, excluded)
  }

  /** The diffs of all but one entity are the diffs of all, that one removed. */
  lemma UpdatesOfWithout(matched: map<Id, Record>, data: Record, excluded: set<Key>, id: Id)
    ensures UpdatesOf(matched - {id}, data, excluded) == UpdatesOf(matched, data, excluded) - {id}
  {
  }

  /**
   * The tables after rolling back each entity of `snapshots` to `date` from its snapshot: every
   * other entity and trail is untouched.
   */
  ghost predicate RolledBackEach(entities: map<Id, Record>, css: seq<ChangeSet>, chs: seq<Change>,
                                 entities': map<Id, Record>, css': seq<ChangeSet>, chs': seq<Change>,
                                 snapshots: map<Id, Record>, date: nat, createChangeSet: bool,
                                 preserveCreateChangeSet: bool, excluded: set<Key>, user: Option<UserId>)
  {
    && entities'.Keys == entities.Keys
    && (forall id :: id in entities && id !in snapshots ==> entities'[id] == entities[id])
    && (forall id :: id !in snapshots ==> History(css', chs', id) == History(css, chs, id))
    && forall id :: id in snapshots ==>
      && id in entities'
      && RolledBackEntity(History(css, chs, id), History(css', chs', id), snapshots[id], entities'[id], snapshots[id],
           date, createChangeSet, preserveCreateChangeSet, excluded, user)
  }

  /** Rolling back one entity, stored as its snapshot, is the case of a single snapshot. */
  lemma RolledBackOne(entities: map<Id, Record>, css: seq<ChangeSet>, chs: seq<Change>,
                      entities': map<Id, Record>, css': seq<ChangeSet>, chs': seq<Change>, id: Id, snapshot: Record,
                      date: nat, createChangeSet: bool, preserveCreateChangeSet: bool, excluded: set<Key>,
                      user: Option<UserId>)
    requires id in entities && entities[id] == snapshot
    requires id in entities' && entities' == entities[id := entities'[id]]
    requires RolledBackEntity(History(css, chs, id), History(css', chs', id), snapshot, entities'[id], snapshot,
               date, createChangeSet, preserveCreateChangeSet, excluded, user)
    requires forall e :: e != id ==> History(css', chs', e) == History(css, chs, e)
    ensures RolledBackEach(entities, css, chs, entities', css', chs', map[id := snapshot], date, createChangeSet,
              preserveCreateChangeSet, excluded, user)
  {
  }

  /** One entity rolled back, then the others, is all of them rolled back. */
  lemma RolledBackEachStep(e0: map<Id, Record>, css0: seq<ChangeSet>, chs0: seq<Change>,
                           e1: map<Id, Record>, css1: seq<ChangeSet>, chs1: seq<Change>,
                           e2: map<Id, Record>, css2: seq<ChangeSet>, chs2: seq<Change>, id: Id,
                           snapshots: map<Id, Record>, date: nat, createChangeSet: bool, preserveCreateChangeSet: bool,
                           excluded: set<Key>, user: Option<UserId>)
    requires id in snapshots
    requires RolledBackEach(e0, css0, chs0, e1, css1, chs1, map[id := snapshots[id]], date, createChangeSet,
               preserveCreateChangeSet, excluded, user)
    requires RolledBackEach(e1, css1, chs1, e2, css2, chs2, snapshots - {id}, date, createChangeSet,
               preserveCreateChangeSet, excluded, user)
    ensures RolledBackEach(e0, css0, chs0, e2, css2, chs2, snapshots, date, createChangeSet,
              preserveCreateChangeSet, excluded, user)
  {
    var rest := snapshots - {id};
    assert id !in rest && e2[id] == e1[id];
    assert History(css2, chs2, id) == History(css1, chs1, id);
    forall x | x in rest
      ensures History(css1, chs1, x) == History(css0, chs0, x) && x in e2
      ensures RolledBackEntity(History(css0, chs0, x), History(css2, chs2, x), snapshots[x], e2[x], snapshots[x],
                date, createChangeSet, preserveCreateChangeSet, excluded, user)
    {
      assert x !in map[id := snapshots[id]];
    }
  }

  /** The filter `{id}` matches the entity with that id and nothing else. */
  lemma ByIdFilter(entities: map<Id, Record>, id: Id, data: Record)
    ensures Find(entities, Where(Some(id), map[])).Keys == if id in entities then {id} else {}
    ensures UpdatedAll(entities, Where(Some(id), map[]), data)
         == if id in entities then entities[id := entities[id] + data] else entities
  {
    var w := Where(Some(id), map[]);
    forall x | x in entities ensures Matches(w, x, entities[x]) <==> x == id { }
  }

  class CrudChangeSetRepository {
    /** The entity table. */
    var entities: map<Id, Record>
    /** The change-set table, in insertion order. */
    var changeSets: seq<ChangeSet>
    /** The change table, in insertion order. */
    var changes: seq<Change>
    /** The last timestamp handed out; each change-set waits for a fresh one. */
    var clock: nat
    /** The next unused id. */
    var nextId: nat
    /** The user the security context resolves, if any. */
    var currentUser: Option<UserId>
    /** Keys never recorded in a change-set. */
    const keysToExcludeFromChangeSets: set<Key>
    /** Field defaults the model declares, applied when an entity is created. */
    const defaults: Record

    ghost predicate Valid()
      reads this
    {
      && ChangeSetsKey in keysToExcludeFromChangeSets
      && WellFormed(changeSets, changes, keysToExcludeFromChangeSets, nextId, clock)
      && (forall id :: id in entities ==> id < nextId)
    }

    /** The audit trail of the entity `entityId`. */
    function Log(entityId: Id): seq<LoggedChangeSet>
      reads this`changeSets, this`changes
    {
      History(changeSets, changes, entityId)
    }

    constructor (extraKeysToExclude: set<Key>, defaults: Record)
      ensures Valid()
      ensures keysToExcludeFromChangeSets == {ChangeSetsKey} + extraKeysToExclude && this.defaults == defaults
      ensures entities == map[] && changeSets == [] && changes == [] && currentUser == None
    {
      entities := map[];
      changeSets := [];
      changes := [];
      clock := 0;
      nextId := 0;
      currentUser := None;
      keysToExcludeFromChangeSets := {ChangeSetsKey} + extraKeysToExclude;
      this.defaults := defaults;
    }

    /**
     * Records a change-set of the given kind for `entity`, unless `data` changes nothing and
     * `force` is off; then one change row per changed, included key.
     */
    method CreateChangeSet(entity: Entity, data: Record, kind: ChangeSetType, force: bool) returns (created: Option<ChangeSet>)
      requires Valid()
      modifies this`changeSets, this`changes, this`clock, this`nextId
      ensures Valid() && nextId >= old(nextId)
      ensures var diff := ChangesFromData(entity.fields, data, kind, keysToExcludeFromChangeSets);
        && (created.None? <==> !force && diff == map[])
        && (created.None? ==> changeSets == old(changeSets) && changes == old(changes))
        && (created.Some? ==>
              && created.value == ChangeSet(old(nextId), kind, old(clock) + 1, currentUser, entity.id)
              && changeSets == old(changeSets) + [created.value]
              && RowsAppended(old(changes), changes, created.value.id, diff)
              && Log(entity.id) == old(Log(entity.id)) + [Logged(created.value, diff)])
        && AppendedEntry(old(Log(entity.id)), Log(entity.id), kind, diff, currentUser, force)
      ensures forall e :: e != entity.id ==> Log(e) == old(Log(e))
    {
      var diff := GetChangesFromData(entity.fields, data, kind, keysToExcludeFromChangeSets);
      if !force && diff == map[] {
        return None;
      }
      clock := clock + 1;
      var cs := ChangeSet(nextId, kind, clock, currentUser, entity.id);
      nextId := nextId + 1;
      changeSets := changeSets + [cs];
      ghost var rows := AddChanges(cs, diff);
      assert DiffOf(rows) == diff by {
        RowsRecordDiff(rows, cs.id, diff);
      }
      assert |rows| == |diff| && forall c :: c in rows ==> c.changeSetId == cs.id && c.key in diff by {
        RowsRecordOnePerKey(rows, cs.id, diff);
      }
      assert changes[|old(changes)|..] == rows;
      AppendWellFormed(old(changeSets), old(changes), keysToExcludeFromChangeSets, old(nextId), old(clock), cs, rows, nextId);
      forall c | c in old(changes) ensures c.changeSetId != cs.id {
        assert c.changeSetId in IdsOf(old(changeSets));
      }
      forall e {
        HistoryAppend(old(changeSets), old(changes), cs, rows, e);
      }
      created := Some(cs);
    }

    /** Creates one change row of `cs` per key of `diff` (`changes(changeSet.id).create(change)` in a loop). */
    method AddChanges(cs: ChangeSet, diff: map<Key, NewChange>) returns (ghost rows: seq<Change>)
      requires nextId > cs.id
      modifies this`changes, this`nextId
      ensures changes == old(changes) + rows && RowsRecord(rows, cs.id, diff)
      ensures nextId >= old(nextId)
    {
      rows := [];
      var pending := diff.Keys;
      assert diff - pending == map[];
      while pending != {}
        invariant pending <= diff.Keys
        invariant changes == old(changes) + rows && nextId >= old(nextId)
        invariant RowsRecord(rows, cs.id, diff - pending)
        decreases pending
      {
        var k :| k in pending;
        var c := Change(nextId, k, diff[k].previousValue, diff[k].newValue, cs.id);
        nextId := nextId + 1;
        changes := changes + [c];
        assert RowsRecord(rows + [c], cs.id, diff - (pending - {k})) by {
          assert (diff - (pending - {k})) - {k} == diff - pending;
          RowsRecordAppend(rows, cs.id, diff - (pending - {k}), c);
        }
        rows := rows + [c];
        pending := pending - {k};
      }
      assert diff - pending == diff;
    }

    /** The entity was created from `data`: stored with the defaults and given a CREATE change-set of `data`. */
    twostate predicate CreatedWith(e: Entity, data: Record)
      reads this
    {
      && e.fields == defaults + data
      && AppendedEntry(old(Log(e.id)), Log(e.id), ChangeSetType.Create,
           ChangesFromData(e.fields, data, ChangeSetType.Create, keysToExcludeFromChangeSets), currentUser, false)
    }

    /** `create`: stores a new entity and records a CREATE change-set of the payload. */
    method Create(data: Record) returns (entity: Entity)
      requires Valid()
      modifies this`entities, this`changeSets, this`changes, this`clock, this`nextId
      ensures Valid()
      ensures entity.id == old(nextId) && nextId > entity.id
      ensures entity.id !in old(entities) && entity.fields == defaults + data
      ensures entities == old(entities)[entity.id := entity.fields]
      ensures AppendedEntry(old(Log(entity.id)), Log(entity.id), ChangeSetType.Create,
                ChangesFromData(entity.fields, data, ChangeSetType.Create, keysToExcludeFromChangeSets), currentUser, false)
      ensures forall e :: e != entity.id ==> Log(e) == old(Log(e))
    {
      entity := Entity(nextId, defaults + data);
      nextId := nextId + 1;
      entities := entities[entity.id := entity.fields];
      var created := CreateChangeSet(entity, data, ChangeSetType.Create, false);
    }

    /** `createAll`: creates each payload in turn (the source runs them concurrently). */
    method CreateAll(datas: seq<Record>) returns (created: seq<Entity>)
      requires Valid()
      modifies this`entities, this`changeSets, this`changes, this`clock, this`nextId
      decreases |datas|
      ensures Valid() && nextId >= old(nextId)
      ensures |created| == |datas|
      ensures forall i :: 0 <= i < |created| ==>
        && old(nextId) <= created[i].id < nextId
        && created[i].fields == defaults + datas[i]
        && created[i].id in entities && entities[created[i].id] == created[i].fields
      ensures forall i, j :: 0 <= i < j < |created| ==> created[i].id < created[j].id
      ensures forall id :: id in old(entities) ==> id in entities && entities[id] == old(entities)[id]
      ensures AddedOnly(old(entities), entities, created)
      ensures forall id: Id :: id < old(nextId) || id >= nextId ==> Log(id) == old(Log(id))
      ensures forall i :: 0 <= i < |created| ==> CreatedWith(created[i], datas[i])
    {
      if datas == [] {
        return [];
      }
      var earlier := CreateAll(datas[..|datas| - 1]);
      label stored:
      var last := Create(datas[|datas| - 1]);
      created := earlier + [last];
      AddedOnlyStep(old(entities), old@stored(entities), earlier, last);
    }

    /**
     * The first half of `updateAll`: records an UPDATE change-set of `data` for every matched
     * entity, against its current fields, one after the other (the source runs them concurrently).
     */
    method RecordUpdates(matched: map<Id, Record>, data: Record)
      requires Valid()
      modifies this`changeSets, this`changes, this`clock, this`nextId
      decreases matched.Keys
      ensures Valid()
      ensures AppendedEach(old(changeSets), old(changes), changeSets, changes,
        UpdatesOf(matched, data, keysToExcludeFromChangeSets), Update, currentUser, false)
    {
      if matched == map[] {
        return;
      }
      var id :| id in matched;
      var diffs := UpdatesOf(matched, data, keysToExcludeFromChangeSets);
      var created := CreateChangeSet(Entity(id, matched[id]), data, Update, false);
      forall e | e != id ensures History(changeSets, changes, e) == old(History(changeSets, changes, e)) {
        assert Log(e) == old(Log(e));
      }
      AppendedOne(old(changeSets), old(changes), changeSets, changes, id, diffs[id], Update, currentUser, false);
      ghost var (css, chs) := (changeSets, changes);
      RecordUpdates(matched - {id}, data);
      UpdatesOfWithout(matched, data, keysToExcludeFromChangeSets, id);
      AppendedEachStep(old(changeSets), old(changes), css, chs, changeSets, changes, id, diffs, Update, currentUser, false);
    }

    /**
     * `updateAll`: records an UPDATE change-set for every match against its current fields,
     * then merges `data` into every match; returns the number of matches.
     */
    method UpdateAll(data: Record, w: Where) returns (count: nat)
      requires Valid()
      modifies this`entities, this`changeSets, this`changes, this`clock, this`nextId
      ensures Valid()
      ensures count == |Find(old(entities), w)|
      ensures entities == UpdatedAll(old(entities), w, data)
      ensures forall id :: id in Find(old(entities), w) ==>
        AppendedEntry(old(Log(id)), Log(id), Update,
          ChangesFromData(old(entities)[id], data, Update, keysToExcludeFromChangeSets), currentUser, false)
      ensures forall id :: id !in Find(old(entities), w) ==> Log(id) == old(Log(id))
    {
      var matched := Find(entities, w);
      RecordUpdates(matched, data);
      entities := UpdatedAll(entities, w, data);
      count := |matched|;
    }

    /** `updateById`: `updateAll` with the filter `{id}`; a missing entity is NotFound. */
    method UpdateById(id: Id, data: Record) returns (r: Result<(), Error>)
      requires Valid()
      modifies this`entities, this`changeSets, this`changes, this`clock, this`nextId
      ensures Valid()
      ensures r.Ok? <==> id in old(entities)
      ensures r.Err? ==> r.error == NotFound && entities == old(entities) && Log(id) == old(Log(id))
      ensures r.Ok? ==>
        && entities == old(entities)[id := old(entities)[id] + data]
        && AppendedEntry(old(Log(id)), Log(id), Update,
             ChangesFromData(old(entities)[id], data, Update, keysToExcludeFromChangeSets), currentUser, false)
      ensures forall e :: e != id ==> Log(e) == old(Log(e))
    {
      ByIdFilter(entities, id, data);
      var count := UpdateAll(data, Where(Some(id), map[]));
      if count == 0 {
        return Err(NotFound);
      }
      r := Ok(());
    }

    /**
     * `replaceById`: records a REPLACE change-set of `data` against the stored fields, then
     * replaces the fields by `data`; a missing entity is NotFound and changes nothing.
     */
    method ReplaceById(id: Id, data: Record) returns (r: Result<(), Error>)
      requires Valid()
      modifies this`entities, this`changeSets, this`changes, this`clock, this`nextId
      ensures Valid()
      ensures r.Ok? <==> id in old(entities)
      ensures r.Err? ==> r.error == NotFound && unchanged(this`entities, this`changeSets, this`changes, this`clock, this`nextId)
      ensures r.Ok? ==>
        && entities == old(entities)[id := data]
        && AppendedEntry(old(Log(id)), Log(id), Replace,
             ChangesFromData(old(entities)[id], data, Replace, keysToExcludeFromChangeSets), currentUser, false)
      ensures forall e :: e != id ==> Log(e) == old(Log(e))
    {
      if id !in entities {
        return Err(NotFound);
      }
      var created := CreateChangeSet(Entity(id, entities[id]), data, Replace, false);
      entities := entities[id := data];
      r := Ok(());
    }

    /**
     * `updateByIdWithoutChangeSet`: merges `data` into the entity without recording anything;
     * an undefined id is InvalidArgument, a missing entity NotFound.
     */
    method UpdateByIdWithoutChangeSet(id: Option<Id>, data: Record) returns (r: Result<(), Error>)
      requires Valid()
      modifies this`entities
      ensures Valid()
      ensures id.None? ==> r == Err(InvalidArgument) && entities == old(entities)
      ensures id.Some? && id.value !in old(entities) ==> r == Err(NotFound) && entities == old(entities)
      ensures id.Some? && id.value in old(entities) ==>
        r == Ok(()) && entities == old(entities)[id.value := old(entities)[id.value] + data]
    {
      if id.None? {
        return Err(InvalidArgument);
      }
      if id.value !in entities {
        return Err(NotFound);
      }
      entities := entities[id.value := entities[id.value] + data];
      r := Ok(());
    }

    /**
     * Deletes a change-set together with its change rows: the rows first, then the change-set,
     * which is NotFound when it is not in the table.
     */
    method DeleteChangeSetWithChanges(csId: Id) returns (r: Result<(), Error>)
      requires Valid()
      modifies this`changeSets, this`changes
      ensures Valid()
      ensures r.Ok? <==> csId in IdsOf(old(changeSets))
      ensures r.Err? ==> r.error == NotFound
      ensures (changeSets, changes) == Consume(old(changeSets), old(changes), csId)
      ensures forall e :: Log(e) == KeepEntries(old(Log(e)), {csId})
    {
      ghost var tables := Consume(changeSets, changes, csId);
      ConsumeWellFormed(changeSets, changes, keysToExcludeFromChangeSets, nextId, clock, csId);
      ConsumeHistory(changeSets, changes, csId);
      changes := WithoutChangesOf(changes, {csId});
      if csId !in IdsOf(changeSets) {
        WithoutChangeSetsNone(changeSets, {csId});
        r := Err(NotFound);
      } else {
        changeSets := WithoutChangeSets(changeSets, {csId});
        r := Ok(());
      }
      assert changeSets == tables.0 && changes == tables.1;
    }
  
    /**
     * `deleteChangeSetsForEntity`: deletes every change-set the entity owns, each after its
     * change rows; the entity's trail ends up empty and every other trail is untouched.
     */
    method DeleteChangeSetsForEntity(entityId: Id)
      requires Valid()
      modifies this`changeSets, this`changes
      ensures Valid()
      ensures WithoutOwned(old(changeSets), old(changes), changeSets, changes, entityId)
      ensures Log(entityId) == []
      ensures forall e :: e != entityId ==> Log(e) == old(Log(e))
    {
      var owned := OwnedBy(changeSets, entityId);
      ghost var css, chs := changeSets, changes;
      DeleteEach(owned);
      DeleteOwnedHistory(css, chs, entityId);
    }

    /** Deletes the given change-sets one after the other, each after its change rows. */
    method DeleteEach(owned: seq<ChangeSet>)
      requires Valid()
      modifies this`changeSets, this`changes
      ensures Valid()
      ensures changeSets == WithoutChangeSets(old(changeSets), IdsOf(owned))
      ensures changes == WithoutChangesOf(old(changes), IdsOf(owned))
    {
      ghost var css, chs := changeSets, changes;
      ghost var ids: set<Id> := {};
      WithoutChangeSetsNone(css, ids);
      WithoutChangesOfNone(chs, ids);
      var i := 0;
      while i < |owned|
        invariant 0 <= i <= |owned| && ids == IdsOf(owned[..i])
        invariant Valid()
        invariant changeSets == WithoutChangeSets(css, ids) && changes == WithoutChangesOf(chs, ids)
      {
        var r := DeleteChangeSetWithChanges(owned[i].id);
        WithoutChangeSetsTwice(css, ids, {owned[i].id});
        WithoutChangesOfTwice(chs, ids, {owned[i].id});
        IdsOfPrefix(owned, i);
        ids := ids + {owned[i].id};
        i := i + 1;
      }
      assert owned[..i] == owned;
    }

    /**
     * `deleteById`: deletes the entity's change-sets and their changes, then the entity;
     * a missing entity is NotFound, after the change-sets are gone.
     */
    method DeleteById(id: Id) returns (r: Result<(), Error>)
      requires Valid()
      modifies this`entities, this`changeSets, this`changes
      ensures Valid()
      ensures r.Ok? <==> id in old(entities)
      ensures r.Err? ==> r.error == NotFound
      ensures entities == old(entities) - {id}
      ensures WithoutOwned(old(changeSets), old(changes), changeSets, changes, id)
      ensures Log(id) == []
      ensures forall e :: e != id ==> Log(e) == old(Log(e))
    {
      DeleteChangeSetsForEntity(id);
      if id !in entities {
        return Err(NotFound);
      }
      entities := entities - {id};
      r := Ok(());
    }

    /**
     * `deleteAll`: deletes every match with its change-sets and returns the number of matches.
     */
    method DeleteAll(w: Where) returns (count: nat)
      requires Valid()
      modifies this`entities, this`changeSets, this`changes
      ensures Valid()
      ensures count == |Find(old(entities), w)|
      ensures entities == old(entities) - Find(old(entities), w).Keys
      ensures forall id :: id in Find(old(entities), w) ==> Log(id) == []
      ensures forall id :: id !in Find(old(entities), w) ==> Log(id) == old(Log(id))
    {
      var matched := Find(entities, w);
      DeleteEachById(matched.Keys);
      count := |matched|;
    }

    /** Deletes the entities with the given ids one after the other, each with its change-sets. */
    method DeleteEachById(ids: set<Id>)
      requires Valid()
      modifies this`entities, this`changeSets, this`changes
      decreases ids
      ensures Valid()
      ensures entities == old(entities) - ids
      ensures forall id :: id in ids ==> Log(id) == []
      ensures forall id :: id !in ids ==> Log(id) == old(Log(id))
    {
      if ids == {} {
        return;
      }
      var id :| id in ids;
      var r := DeleteById(id);
      DeleteEachById(ids - {id});
    }
  
    /**
     * What resetting `cs` on `entity` did, given its result `r`. A change-set of another entity
     * fails with OwnershipMismatch and a missing entity with NotFound, both changing nothing.
     * Otherwise the entity's fields take the values the change rows of `cs` say to restore,
     * `cs` and its rows are deleted unless it is a preserved CREATE change-set (NotFound when it
     * was not in the table), the entity's trail gets the optional RESET entry against the
     * snapshot, and `r` holds the reloaded entity and the written-back values.
     */
    twostate predicate ResetOutcome(entity: Entity, cs: ChangeSet, createChangeSet: bool, preserveCreateChangeSet: bool,
                                    new r: Result<(Entity, Record), Error>)
      reads this
    {
      if cs.entityId != entity.id || entity.id !in old(entities) then
        && r == Err(if cs.entityId != entity.id then OwnershipMismatch else NotFound)
        && entities == old(entities) && changeSets == old(changeSets) && changes == old(changes)
      else
        var data := ResetValues(ChangesOf(old(changes), cs.id), RestoresNew(cs, preserveCreateChangeSet));
        && entities == old(entities)[entity.id := old(entities)[entity.id] + data]
        && (r.Ok? <==> (IsConsumed(cs, preserveCreateChangeSet) ==> cs.id in IdsOf(old(changeSets))))
        && (r.Err? ==> r.error == NotFound)
        && (r.Ok? ==> r.value == (Entity(entity.id, entities[entity.id]), data))
        && ResetTrail(old(Log(entity.id)), Log(entity.id), ConsumedBy(cs, preserveCreateChangeSet), createChangeSet,
             ChangesFromData(entity.fields, data, Reset, keysToExcludeFromChangeSets), currentUser)
        && forall e :: e != entity.id ==> Log(e) == KeepEntries(old(Log(e)), ConsumedBy(cs, preserveCreateChangeSet))
    }

    /**
     * `resetSingleChangeSet`: writes back the values the change-set `cs` overwrote (or, for a
     * preserved CREATE change-set, the values it wrote) without recording an UPDATE, optionally
     * records a RESET change-set against the snapshot `entity`, and deletes `cs` unless it is a
     * preserved CREATE change-set. Returns the reloaded entity and the written-back values.
     */
    method ResetSingleChangeSet(entity: Entity, cs: ChangeSet, createChangeSet: bool, preserveCreateChangeSet: bool)
      returns (r: Result<(Entity, Record), Error>)
      requires Valid()
      requires cs.id < nextId
      modifies this`entities, this`changeSets, this`changes, this`clock, this`nextId
      ensures Valid()
      ensures ResetOutcome(entity, cs, createChangeSet, preserveCreateChangeSet, r)
    {
      if cs.entityId != entity.id {
        return Err(OwnershipMismatch);
      }
      var rows := ChangesOf(changes, cs.id);
      var data := CollectResetValues(rows, RestoresNew(cs, preserveCreateChangeSet));
      var updated := UpdateByIdWithoutChangeSet(Some(entity.id), data);
      if updated.Err? {
        return Err(updated.error);
      }
      var recorded := RecordResetAndConsume(entity, cs, data, createChangeSet, preserveCreateChangeSet);
      if recorded.Err? {
        return Err(recorded.error);
      }
      r := Ok((Entity(entity.id, entities[entity.id]), data));
    }
  
    /**
     * The second half of `resetSingleChangeSet`: the optional RESET change-set of `data` against
     * the snapshot `entity`, then the deletion of `cs` unless it is a preserved CREATE change-set.
     */
    method RecordResetAndConsume(entity: Entity, cs: ChangeSet, data: Record, createChangeSet: bool, preserveCreateChangeSet: bool)
      returns (r: Result<(), Error>)
      requires Valid()
      requires cs.id < nextId
      modifies this`changeSets, this`changes, this`clock, this`nextId
      ensures Valid()
      ensures r.Ok? <==> (IsConsumed(cs, preserveCreateChangeSet) ==> cs.id in IdsOf(old(changeSets)))
      ensures r.Err? ==> r.error == NotFound
      ensures ResetTrail(old(Log(entity.id)), Log(entity.id), ConsumedBy(cs, preserveCreateChangeSet), createChangeSet,
        ChangesFromData(entity.fields, data, Reset, keysToExcludeFromChangeSets), currentUser)
      ensures forall e :: e != entity.id ==> Log(e) == KeepEntries(old(Log(e)), ConsumedBy(cs, preserveCreateChangeSet))
    {
      var diff := ChangesFromData(entity.fields, data, Reset, keysToExcludeFromChangeSets);
      var created: Option<ChangeSet> := None;
      if createChangeSet {
        created := CreateChangeSet(entity, data, Reset, false);
        if created.Some? {
          IdsOfAppend(old(changeSets), created.value);
        }
      }
      label recorded:
      var consumed := ConsumedBy(cs, preserveCreateChangeSet);
      if IsConsumed(cs, preserveCreateChangeSet) {
        var deleted := DeleteChangeSetWithChanges(cs.id);
        assert Log(entity.id) == KeepEntries(old@recorded(Log(entity.id)), consumed);
        if createChangeSet {
          KeepAppended(old(Log(entity.id)), old@recorded(Log(entity.id)), consumed, Reset, diff, currentUser, false);
        }
        if deleted.Err? {
          return Err(deleted.error);
        }
      } else {
        forall e ensures KeepEntries(old@recorded(Log(e)), consumed) == old@recorded(Log(e)) {
          KeepEntriesNone(old@recorded(Log(e)), consumed);
        }
        forall e ensures KeepEntries(old(Log(e)), consumed) == old(Log(e)) {
          KeepEntriesNone(old(Log(e)), consumed);
        }
      }
      r := Ok(());
    }
  
    /** `resetSingleChangeSetById`: loads the entity (NotFound when missing), then resets `cs` on it. */
    method ResetSingleChangeSetById(id: Id, cs: ChangeSet, createChangeSet: bool, preserveCreateChangeSet: bool)
      returns (r: Result<(Entity, Record), Error>)
      requires Valid()
      requires cs.id < nextId
      modifies this`entities, this`changeSets, this`changes, this`clock, this`nextId
      ensures Valid()
      ensures id !in old(entities) ==>
        r == Err(NotFound) && entities == old(entities) && changeSets == old(changeSets) && changes == old(changes)
      ensures id in old(entities) ==>
        ResetOutcome(Entity(id, old(entities)[id]), cs, createChangeSet, preserveCreateChangeSet, r)
    {
      var found := FindById(entities, id);
      if found.Err? {
        return Err(found.error);
      }
      r := ResetSingleChangeSet(found.value, cs, createChangeSet, preserveCreateChangeSet);
    }

    /**
     * The loop of `rollbackToDate`: resets the targets one after the other without RESET
     * change-sets and merges what each wrote back. A missing entity fails at the first target.
     */
    method ResetTargets(entity: Entity, targets: seq<LoggedChangeSet>, preserveCreateChangeSet: bool)
      returns (r: Result<Record, Error>)
      requires Valid()
      requires NewestFirst(targets) && forall x :: x in targets ==> x in Log(entity.id)
      modifies this`entities, this`changeSets, this`changes, this`clock, this`nextId
      ensures Valid()
      ensures entity.id !in old(entities) ==>
        && r == (if targets == [] then Ok(map[]) else Err(NotFound))
        && entities == old(entities) && changeSets == old(changeSets) && changes == old(changes)
      ensures entity.id in old(entities) ==>
        var steps := Steps(targets, preserveCreateChangeSet);
        && r == Ok(Accumulate(steps))
        && entities == old(entities)[entity.id := old(entities)[entity.id] + Accumulate(steps)]
        && Log(entity.id) == KeepEntries(old(Log(entity.id)), ConsumedIds(targets, preserveCreateChangeSet))
      ensures forall e :: e != entity.id ==> Log(e) == old(Log(e))
    {
      ghost var h := Log(entity.id);
      ghost var steps := Steps(targets, preserveCreateChangeSet);
      var data: Record := map[];
      KeepEntriesNone(h, ConsumedIds(targets[..0], preserveCreateChangeSet));
      if entity.id in entities {
        assert steps[..0] == [] && entities[entity.id] + map[] == entities[entity.id];
        assert entities[entity.id := entities[entity.id] + Accumulate(steps[..0])] == entities;
      }
      var i := 0;
      while i < |targets|
        invariant 0 <= i <= |targets|
        invariant Valid()
        invariant entity.id in old(entities) || (i == 0 && entities == old(entities) && changeSets == old(changeSets) && changes == old(changes))
        invariant entity.id in old(entities) ==>
          entities == old(entities)[entity.id := old(entities)[entity.id] + Accumulate(steps[..i])]
        invariant data == Accumulate(steps[..i])
        invariant Log(entity.id) == KeepEntries(h, ConsumedIds(targets[..i], preserveCreateChangeSet))
        invariant forall e :: e != entity.id ==> Log(e) == old(Log(e))
      {
        var cs := targets[i].changeSet;
        NextTarget(changeSets, changes, entity.id, h, targets, preserveCreateChangeSet, i);
        ghost var before := changes;
        var reset := ResetSingleChangeSet(entity, cs, false, preserveCreateChangeSet);
        if reset.Err? {
          return Err(reset.error);
        }
        ResetValuesFromTrail(ChangesOf(before, cs.id), RestoresNew(cs, preserveCreateChangeSet));
        AccumulatePrefix(steps, i);
        if entity.id in old(entities) {
          UpdateMergedTwice(old(entities), entity.id, old(entities)[entity.id], Accumulate(steps[..i]), steps[i]);
        }
        KeepEntriesTwice(h, ConsumedIds(targets[..i], preserveCreateChangeSet), ConsumedBy(cs, preserveCreateChangeSet));
        ConsumedIdsPrefix(targets, preserveCreateChangeSet, i);
        data := data + reset.value.1;
        i := i + 1;
      }
      assert targets[..i] == targets && steps[..i] == steps;
      r := Ok(data);
    }
  
    /**
     * What rolling `entity` back to `date` did, given its result `r`. A missing entity fails with
     * NotFound and changes nothing. Otherwise the stored fields are those the rollback of the
     * entity's trail computes, the trail is the rolled-back trail (consumed change-sets gone,
     * optional RESET entry against the snapshot), and `r` holds the reloaded entity. No other
     * trail changes.
     */
    twostate predicate RolledBack(entity: Entity, date: nat, createChangeSet: bool, preserveCreateChangeSet: bool,
                                  new r: Result<Entity, Error>)
      reads this
    {
      && (forall e :: e != entity.id ==> Log(e) == old(Log(e)))
      && if entity.id !in old(entities) then
           && r == Err(NotFound)
           && entities == old(entities) && changeSets == old(changeSets) && changes == old(changes)
         else
           && entity.id in entities && entities == old(entities)[entity.id := entities[entity.id]]
           && r == Ok(Entity(entity.id, entities[entity.id]))
           && RolledBackEntity(old(Log(entity.id)), Log(entity.id), old(entities)[entity.id], entities[entity.id],
                entity.fields, date, createChangeSet, preserveCreateChangeSet, keysToExcludeFromChangeSets, currentUser)
    }

    /**
     * `rollbackToDate`: resets every change-set of the entity stamped at or after `date`, newest
     * first, merging what each wrote back; then optionally records one RESET change-set of the
     * merged values against the snapshot `entity`, and reloads the entity.
     */
    method RollbackToDate(entity: Entity, date: nat, createChangeSet: bool, preserveCreateChangeSet: bool)
      returns (r: Result<Entity, Error>)
      requires Valid()
      modifies this`entities, this`changeSets, this`changes, this`clock, this`nextId
      ensures Valid()
      ensures RolledBack(entity, date, createChangeSet, preserveCreateChangeSet, r)
    {
      var targets := Since(Log(entity.id), date);
      HistoryChronological(changeSets, changes, entity.id);
      SinceNewestFirst(Log(entity.id), date);
      var reset := ResetTargets(entity, targets, preserveCreateChangeSet);
      if reset.Err? {
        return Err(reset.error);
      }
      var data := reset.value;
      if createChangeSet {
        assert entity.id !in old(entities) ==> ChangesFromData(entity.fields, data, Reset, keysToExcludeFromChangeSets) == map[];
        var created := CreateChangeSet(entity, data, Reset, false);
      }
      var found := FindById(entities, entity.id);
      if found.Err? {
        return Err(found.error);
      }
      r := Ok(found.value);
      assert entities[entity.id] == RolledBackFields(old(entities)[entity.id], old(Log(entity.id)), date, preserveCreateChangeSet);
      assert RolledBackLog(old(Log(entity.id)), Log(entity.id), entity.fields, date, createChangeSet,
        preserveCreateChangeSet, keysToExcludeFromChangeSets, currentUser);
    }
  
    /** `rollbackToDateById`: loads the entity (NotFound when missing), then rolls it back to `date`. */
    method RollbackToDateById(id: Id, date: nat, createChangeSet: bool, preserveCreateChangeSet: bool)
      returns (r: Result<Entity, Error>)
      requires Valid()
      modifies this`entities, this`changeSets, this`changes, this`clock, this`nextId
      ensures Valid()
      ensures id !in old(entities) ==>
        r == Err(NotFound) && entities == old(entities) && changeSets == old(changeSets) && changes == old(changes)
      ensures id in old(entities) ==>
        RolledBack(Entity(id, old(entities)[id]), date, createChangeSet, preserveCreateChangeSet, r)
    {
      var found := FindById(entities, id);
      if found.Err? {
        return Err(found.error);
      }
      r := RollbackToDate(found.value, date, createChangeSet, preserveCreateChangeSet);
    }

    /**
     * `rollbackToChangeSet`: rolls the entity back to the stamp of `cs`; whose change-set `cs`
     * is, is not checked.
     */
    method RollbackToChangeSet(entity: Entity, cs: ChangeSet, createChangeSet: bool, preserveCreateChangeSet: bool)
      returns (r: Result<Entity, Error>)
      requires Valid()
      modifies this`entities, this`changeSets, this`changes, this`clock, this`nextId
      ensures Valid()
      ensures RolledBack(entity, cs.changedAt, createChangeSet, preserveCreateChangeSet, r)
    {
      r := RollbackToDate(entity, cs.changedAt, createChangeSet, preserveCreateChangeSet);
    }

    /**
     * `rollbackToChangeSetById`: a change-set of another entity fails with OwnershipMismatch and
     * changes nothing; otherwise the entity with that id is rolled back to the stamp of `cs`.
     */
    method RollbackToChangeSetById(id: Id, cs: ChangeSet, createChangeSet: bool, preserveCreateChangeSet: bool)
      returns (r: Result<Entity, Error>)
      requires Valid()
      modifies this`entities, this`changeSets, this`changes, this`clock, this`nextId
      ensures Valid()
      ensures cs.entityId != id || id !in old(entities) ==>
        && r == Err(if cs.entityId != id then OwnershipMismatch else NotFound)
        && entities == old(entities) && changeSets == old(changeSets) && changes == old(changes)
      ensures cs.entityId == id && id in old(entities) ==>
        RolledBack(Entity(id, old(entities)[id]), cs.changedAt, createChangeSet, preserveCreateChangeSet, r)
    {
      if cs.entityId != id {
        return Err(OwnershipMismatch);
      }
      r := RollbackToDateById(id, cs.changedAt, createChangeSet, preserveCreateChangeSet);
    }

    /**
     * `rollbackAllToDate`: rolls every match back to `date`, each from the snapshot the query
     * returned, and returns the number of matches.
     */
    method RollbackAllToDate(date: nat, w: Where, createChangeSet: bool, preserveCreateChangeSet: bool)
      returns (count: nat)
      requires Valid()
      modifies this`entities, this`changeSets, this`changes, this`clock, this`nextId
      ensures Valid()
      ensures count == |Find(old(entities), w)|
      ensures RolledBackAll(Find(old(entities), w), date, createChangeSet, preserveCreateChangeSet)
    {
      var matched := Find(entities, w);
      RollbackEach(matched, date, createChangeSet, preserveCreateChangeSet);
      count := |matched|;
    }

    /**
     * Each entity of `snapshots` rolled back to `date` from its snapshot, every other entity and
     * trail untouched.
     */
    twostate predicate RolledBackAll(snapshots: map<Id, Record>, date: nat, createChangeSet: bool, preserveCreateChangeSet: bool)
      reads this
    {
      RolledBackEach(old(entities), old(changeSets), old(changes), entities, changeSets, changes, snapshots, date,
        createChangeSet, preserveCreateChangeSet, keysToExcludeFromChangeSets, currentUser)
    }

    /** Rolls back the entities of `snapshots` one after the other (the source runs them concurrently). */
    method RollbackEach(snapshots: map<Id, Record>, date: nat, createChangeSet: bool, preserveCreateChangeSet: bool)
      requires Valid()
      requires forall id :: id in snapshots ==> id in entities && entities[id] == snapshots[id]
      modifies this`entities, this`changeSets, this`changes, this`clock, this`nextId
      decreases snapshots.Keys
      ensures Valid()
      ensures RolledBackAll(snapshots, date, createChangeSet, preserveCreateChangeSet)
    {
      if snapshots == map[] {
        return;
      }
      var id :| id in snapshots;
      var r := RollbackToDate(Entity(id, snapshots[id]), date, createChangeSet, preserveCreateChangeSet);
      forall e | e != id ensures History(changeSets, changes, e) == old(History(changeSets, changes, e)) {
        assert Log(e) == old(Log(e));
      }
      RolledBackOne(old(entities), old(changeSets), old(changes), entities, changeSets, changes, id, snapshots[id], date,
        createChangeSet, preserveCreateChangeSet, keysToExcludeFromChangeSets, currentUser);
      ghost var (ents, css, chs) := (entities, changeSets, changes);
      RollbackEach(snapshots - {id}, date, createChangeSet, preserveCreateChangeSet);
      RolledBackEachStep(old(entities), old(changeSets), old(changes), ents, css, chs, entities, changeSets, changes, id,
        snapshots, date, createChangeSet, preserveCreateChangeSet, keysToExcludeFromChangeSets, currentUser);
    }
  }
}
