/**
 * The shallow field diff that turns a mutation into the changes of one change-set
 * (getKeysToIncludeInChangeSet, hasValueChanged, getChangesFromData).
 */
module Diff {
  import opened Models

  /** A change before it is stored: the value before and after, keyed by field name in a diff. */
  datatype NewChange = NewChange(previousValue: Val, newValue: Val)

  /**
   * Whether a value has changed. The repository compares with `!==` or differing
   * JSON serialisations, so two distinct objects with equal contents count as changed;
   * field values here are plain data, for which both tests reduce to inequality.
   */
  predicate HasValueChanged(previousValue: Val, newValue: Val) {
    previousValue != newValue
  }

  /** The keys of a payload that take part in a change-set: all of them except the excluded ones. */
  function KeysToIncludeInChangeSet(data: Record, excluded: set<Key>): (keys: set<Key>)
    ensures keys <= data.Keys && keys !! excluded
    ensures forall k :: k in data && k !in excluded ==> k in keys
  {
    data.Keys - excluded
  }

  /** The value a change records as previous: nothing for a CREATE, the entity's value otherwise. */
  function PreviousValue(entity: Record, kind: ChangeSetType, key: Key): Val {
    if kind == Create then Absent else Get(entity, key)
  }

  /**
   * The changes a mutation with payload `data` on `entity` produces: one per included key
   * whose value differs from the previous one.
   */
  function ChangesFromData(entity: Record, data: Record, kind: ChangeSetType, excluded: set<Key>): (diff: map<Key, NewChange>)
    ensures diff.Keys <= data.Keys && diff.Keys !! excluded
    ensures forall k :: k in diff ==> diff[k].newValue == data[k] && diff[k].previousValue == PreviousValue(entity, kind, k)
    ensures forall k :: k in diff ==> diff[k].previousValue != diff[k].newValue
    ensures kind == Create ==> forall k :: k in diff ==> diff[k].previousValue == Absent
    ensures forall k :: k in data && k !in excluded && PreviousValue(entity, kind, k) != data[k] ==> k in diff
  {
    map k | k in KeysToIncludeInChangeSet(data, excluded) && HasValueChanged(PreviousValue(entity, kind, k), data[k])
      :: NewChange(PreviousValue(entity, kind, k), data[k])
  }

  /** `getKeysToIncludeInChangeSet`: collects the payload's keys one at a time, skipping the excluded ones. */
  method GetKeysToIncludeInChangeSet(data: Record, excluded: set<Key>) returns (keys: set<Key>)
    ensures keys == KeysToIncludeInChangeSet(data, excluded)
  {
    keys := {};
    var pending := data.Keys;
    while pending != {}
      invariant pending <= data.Keys
      invariant keys == (data.Keys - pending) - excluded
      decreases pending
    {
      var k :| k in pending;
      if k !in excluded {
        keys := keys + {k};
      }
      pending := pending - {k};
    }
  }

  /** `getChangesFromData`: one change per included key whose value differs, collected key by key. */
  method GetChangesFromData(entity: Record, data: Record, kind: ChangeSetType, excluded: set<Key>)
    returns (changes: map<Key, NewChange>)
    ensures changes == ChangesFromData(entity, data, kind, excluded)
  {
    ghost var diff := ChangesFromData(entity, data, kind, excluded);
    var keys := GetKeysToIncludeInChangeSet(data, excluded);
    changes := map[];
    var pending := keys;
    while pending != {}
      invariant pending <= keys
      invariant changes == diff - pending
      decreases pending
    {
      var k :| k in pending;
      var previousValue := PreviousValue(entity, kind, k);
      if HasValueChanged(previousValue, data[k]) {
        changes := changes[k := NewChange(previousValue, data[k])];
      }
      pending := pending - {k};
    }
  }

  /** A payload that agrees with the entity on every included key yields no change (unless it is a CREATE). */
  lemma NoChangesWhenDataAgrees(entity: Record, data: Record, kind: ChangeSetType, excluded: set<Key>)
    requires kind != Create
    requires forall k :: k in data && k !in excluded ==> data[k] == Get(entity, k)
    ensures ChangesFromData(entity, data, kind, excluded) == map[]
  {
    var diff := ChangesFromData(entity, data, kind, excluded);
    assert diff.Keys == {};
  }

  /** The entity's own fields with an excluded flag overwritten produce no change: the payload of restore. */
  lemma NoChangesForFlagOnly(entity: Record, flag: Key, v: Val, kind: ChangeSetType, excluded: set<Key>)
    requires kind != Create && flag in excluded
    ensures ChangesFromData(entity, entity[flag := v], kind, excluded) == map[]
  {
    NoChangesWhenDataAgrees(entity, entity[flag := v], kind, excluded);
  }

  /** The payload written back by undoing a diff: each changed key gets its previous value. */
  function Undo(diff: map<Key, NewChange>): (r: Record)
    ensures r.Keys == diff.Keys
    ensures forall k :: k in r ==> r[k] == diff[k].previousValue
  {
    map k | k in diff :: diff[k].previousValue
  }

  /** The payload replaying a diff: each changed key gets its new value. */
  function Redo(diff: map<Key, NewChange>): (r: Record)
    ensures r.Keys == diff.Keys
    ensures forall k :: k in r ==> r[k] == diff[k].newValue
  {
    map k | k in diff :: diff[k].newValue
  }

  /**
   * The diff of an update loses nothing the update did to an included field: replaying it
   * on the old entity gives the updated entity, and undoing it on the updated entity gives
   * back the old one, on every key that is not excluded.
   */
  lemma DiffRoundTrip(entity: Record, data: Record, kind: ChangeSetType, excluded: set<Key>, k: Key)
    requires kind != Create && k !in excluded
    ensures var diff := ChangesFromData(entity, data, kind, excluded);
      && Get(entity + Redo(diff), k) == Get(entity + data, k)
      && Get((entity + data) + Undo(diff), k) == Get(entity, k)
  {
    var diff := ChangesFromData(entity, data, kind, excluded);
    if k in data && data[k] != Get(entity, k) {
      assert k in diff;
    }
  }
}
