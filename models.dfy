/**
 * The records the change-set engine works on: field values, entities, change-sets,
 * changes and the equality filters ("where" clauses) used to select entities.
 */
module Models {
  import opened Wrappers

  /** Identifiers of entities, change-sets and changes (uuids in the store; here drawn from one counter). */
  type Id = nat

  /** A field name of an entity. */
  type Key = string

  /** The id of the acting user, as resolved by the security context. */
  type UserId = string

  /**
   * A field value. `Absent` stands for `undefined`: a field that is not set.
   * Values are plain data, so two values are equal exactly when their contents are.
   */
  datatype Val = Absent | Str(s: string) | Num(n: int) | Flag(b: bool)

  /** An entity's fields, or the payload of a mutation: field name to value. */
  type Record = map<Key, Val>

  /** Reads a field; a missing field reads as `Absent`. */
  function Get(r: Record, k: Key): Val {
    if k in r then r[k] else Absent
  }

  /** JavaScript truthiness of a field value (`if (entity.deleted)`). */
  predicate Truthy(v: Val) {
    match v
    case Absent => false
    case Str(s) => s != ""
    case Num(n) => n != 0
    case Flag(b) => b
  }

  /** The kind of mutation a change-set records. */
  datatype ChangeSetType = Create | Replace | Reset | Update | Delete | Restore

  /**
   * One audit record per mutation event. `changedAt` is the timestamp that orders the
   * change-sets (a logical clock here), `changedBy` the acting user if one could be resolved,
   * `entityId` the tracked entity it belongs to. Its changes live in the change table.
   */
  datatype ChangeSet = ChangeSet(id: Id, kind: ChangeSetType, changedAt: nat, changedBy: Option<UserId>, entityId: Id)

  /** One field-level delta, owned by the change-set `changeSetId`. */
  datatype Change = Change(id: Id, key: Key, previousValue: Val, newValue: Val, changeSetId: Id)

  /** A snapshot of a tracked entity: its id and its fields. */
  datatype Entity = Entity(id: Id, fields: Record)

  /** Errors the repository raises. */
  datatype Error = NotFound | OwnershipMismatch | InvalidArgument

  /** An equality filter: an optional id condition and a value required of each listed field. */
  datatype Where = Where(id: Option<Id>, fields: Record)

  /** The relation key every tracked entity carries; it is never diffed. */
  const ChangeSetsKey: Key := "changeSets"

  /** The soft-delete flag. */
  const DeletedKey: Key := "deleted"

  /** Whether the entity `id` with fields `r` satisfies the filter. */
  predicate Matches(w: Where, id: Id, r: Record) {
    && (w.id.Some? ==> w.id.value == id)
    && forall k :: k in w.fields ==> Get(r, k) == w.fields[k]
  }

  /** The entities a `find` with filter `w` returns, by id. */
  function Find(entities: map<Id, Record>, w: Where): (found: map<Id, Record>)
    ensures forall id :: id in found <==> id in entities && Matches(w, id, entities[id])
    ensures forall id :: id in found ==> found[id] == entities[id]
  {
    map id | id in entities && Matches(w, id, entities[id]) :: entities[id]
  }

  /** `findById`: the entity with the given id, or NotFound. */
  function FindById(entities: map<Id, Record>, id: Id): (r: Result<Entity, Error>)
    ensures r.Ok? <==> id in entities
    ensures r.Ok? ==> r.value == Entity(id, entities[id])
  {
    if id in entities then Ok(Entity(id, entities[id])) else Err(NotFound)
  }
}
