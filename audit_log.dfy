/**
 * The change-set table and the change table as values: queries over them, the audit trail
 * of one entity they encode, and how appending and deleting rows changes that trail.
 */
module AuditLog {
  import opened Wrappers
  import opened Models
  import opened Diff

  /** A change-set as its entity's trail shows it: the record and its change rows read back as a diff. */
  datatype LoggedChangeSet = Logged(changeSet: ChangeSet, diff: map<Key, NewChange>)

  /** The ids of the change-sets in a table. */
  function IdsOf(css: seq<ChangeSet>): (ids: set<Id>)
    ensures forall cs :: cs in css ==> cs.id in ids
  {
    set cs | cs in css :: cs.id
  }

  /** The ids of a table with one more change-set. */
  lemma IdsOfAppend(css: seq<ChangeSet>, cs: ChangeSet)
    ensures IdsOf(css + [cs]) == IdsOf(css) + {cs.id}
  {
    forall x | x in IdsOf(css + [cs]) ensures x in IdsOf(css) + {cs.id} {
      var y :| y in css + [cs] && y.id == x;
      if y != cs {
        assert y in css;
      }
    }
  }

  /** The ids of a prefix one longer. */
  lemma IdsOfPrefix(css: seq<ChangeSet>, i: nat)
    requires i < |css|
    ensures IdsOf(css[..i + 1]) == IdsOf(css[..i]) + {css[i].id}
  {
    assert css[..i + 1] == css[..i] + [css[i]];
  }

  /** The keys of a list of change rows. */
  function KeysOf(rows: seq<Change>): (keys: set<Key>)
    ensures forall c :: c in rows ==> c.key in keys
  {
    set c | c in rows :: c.key
  }

  /** The change-sets at positions `i < j` of the table are in order of id and of time. */
  ghost predicate InOrder(css: seq<ChangeSet>, i: int, j: int) {
    0 <= i < j < |css| && css[i].id < css[j].id && css[i].changedAt < css[j].changedAt
  }

  /** Change-sets in table order carry strictly increasing ids and timestamps. */
  ghost predicate Chronological(css: seq<ChangeSet>) {
    forall i, j :: 0 <= i < j < |css| ==> InOrder(css, i, j)
  }

  /** The same, for an entity's trail. */
  ghost predicate ChronologicalLog(h: seq<LoggedChangeSet>) {
    forall i, j :: 0 <= i < j < |h| ==> h[i].changeSet.id < h[j].changeSet.id && h[i].changeSet.changedAt < h[j].changeSet.changedAt
  }

  /** Every change row belongs to a change-set that is still in the table. */
  ghost predicate NoOrphans(css: seq<ChangeSet>, chs: seq<Change>) {
    forall c :: c in chs ==> c.changeSetId in IdsOf(css)
  }

  /**
   * The invariant the two tables keep: change-sets in chronological order, every id below
   * `nextId`, every stamp at most `clock`, no change without its change-set and no change
   * of an excluded key.
   */
  ghost predicate WellFormed(css: seq<ChangeSet>, chs: seq<Change>, excluded: set<Key>, nextId: nat, clock: nat) {
    && Chronological(css)
    && (forall cs :: cs in css ==> cs.id < nextId && cs.changedAt <= clock)
    && NoOrphans(css, chs)
    && (forall c :: c in chs ==> c.key !in excluded)
  }

  /** Two positions of a chronological table are in order. */
  lemma OrderedAt(css: seq<ChangeSet>, i: int, j: int)
    requires Chronological(css) && 0 <= i < j < |css|
    ensures css[i].id < css[j].id && css[i].changedAt < css[j].changedAt
  {
    assert InOrder(css, i, j);
  }

  lemma {:induction false} UniqueIds(css: seq<ChangeSet>, a: ChangeSet, b: ChangeSet)
    requires Chronological(css) && a in css && b in css && a.id == b.id
    ensures a == b
  {
    var i :| 0 <= i < |css| && css[i] == a;
    var j :| 0 <= j < |css| && css[j] == b;
    if i < j {
      OrderedAt(css, i, j);
    } else if j < i {
      OrderedAt(css, j, i);
    }
  }

  lemma ChronologicalAppend(css: seq<ChangeSet>, cs: ChangeSet)
    requires Chronological(css)
    requires forall x :: x in css ==> x.id < cs.id && x.changedAt < cs.changedAt
    ensures Chronological(css + [cs])
  {
    var s := css + [cs];
    forall i, j | 0 <= i < j < |s| ensures InOrder(s, i, j) {
      if j == |css| {
        assert s[i] in css;
      } else {
        assert s[i] == css[i] && s[j] == css[j] && InOrder(css, i, j);
      }
    }
  }

  lemma PrefixChronological(css: seq<ChangeSet>)
    requires Chronological(css) && css != []
    ensures Chronological(css[..|css| - 1])
  {
    var prefix := css[..|css| - 1];
    forall i, j | 0 <= i < j < |prefix| ensures InOrder(prefix, i, j) {
      assert prefix[i] == css[i] && prefix[j] == css[j] && InOrder(css, i, j);
    }
  }

  /** A change-set before the last one of a chronological table is older than it. */
  lemma EarlierInTable(css: seq<ChangeSet>, x: ChangeSet)
    requires Chronological(css) && css != [] && x in css[..|css| - 1]
    ensures x.id < css[|css| - 1].id && x.changedAt < css[|css| - 1].changedAt
  {
    var i :| 0 <= i < |css| - 1 && css[..|css| - 1][i] == x;
    assert css[i] == x && InOrder(css, i, |css| - 1);
  }

  /** Rows of the change table owned by one change-set, in table order (`changes(id).find()`). */
  function ChangesOf(chs: seq<Change>, csId: Id): (rows: seq<Change>)
    ensures forall c :: c in rows <==> c in chs && c.changeSetId == csId
  {
    if chs == [] then []
    else ChangesOf(chs[..|chs| - 1], csId) + (if chs[|chs| - 1].changeSetId == csId then [chs[|chs| - 1]] else [])
  }

  /** The change table after deleting every row owned by one of `ids`. */
  function WithoutChangesOf(chs: seq<Change>, ids: set<Id>): (rest: seq<Change>)
    ensures forall c :: c in rest <==> c in chs && c.changeSetId !in ids
  {
    if chs == [] then []
    else WithoutChangesOf(chs[..|chs| - 1], ids) + (if chs[|chs| - 1].changeSetId !in ids then [chs[|chs| - 1]] else [])
  }

  /** The change-set table after deleting the change-sets with one of `ids`. */
  function WithoutChangeSets(css: seq<ChangeSet>, ids: set<Id>): (rest: seq<ChangeSet>)
    ensures forall cs :: cs in rest <==> cs in css && cs.id !in ids
    ensures IdsOf(rest) == IdsOf(css) - ids
  {
    if css == [] then []
    else WithoutChangeSets(css[..|css| - 1], ids) + (if css[|css| - 1].id !in ids then [css[|css| - 1]] else [])
  }

  /** The change-sets of one entity, in table order (`find({where: {changeSetEntityId}})`). */
  function OwnedBy(css: seq<ChangeSet>, entityId: Id): (owned: seq<ChangeSet>)
    ensures forall cs :: cs in owned <==> cs in css && cs.entityId == entityId
  {
    if css == [] then []
    else OwnedBy(css[..|css| - 1], entityId) + (if css[|css| - 1].entityId == entityId then [css[|css| - 1]] else [])
  }

  /** Change rows read back as a diff; a later row for the same key wins. */
  function DiffOf(rows: seq<Change>): (diff: map<Key, NewChange>)
    ensures diff.Keys == KeysOf(rows)
  {
    if rows == [] then map[]
    else
      var c := rows[|rows| - 1];
      assert KeysOf(rows) == KeysOf(rows[..|rows| - 1]) + {c.key} by {
        assert rows == rows[..|rows| - 1] + [c];
      }
      DiffOf(rows[..|rows| - 1])[c.key := NewChange(c.previousValue, c.newValue)]
  }

  /** A row appended to a change-set's rows sets its key, whatever the earlier rows said. */
  lemma DiffOfAppend(rows: seq<Change>, c: Change)
    ensures DiffOf(rows + [c]) == DiffOf(rows)[c.key := NewChange(c.previousValue, c.newValue)]
  {
    assert (rows + [c])[..|rows|] == rows;
  }

  /** Rows that each agree with `diff` yield a part of `diff`. */
  lemma {:induction false} DiffOfAgrees(rows: seq<Change>, diff: map<Key, NewChange>)
    requires forall c :: c in rows ==> c.key in diff && diff[c.key] == NewChange(c.previousValue, c.newValue)
    ensures forall k :: k in DiffOf(rows) ==> k in diff && DiffOf(rows)[k] == diff[k]
  {
    if rows != [] {
      var prefix := rows[..|rows| - 1];
      var c := rows[|rows| - 1];
      assert rows == prefix + [c];
      DiffOfAgrees(prefix, diff);
      DiffOfAppend(prefix, c);
    }
  }

  /** Rows that agree with `diff` and cover all of its keys yield exactly `diff`. */
  lemma DiffOfCovers(rows: seq<Change>, diff: map<Key, NewChange>)
    requires forall c :: c in rows ==> c.key in diff && diff[c.key] == NewChange(c.previousValue, c.newValue)
    requires forall k :: k in diff ==> k in KeysOf(rows)
    ensures DiffOf(rows) == diff
  {
    DiffOfAgrees(rows, diff);
  }

  /**
   * `rows` are one change row of change-set `id` per key of `diff`, each carrying that key's
   * values: the last row records one key of `diff` and the rows before it record the others.
   */
  ghost predicate RowsRecord(rows: seq<Change>, id: Id, diff: map<Key, NewChange>) {
    if rows == [] then diff == map[]
    else
      var c := rows[|rows| - 1];
      && c.changeSetId == id && c.key in diff && diff[c.key] == NewChange(c.previousValue, c.newValue)
      && RowsRecord(rows[..|rows| - 1], id, diff - {c.key})
  }

  /** A row for one more key, appended to rows recording the other keys, records them all. */
  lemma RowsRecordAppend(rows: seq<Change>, id: Id, diff: map<Key, NewChange>, c: Change)
    requires c.changeSetId == id && c.key in diff && diff[c.key] == NewChange(c.previousValue, c.newValue)
    requires RowsRecord(rows, id, diff - {c.key})
    ensures RowsRecord(rows + [c], id, diff)
  {
    assert (rows + [c])[..|rows|] == rows;
  }

  /** Rows recording a diff read back as exactly that diff. */
  lemma {:induction false} RowsRecordDiff(rows: seq<Change>, id: Id, diff: map<Key, NewChange>)
    requires RowsRecord(rows, id, diff)
    ensures DiffOf(rows) == diff
  {
    if rows != [] {
      var c := rows[|rows| - 1];
      RowsRecordDiff(rows[..|rows| - 1], id, diff - {c.key});
      assert diff == (diff - {c.key})[c.key := NewChange(c.previousValue, c.newValue)];
    }
  }

  /** Rows recording a diff are as many as its keys, with no key twice, all of change-set `id`. */
  lemma {:induction false} RowsRecordOnePerKey(rows: seq<Change>, id: Id, diff: map<Key, NewChange>)
    requires RowsRecord(rows, id, diff)
    ensures |rows| == |diff|
    ensures forall i, j :: 0 <= i < j < |rows| ==> rows[i].key != rows[j].key
    ensures forall c :: c in rows ==> c.changeSetId == id && c.key in diff
  {
    if rows != [] {
      var init, c := rows[..|rows| - 1], rows[|rows| - 1];
      var rest := diff - {c.key};
      RowsRecordOnePerKey(init, id, rest);
      assert rest.Keys == diff.Keys - {c.key};
      forall i, j | 0 <= i < j < |rows| ensures rows[i].key != rows[j].key {
        assert rows[i] == init[i] && init[i].key in rest;
        if j < |rows| - 1 {
          assert rows[j] == init[j];
        }
      }
      forall d | d in rows ensures d.changeSetId == id && d.key in diff {
        if d != c {
          assert d in init;
        }
      }
    }
  }

  /** `after` is the change table `before` with the rows of change-set `id` recording `diff` appended. */
  ghost predicate RowsAppended(before: seq<Change>, after: seq<Change>, id: Id, diff: map<Key, NewChange>) {
    && |after| == |before| + |diff|
    && after[..|before|] == before
    && RowsRecord(after[|before|..], id, diff)
  }

  /** How the trail shows change-set `cs`, given the change table. */
  function Entry(chs: seq<Change>, cs: ChangeSet): LoggedChangeSet {
    Logged(cs, DiffOf(ChangesOf(chs, cs.id)))
  }

  /** The audit trail of one entity: its change-sets in table order, each with its changes. */
  function History(css: seq<ChangeSet>, chs: seq<Change>, entityId: Id): seq<LoggedChangeSet>
  {
    if css == [] then []
    else
      var cs := css[|css| - 1];
      History(css[..|css| - 1], chs, entityId) + (if cs.entityId == entityId then [Entry(chs, cs)] else [])
  }

  /**
   * The trail of an entity holds exactly its change-sets, each shown with the changes the
   * change table holds for it.
   */
  lemma {:induction false} InHistory(css: seq<ChangeSet>, chs: seq<Change>, entityId: Id)
    ensures forall x :: x in History(css, chs, entityId) ==>
      x.changeSet in css && x.changeSet.entityId == entityId && x == Entry(chs, x.changeSet)
    ensures forall cs :: cs in css && cs.entityId == entityId ==> Entry(chs, cs) in History(css, chs, entityId)
  {
    if css != [] {
      var prefix := css[..|css| - 1];
      var cs := css[|css| - 1];
      InHistory(prefix, chs, entityId);
      assert css == prefix + [cs];
    }
  }

  /** The trail without the entries of the change-sets with one of `ids`. */
  function KeepEntries(h: seq<LoggedChangeSet>, ids: set<Id>): (rest: seq<LoggedChangeSet>)
    ensures forall x :: x in rest <==> x in h && x.changeSet.id !in ids
  {
    if h == [] then []
    else KeepEntries(h[..|h| - 1], ids) + (if h[|h| - 1].changeSet.id !in ids then [h[|h| - 1]] else [])
  }

  /** A trail entry for a change-set of that kind, by that user, with that diff. */
  predicate Describes(entry: LoggedChangeSet, kind: ChangeSetType, diff: map<Key, NewChange>, user: Option<UserId>) {
    entry.changeSet.kind == kind && entry.changeSet.changedBy == user && entry.diff == diff
  }

  /**
   * A trail `after` that is `before` with at most one entry more: none when the diff is empty
   * and the change-set is not forced, otherwise one of the given kind, user and diff.
   */
  ghost predicate AppendedEntry(before: seq<LoggedChangeSet>, after: seq<LoggedChangeSet>, kind: ChangeSetType,
                                diff: map<Key, NewChange>, user: Option<UserId>, force: bool)
  {
    if !force && diff == map[] then after == before
    else |after| == |before| + 1 && after[..|before|] == before && Describes(after[|before|], kind, diff, user)
  }

  /**
   * The trails of two tables after one change-set per entity of `diffs`: each of those trails
   * gained the entry of its diff, every other trail is untouched.
   */
  ghost predicate AppendedEach(css: seq<ChangeSet>, chs: seq<Change>, css': seq<ChangeSet>, chs': seq<Change>,
                               diffs: map<Id, map<Key, NewChange>>, kind: ChangeSetType, user: Option<UserId>, force: bool)
  {
    && (forall id :: id in diffs ==>
          AppendedEntry(History(css, chs, id), History(css', chs', id), kind, diffs[id], user, force))
    && (forall id :: id !in diffs ==> History(css', chs', id) == History(css, chs, id))
  }

  /** One change-set for one entity is the case of a single diff. */
  lemma AppendedOne(css: seq<ChangeSet>, chs: seq<Change>, css': seq<ChangeSet>, chs': seq<Change>, id: Id,
                    diff: map<Key, NewChange>, kind: ChangeSetType, user: Option<UserId>, force: bool)
    requires AppendedEntry(History(css, chs, id), History(css', chs', id), kind, diff, user, force)
    requires forall e :: e != id ==> History(css', chs', e) == History(css, chs, e)
    ensures AppendedEach(css, chs, css', chs', map[id := diff], kind, user, force)
  {
  }

  /** One entity's change-set, then those of the others, are the change-sets of them all. */
  lemma AppendedEachStep(css0: seq<ChangeSet>, chs0: seq<Change>, css1: seq<ChangeSet>, chs1: seq<Change>,
                         css2: seq<ChangeSet>, chs2: seq<Change>, id: Id, diffs: map<Id, map<Key, NewChange>>,
                         kind: ChangeSetType, user: Option<UserId>, force: bool)
    requires id in diffs
    requires AppendedEach(css0, chs0, css1, chs1, map[id := diffs[id]], kind, user, force)
    requires AppendedEach(css1, chs1, css2, chs2, diffs - {id}, kind, user, force)
    ensures AppendedEach(css0, chs0, css2, chs2, diffs, kind, user, force)
  {
    assert History(css2, chs2, id) == History(css1, chs1, id);
  }

  /** Dropping the same entries on both sides keeps one trail the other plus that entry, if the new entry is kept. */
  lemma KeepAppended(before: seq<LoggedChangeSet>, after: seq<LoggedChangeSet>, ids: set<Id>, kind: ChangeSetType,
                     diff: map<Key, NewChange>, user: Option<UserId>, force: bool)
    requires AppendedEntry(before, after, kind, diff, user, force)
    requires |after| > |before| ==> after[|before|].changeSet.id !in ids
    ensures AppendedEntry(KeepEntries(before, ids), KeepEntries(after, ids), kind, diff, user, force)
  {
    if force || diff != map[] {
      assert after == before + [after[|before|]];
      KeepEntriesAppend(before, after[|before|], ids);
    }
  }

  // ---------------------------------------------------------------------------
  // Consuming a change-set.

  /**
   * Consuming a change-set the way resetSingleChangeSet does it: only the change-set row is
   * deleted (the change-set repository's deleteById does not cascade), its change rows stay.
   */
  function ConsumeAsWritten(css: seq<ChangeSet>, chs: seq<Change>, csId: Id): (tables: (seq<ChangeSet>, seq<Change>))
    ensures csId !in IdsOf(tables.0) && tables.1 == chs
  {
    (WithoutChangeSets(css, {csId}), chs)
  }

  /** One change-set with one change, consumed as written, leaves that change without an owner. */
  lemma ConsumeAsWrittenLeavesOrphans()
    ensures var cs := ChangeSet(1, Update, 2, None, 0);
            var c := Change(2, "firstName", Str("James"), Str("Max"), 1);
            && NoOrphans([cs], [c])
            && var tables := ConsumeAsWritten([cs], [c], 1);
               !NoOrphans(tables.0, tables.1)
  {
    var cs := ChangeSet(1, Update, 2, None, 0);
    var c := Change(2, "firstName", Str("James"), Str("Max"), 1);
    assert IdsOf([cs]) == {1};
    var tables := ConsumeAsWritten([cs], [c], 1);
    assert c in tables.1;
  }

  /**
   * Consuming a change-set together with its change rows, as deleteChangeSetsForEntity does:
   * the change rows of `csId` go first, then the change-set.
   */
  function Consume(css: seq<ChangeSet>, chs: seq<Change>, csId: Id): (tables: (seq<ChangeSet>, seq<Change>))
    ensures IdsOf(tables.0) == IdsOf(css) - {csId}
    ensures forall c :: c in tables.1 <==> c in chs && c.changeSetId != csId
    ensures NoOrphans(css, chs) ==> NoOrphans(tables.0, tables.1)
  {
    (WithoutChangeSets(css, {csId}), WithoutChangesOf(chs, {csId}))
  }

  /** Consuming a change-set keeps the tables well formed. */
  lemma ConsumeWellFormed(css: seq<ChangeSet>, chs: seq<Change>, excluded: set<Key>, nextId: nat, clock: nat, csId: Id)
    requires WellFormed(css, chs, excluded, nextId, clock)
    ensures var tables := Consume(css, chs, csId);
      WellFormed(tables.0, tables.1, excluded, nextId, clock)
  {
    WithoutChangeSetsChronological(css, {csId});
  }

  /** Appending a change-set with a fresh id and a later stamp, and rows of it, keeps the tables well formed. */
  lemma AppendWellFormed(css: seq<ChangeSet>, chs: seq<Change>, excluded: set<Key>, nextId: nat, clock: nat,
                         cs: ChangeSet, rows: seq<Change>, nextId': nat)
    requires WellFormed(css, chs, excluded, cs.id, clock)
    requires clock < cs.changedAt && cs.id < nextId'
    requires forall c :: c in rows ==> c.changeSetId == cs.id && c.key !in excluded
    ensures WellFormed(css + [cs], chs + rows, excluded, nextId', cs.changedAt)
  {
    ChronologicalAppend(css, cs);
    assert IdsOf(css + [cs]) == IdsOf(css) + {cs.id};
  }

  // ---------------------------------------------------------------------------
  // Lemmas about the tables.

  lemma {:induction false} ChangesOfAppend(a: seq<Change>, b: seq<Change>, x: Id)
    ensures ChangesOf(a + b, x) == ChangesOf(a, x) + ChangesOf(b, x)
  {
    if b == [] {
      assert a + b == a;
    } else {
      var c := b[|b| - 1];
      var last := if c.changeSetId == x then [c] else [];
      ChangesOfAppend(a, b[..|b| - 1], x);
      assert (a + b)[..|a + b| - 1] == a + b[..|b| - 1];
      calc {
        ChangesOf(a + b, x);
        ChangesOf(a + b[..|b| - 1], x) + last;
        (ChangesOf(a, x) + ChangesOf(b[..|b| - 1], x)) + last;
        ChangesOf(a, x) + (ChangesOf(b[..|b| - 1], x) + last);
        ChangesOf(a, x) + ChangesOf(b, x);
      }
    }
  }

  lemma ChangesOfNone(chs: seq<Change>, x: Id)
    requires forall c :: c in chs ==> c.changeSetId != x
    ensures ChangesOf(chs, x) == []
  {
  }

  lemma {:induction false} ChangesOfAll(chs: seq<Change>, x: Id)
    requires forall c :: c in chs ==> c.changeSetId == x
    ensures ChangesOf(chs, x) == chs
  {
    if chs != [] {
      var prefix := chs[..|chs| - 1];
      var last := chs[|chs| - 1];
      assert chs == prefix + [last];
      assert last in chs;
      ChangesOfAll(prefix, x);
    }
  }

  lemma {:induction false} ChangesOfWithout(chs: seq<Change>, ids: set<Id>, x: Id)
    requires x !in ids
    ensures ChangesOf(WithoutChangesOf(chs, ids), x) == ChangesOf(chs, x)
  {
    if chs != [] {
      var prefix := chs[..|chs| - 1];
      var c := chs[|chs| - 1];
      ChangesOfWithout(prefix, ids, x);
      var tail := if c.changeSetId !in ids then [c] else [];
      ChangesOfAppend(WithoutChangesOf(prefix, ids), tail, x);
      if c.changeSetId in ids {
        assert tail == [];
        assert ChangesOf(tail, x) == [];
        assert WithoutChangesOf(prefix, ids) + tail == WithoutChangesOf(prefix, ids);
      }
    }
  }

  lemma {:induction false} WithoutChangesOfTwice(chs: seq<Change>, a: set<Id>, b: set<Id>)
    ensures WithoutChangesOf(WithoutChangesOf(chs, a), b) == WithoutChangesOf(chs, a + b)
  {
    if chs != [] {
      var prefix := chs[..|chs| - 1];
      var c := chs[|chs| - 1];
      WithoutChangesOfTwice(prefix, a, b);
      var once := WithoutChangesOf(chs, a);
      if c.changeSetId !in a {
        assert once[..|once| - 1] == WithoutChangesOf(prefix, a);
      } else {
        assert once == WithoutChangesOf(prefix, a);
      }
    }
  }

  lemma {:induction false} WithoutChangesOfNone(chs: seq<Change>, ids: set<Id>)
    requires forall c :: c in chs ==> c.changeSetId !in ids
    ensures WithoutChangesOf(chs, ids) == chs
  {
    if chs != [] {
      WithoutChangesOfNone(chs[..|chs| - 1], ids);
      assert chs == chs[..|chs| - 1] + [chs[|chs| - 1]];
    }
  }

  lemma {:induction false} WithoutChangeSetsTwice(css: seq<ChangeSet>, a: set<Id>, b: set<Id>)
    ensures WithoutChangeSets(WithoutChangeSets(css, a), b) == WithoutChangeSets(css, a + b)
  {
    if css != [] {
      var prefix := css[..|css| - 1];
      var cs := css[|css| - 1];
      WithoutChangeSetsTwice(prefix, a, b);
      var once := WithoutChangeSets(css, a);
      if cs.id !in a {
        assert once[..|once| - 1] == WithoutChangeSets(prefix, a);
      } else {
        assert once == WithoutChangeSets(prefix, a);
      }
    }
  }

  lemma {:induction false} WithoutChangeSetsNone(css: seq<ChangeSet>, ids: set<Id>)
    requires IdsOf(css) !! ids
    ensures WithoutChangeSets(css, ids) == css
  {
    if css != [] {
      var prefix := css[..|css| - 1];
      assert IdsOf(prefix) <= IdsOf(css) by {
        forall x | x in prefix ensures x in css { }
      }
      WithoutChangeSetsNone(prefix, ids);
      assert css == prefix + [css[|css| - 1]];
    }
  }

  lemma {:induction false} WithoutChangeSetsChronological(css: seq<ChangeSet>, ids: set<Id>)
    requires Chronological(css)
    ensures Chronological(WithoutChangeSets(css, ids))
  {
    if css != [] {
      var prefix := css[..|css| - 1];
      var cs := css[|css| - 1];
      PrefixChronological(css);
      WithoutChangeSetsChronological(prefix, ids);
      var rest := WithoutChangeSets(prefix, ids);
      if cs.id !in ids {
        forall x | x in rest ensures x.id < cs.id && x.changedAt < cs.changedAt {
          EarlierInTable(css, x);
        }
        ChronologicalAppend(rest, cs);
        assert WithoutChangeSets(css, ids) == rest + [cs];
      } else {
        assert WithoutChangeSets(css, ids) == rest;
      }
    }
  }

  lemma {:induction false} OwnedByChronological(css: seq<ChangeSet>, e: Id)
    requires Chronological(css)
    ensures Chronological(OwnedBy(css, e))
  {
    if css != [] {
      var prefix := css[..|css| - 1];
      var cs := css[|css| - 1];
      PrefixChronological(css);
      OwnedByChronological(prefix, e);
      var rest := OwnedBy(prefix, e);
      if cs.entityId == e {
        forall x | x in rest ensures x.id < cs.id && x.changedAt < cs.changedAt {
          EarlierInTable(css, x);
        }
        ChronologicalAppend(rest, cs);
        assert OwnedBy(css, e) == rest + [cs];
      } else {
        assert OwnedBy(css, e) == rest;
      }
    }
  }

  /** An entity's trail is in chronological order. */
  lemma {:induction false} HistoryChronological(css: seq<ChangeSet>, chs: seq<Change>, e: Id)
    requires Chronological(css)
    ensures ChronologicalLog(History(css, chs, e))
  {
    if css != [] {
      var prefix := css[..|css| - 1];
      var cs := css[|css| - 1];
      PrefixChronological(css);
      HistoryChronological(prefix, chs, e);
      InHistory(prefix, chs, e);
      var hp := History(prefix, chs, e);
      var h := History(css, chs, e);
      forall i, j | 0 <= i < j < |h|
        ensures h[i].changeSet.id < h[j].changeSet.id && h[i].changeSet.changedAt < h[j].changeSet.changedAt
      {
        if j < |hp| {
          assert h[i] == hp[i] && h[j] == hp[j];
        } else {
          assert h[i] == hp[i] && h[i] in hp;
          var k :| 0 <= k < |prefix| && prefix[k] == h[i].changeSet;
          assert css[k] == h[i].changeSet && InOrder(css, k, |css| - 1);
        }
      }
    }
  }

  /** Change rows owned by change-sets outside the table do not show in any trail. */
  lemma {:induction false} HistoryIgnoresRows(css: seq<ChangeSet>, chs: seq<Change>, rows: seq<Change>, e: Id)
    requires forall c :: c in rows ==> c.changeSetId !in IdsOf(css)
    ensures History(css, chs + rows, e) == History(css, chs, e)
  {
    if css != [] {
      var prefix := css[..|css| - 1];
      var cs := css[|css| - 1];
      assert IdsOf(prefix) <= IdsOf(css) by {
        forall x | x in prefix ensures x in css { }
      }
      HistoryIgnoresRows(prefix, chs, rows, e);
      ChangesOfAppend(chs, rows, cs.id);
      ChangesOfNone(rows, cs.id);
      assert ChangesOf(chs, cs.id) + [] == ChangesOf(chs, cs.id);
    }
  }

  /** Appending a fresh change-set and its rows extends exactly its owner's trail, by one entry. */
  lemma HistoryAppend(css: seq<ChangeSet>, chs: seq<Change>, cs: ChangeSet, rows: seq<Change>, e: Id)
    requires cs.id !in IdsOf(css)
    requires forall c :: c in chs ==> c.changeSetId != cs.id
    requires forall c :: c in rows ==> c.changeSetId == cs.id
    ensures History(css + [cs], chs + rows, e)
         == History(css, chs, e) + (if cs.entityId == e then [Logged(cs, DiffOf(rows))] else [])
  {
    HistoryIgnoresRows(css, chs, rows, e);
    assert (css + [cs])[..|css|] == css;
    ChangesOfAppend(chs, rows, cs.id);
    ChangesOfNone(chs, cs.id);
    ChangesOfAll(rows, cs.id);
    assert Entry(chs + rows, cs) == Logged(cs, DiffOf(rows)) by {
      assert ChangesOf(chs + rows, cs.id) == [] + rows == rows;
    }
  }

  lemma {:induction false} KeepEntriesAppend(h: seq<LoggedChangeSet>, x: LoggedChangeSet, ids: set<Id>)
    ensures KeepEntries(h + [x], ids) == KeepEntries(h, ids) + (if x.changeSet.id !in ids then [x] else [])
  {
    assert (h + [x])[..|h|] == h;
  }

  /** Deleting change-sets with their rows removes exactly their entries from every trail. */
  lemma {:induction false} HistoryRemove(css: seq<ChangeSet>, chs: seq<Change>, ids: set<Id>, e: Id)
    ensures History(WithoutChangeSets(css, ids), WithoutChangesOf(chs, ids), e) == KeepEntries(History(css, chs, e), ids)
  {
    if css != [] {
      var prefix := css[..|css| - 1];
      var cs := css[|css| - 1];
      HistoryRemove(prefix, chs, ids, e);
      var rest := WithoutChangeSets(prefix, ids);
      var hp := History(prefix, chs, e);
      if cs.id !in ids {
        assert WithoutChangeSets(css, ids) == rest + [cs];
        assert (rest + [cs])[..|rest|] == rest;
        ChangesOfWithout(chs, ids, cs.id);
        if cs.entityId == e {
          KeepEntriesAppend(hp, Entry(chs, cs), ids);
        } else {
          assert History(css, chs, e) == hp;
        }
      } else {
        assert WithoutChangeSets(css, ids) == rest;
        if cs.entityId == e {
          KeepEntriesAppend(hp, Entry(chs, cs), ids);
        } else {
          assert History(css, chs, e) == hp;
        }
      }
    }
  }

  /** Consuming a change-set drops exactly its entry from every entity's history. */
  lemma ConsumeHistory(css: seq<ChangeSet>, chs: seq<Change>, csId: Id)
    ensures var tables := Consume(css, chs, csId);
      forall e :: History(tables.0, tables.1, e) == KeepEntries(History(css, chs, e), {csId})
  {
    forall e ensures History(WithoutChangeSets(css, {csId}), WithoutChangesOf(chs, {csId}), e)
                  == KeepEntries(History(css, chs, e), {csId}) {
      HistoryRemove(css, chs, {csId}, e);
    }
  }

  lemma {:induction false} KeepEntriesTwice(h: seq<LoggedChangeSet>, a: set<Id>, b: set<Id>)
    ensures KeepEntries(KeepEntries(h, a), b) == KeepEntries(h, a + b)
  {
    if h != [] {
      var prefix := h[..|h| - 1];
      var x := h[|h| - 1];
      KeepEntriesTwice(prefix, a, b);
      var once := KeepEntries(prefix, a);
      if x.changeSet.id !in a {
        assert KeepEntries(h, a) == once + [x];
        KeepEntriesAppend(once, x, b);
      } else {
        assert KeepEntries(h, a) == once;
      }
    }
  }

  lemma {:induction false} KeepEntriesNone(h: seq<LoggedChangeSet>, ids: set<Id>)
    requires forall x :: x in h ==> x.changeSet.id !in ids
    ensures KeepEntries(h, ids) == h
  {
    if h != [] {
      KeepEntriesNone(h[..|h| - 1], ids);
      assert h == h[..|h| - 1] + [h[|h| - 1]];
    }
  }

  lemma KeepEntriesAll(h: seq<LoggedChangeSet>, ids: set<Id>)
    requires forall x :: x in h ==> x.changeSet.id in ids
    ensures KeepEntries(h, ids) == []
  {
  }

  /**
   * Removing a change-set that is in the table leaves the trails of every other entity alone
   * (change-set ids are unique).
   */
  lemma OthersKeepEntries(css: seq<ChangeSet>, chs: seq<Change>, ids: set<Id>, e: Id)
    requires Chronological(css)
    requires forall cs :: cs in css && cs.id in ids ==> cs.entityId != e
    ensures KeepEntries(History(css, chs, e), ids) == History(css, chs, e)
  {
    InHistory(css, chs, e);
    KeepEntriesNone(History(css, chs, e), ids);
  }

  /** The tables `css'`, `chs'` are `css`, `chs` without the change-sets `entityId` owns and their change rows. */
  ghost predicate WithoutOwned(css: seq<ChangeSet>, chs: seq<Change>, css': seq<ChangeSet>, chs': seq<Change>, entityId: Id) {
    var ids := IdsOf(OwnedBy(css, entityId));
    css' == WithoutChangeSets(css, ids) && chs' == WithoutChangesOf(chs, ids)
  }

  /**
   * Removing every change-set an entity owns, with their change rows, empties its trail and
   * leaves every other trail alone.
   */
  lemma DeleteOwnedHistory(css: seq<ChangeSet>, chs: seq<Change>, entityId: Id)
    requires Chronological(css)
    ensures var ids := IdsOf(OwnedBy(css, entityId));
      forall e :: History(WithoutChangeSets(css, ids), WithoutChangesOf(chs, ids), e)
               == if e == entityId then [] else History(css, chs, e)
  {
    var ids := IdsOf(OwnedBy(css, entityId));
    forall e ensures History(WithoutChangeSets(css, ids), WithoutChangesOf(chs, ids), e)
                  == if e == entityId then [] else History(css, chs, e) {
      HistoryRemove(css, chs, ids, e);
      InHistory(css, chs, e);
      if e == entityId {
        KeepEntriesAll(History(css, chs, e), ids);
      } else {
        forall cs | cs in css && cs.id in ids ensures cs.entityId != e {
          var o :| o in OwnedBy(css, entityId) && o.id == cs.id;
          UniqueIds(css, cs, o);
        }
        OthersKeepEntries(css, chs, ids, e);
      }
    }
  }

  /** No trail entry records a key that no change row has, in particular an excluded key. */
  lemma HistoryAvoids(css: seq<ChangeSet>, chs: seq<Change>, excluded: set<Key>, e: Id)
    requires forall c :: c in chs ==> c.key !in excluded
    ensures forall x :: x in History(css, chs, e) ==> x.diff.Keys !! excluded
  {
    InHistory(css, chs, e);
    forall x | x in History(css, chs, e) ensures x.diff.Keys !! excluded {
      forall k | k in x.diff ensures k !in excluded {
        var c :| c in ChangesOf(chs, x.changeSet.id) && c.key == k;
      }
    }
  }
}
