/**
 * What resetting change-sets writes back: the values one change-set restores, the order in
 * which a rollback to a date consumes an entity's change-sets, and how the written-back values
 * of several resets combine.
 */
module Rollback {
  import opened Wrappers
  import opened Models
  import opened Diff
  import opened AuditLog

  /**
   * Whether resetting `cs` restores the values it wrote instead of those it overwrote:
   * only for a CREATE change-set when create change-sets are preserved.
   */
  predicate RestoresNew(cs: ChangeSet, preserveCreateChangeSet: bool) {
    preserveCreateChangeSet && cs.kind == Create
  }

  /** Whether resetting `cs` deletes it afterwards: every time it does not restore new values. */
  predicate IsConsumed(cs: ChangeSet, preserveCreateChangeSet: bool) {
    !RestoresNew(cs, preserveCreateChangeSet)
  }

  /** The payload a reset writes back, read from the change-set's diff. */
  function ValuesToRestore(diff: map<Key, NewChange>, restoreNew: bool): (values: Record)
    ensures values.Keys == diff.Keys
  {
    if restoreNew then Redo(diff) else Undo(diff)
  }

  /** The payload a reset builds from the change rows, one row at a time; a later row for the same key wins. */
  function ResetValues(rows: seq<Change>, restoreNew: bool): (values: Record)
  {
    if rows == [] then map[]
    else
      var c := rows[|rows| - 1];
      ResetValues(rows[..|rows| - 1], restoreNew)[c.key := if restoreNew then c.newValue else c.previousValue]
  }

  /** Building the payload row by row gives exactly the values the trail's diff says to restore. */
  lemma {:induction false} ResetValuesFromTrail(rows: seq<Change>, restoreNew: bool)
    ensures ResetValues(rows, restoreNew) == ValuesToRestore(DiffOf(rows), restoreNew)
  {
    if rows != [] {
      ResetValuesFromTrail(rows[..|rows| - 1], restoreNew);
    }
  }

  /**
   * The change-sets a rollback to `date` resets: those of the trail stamped at or after `date`,
   * newest first.
   */
  function Since(h: seq<LoggedChangeSet>, date: nat): (targets: seq<LoggedChangeSet>)
    ensures forall x :: x in targets <==> x in h && x.changeSet.changedAt >= date
  {
    if h == [] then []
    else
      var x := h[|h| - 1];
      (if x.changeSet.changedAt >= date then [x] else []) + Since(h[..|h| - 1], date)
  }

  /** Entries strictly newest first, by stamp and by id. */
  ghost predicate NewestFirst(t: seq<LoggedChangeSet>) {
    forall i, j :: 0 <= i < j < |t| ==> t[i].changeSet.changedAt > t[j].changeSet.changedAt && t[i].changeSet.id > t[j].changeSet.id
  }

  /** Dropping the newest entry of a chronological trail keeps it chronological. */
  lemma PrefixChronologicalLog(h: seq<LoggedChangeSet>)
    requires ChronologicalLog(h) && h != []
    ensures ChronologicalLog(h[..|h| - 1])
  {
    var prefix := h[..|h| - 1];
    forall i, j | 0 <= i < j < |prefix|
      ensures prefix[i].changeSet.id < prefix[j].changeSet.id && prefix[i].changeSet.changedAt < prefix[j].changeSet.changedAt
    {
      assert prefix[i] == h[i] && prefix[j] == h[j];
    }
  }

  /** Every earlier entry of a chronological trail is older than its newest one. */
  lemma OlderThanNewest(h: seq<LoggedChangeSet>, y: LoggedChangeSet)
    requires ChronologicalLog(h) && h != [] && y in h[..|h| - 1]
    ensures y.changeSet.changedAt < h[|h| - 1].changeSet.changedAt && y.changeSet.id < h[|h| - 1].changeSet.id
  {
    var k :| 0 <= k < |h| - 1 && h[..|h| - 1][k] == y;
    assert h[k] == y;
  }

  /** Putting a strictly newer entry in front keeps a trail newest-first. */
  lemma NewestFirstCons(x: LoggedChangeSet, rest: seq<LoggedChangeSet>)
    requires NewestFirst(rest)
    requires forall y :: y in rest ==> y.changeSet.changedAt < x.changeSet.changedAt && y.changeSet.id < x.changeSet.id
    ensures NewestFirst([x] + rest)
  {
    var t := [x] + rest;
    forall i, j | 0 <= i < j < |t|
      ensures t[i].changeSet.changedAt > t[j].changeSet.changedAt && t[i].changeSet.id > t[j].changeSet.id
    {
      assert t[j] == rest[j - 1];
      if i > 0 {
        assert t[i] == rest[i - 1];
      } else {
        assert rest[j - 1] in rest;
      }
    }
  }

  /** On a chronological trail the targets come strictly newest first. */
  lemma {:induction false} SinceNewestFirst(h: seq<LoggedChangeSet>, date: nat)
    requires ChronologicalLog(h)
    ensures NewestFirst(Since(h, date))
  {
    if h != [] {
      var prefix := h[..|h| - 1];
      var x := h[|h| - 1];
      PrefixChronologicalLog(h);
      SinceNewestFirst(prefix, date);
      var rest := Since(prefix, date);
      if x.changeSet.changedAt >= date {
        forall y | y in rest ensures y.changeSet.changedAt < x.changeSet.changedAt && y.changeSet.id < x.changeSet.id {
          OlderThanNewest(h, y);
        }
        NewestFirstCons(x, rest);
      }
    }
  }


  /** The payload each target's reset writes back, in the order the rollback applies them. */
  function Steps(targets: seq<LoggedChangeSet>, preserveCreateChangeSet: bool): (steps: seq<Record>)
    ensures |steps| == |targets|
    ensures forall i :: 0 <= i < |targets| ==>
      steps[i] == ValuesToRestore(targets[i].diff, RestoresNew(targets[i].changeSet, preserveCreateChangeSet))
  {
    seq(|targets|, i requires 0 <= i < |targets| =>
      ValuesToRestore(targets[i].diff, RestoresNew(targets[i].changeSet, preserveCreateChangeSet)))
  }

  /** The ids of the targets a rollback deletes. */
  function ConsumedIds(targets: seq<LoggedChangeSet>, preserveCreateChangeSet: bool): set<Id> {
    set x | x in targets && IsConsumed(x.changeSet, preserveCreateChangeSet) :: x.changeSet.id
  }

  /** The payloads merged in order, a later one overriding an earlier one (`{...data, ...changedValues}`). */
  function Accumulate(steps: seq<Record>): (acc: Record)
    ensures forall k :: k in acc <==> exists i :: 0 <= i < |steps| && k in steps[i]
  {
    if steps == [] then map[]
    else
      var prefix := steps[..|steps| - 1];
      var acc := Accumulate(prefix) + steps[|steps| - 1];
      assert forall k :: k in acc ==> exists i :: 0 <= i < |steps| && k in steps[i] by {
        forall k | k in acc ensures exists i :: 0 <= i < |steps| && k in steps[i] {
          if k !in steps[|steps| - 1] {
            var i :| 0 <= i < |prefix| && k in prefix[i];
            assert steps[i] == prefix[i];
          }
        }
      }
      assert forall i, k :: 0 <= i < |steps| && k in steps[i] ==> k in acc by {
        forall i, k | 0 <= i < |steps| && k in steps[i] ensures k in acc {
          if i < |prefix| {
            assert prefix[i] == steps[i];
          }
        }
      }
      acc
  }

  /** A key takes its value from the last payload that writes it. */
  lemma {:induction false} AccumulateWins(steps: seq<Record>, k: Key, i: nat)
    requires i < |steps| && k in steps[i]
    requires forall j :: i < j < |steps| ==> k !in steps[j]
    ensures k in Accumulate(steps) && Accumulate(steps)[k] == steps[i][k]
  {
    if i < |steps| - 1 {
      var prefix := steps[..|steps| - 1];
      assert prefix[i] == steps[i];
      forall j | i < j < |prefix| ensures k !in prefix[j] {
        assert prefix[j] == steps[j];
      }
      AccumulateWins(prefix, k, i);
    }
  }

  /**
   * Of the change-sets a rollback resets, the oldest one that touches a key decides the value
   * written back for it.
   */
  lemma OldestTouchWins(h: seq<LoggedChangeSet>, date: nat, preserveCreateChangeSet: bool, k: Key, i: nat)
    requires ChronologicalLog(h)
    requires var t := Since(h, date);
      && i < |t| && k in t[i].diff
      && forall j :: 0 <= j < |t| && k in t[j].diff ==> t[i].changeSet.changedAt <= t[j].changeSet.changedAt
    ensures var t := Since(h, date);
      var acc := Accumulate(Steps(t, preserveCreateChangeSet));
      k in acc && acc[k] == ValuesToRestore(t[i].diff, RestoresNew(t[i].changeSet, preserveCreateChangeSet))[k]
  {
    var t := Since(h, date);
    var steps := Steps(t, preserveCreateChangeSet);
    SinceNewestFirst(h, date);
    forall j | i < j < |steps| ensures k !in steps[j] {
      assert t[i].changeSet.changedAt > t[j].changeSet.changedAt;
    }
    AccumulateWins(steps, k, i);
  }

  lemma MergeAssociative(a: Record, b: Record, c: Record)
    ensures (a + b) + c == a + (b + c)
  {
  }

  /** Merging a payload in front of others. */
  lemma {:induction false} AccumulateCons(first: Record, rest: seq<Record>)
    ensures Accumulate([first] + rest) == first + Accumulate(rest)
  {
    var s := [first] + rest;
    if rest != [] {
      var last := rest[|rest| - 1];
      assert s[..|s| - 1] == [first] + rest[..|rest| - 1];
      assert s[|s| - 1] == last;
      AccumulateCons(first, rest[..|rest| - 1]);
      calc {
        Accumulate(s);
        Accumulate([first] + rest[..|rest| - 1]) + last;
        (first + Accumulate(rest[..|rest| - 1])) + last;
        { MergeAssociative(first, Accumulate(rest[..|rest| - 1]), last); }
        first + (Accumulate(rest[..|rest| - 1]) + last);
        first + Accumulate(rest);
      }
    } else {
      assert s == [first] && s[..0] == [];
      assert Accumulate(s) == map[] + first;
      assert Accumulate(rest) == map[];
      assert map[] + first == first + map[];
    }
  }

  /** A rollback never writes a key that no target's diff contains, in particular no excluded key. */
  lemma AccumulateAvoids(targets: seq<LoggedChangeSet>, preserveCreateChangeSet: bool, excluded: set<Key>)
    requires forall x :: x in targets ==> x.diff.Keys !! excluded
    ensures Accumulate(Steps(targets, preserveCreateChangeSet)).Keys !! excluded
  {
    var steps := Steps(targets, preserveCreateChangeSet);
    forall k | k in Accumulate(steps) ensures k !in excluded {
      var i :| 0 <= i < |steps| && k in steps[i];
      assert targets[i] in targets;
    }
  }

  /** A rollback leaves every key alone that no entry of the trail records, in particular an excluded one. */
  lemma RollbackKeepsUntracked(fields: Record, h: seq<LoggedChangeSet>, date: nat, preserveCreateChangeSet: bool,
                               excluded: set<Key>, k: Key)
    requires forall x :: x in h ==> x.diff.Keys !! excluded
    requires k in excluded
    ensures Get(RolledBackFields(fields, h, date, preserveCreateChangeSet), k) == Get(fields, k)
  {
    AccumulateAvoids(Since(h, date), preserveCreateChangeSet, excluded);
  }

  // ---------------------------------------------------------------------------
  // Rolling back a chain of updates.

  /** The entity after applying the update payloads in order. */
  function Replay(r: Record, datas: seq<Record>): Record {
    if datas == [] then r else Replay(r, datas[..|datas| - 1]) + datas[|datas| - 1]
  }

  /** The diffs the UPDATE change-sets of those updates record, oldest first. */
  function UpdateDiffs(r: Record, datas: seq<Record>, excluded: set<Key>): (diffs: seq<map<Key, NewChange>>)
    ensures |diffs| == |datas|
  {
    if datas == [] then []
    else
      var prefix := datas[..|datas| - 1];
      UpdateDiffs(r, prefix, excluded) + [ChangesFromData(Replay(r, prefix), datas[|datas| - 1], Update, excluded)]
  }

  /** The payloads that undo those diffs, newest first, as a rollback applies them. */
  function UndoNewestFirst(diffs: seq<map<Key, NewChange>>): (steps: seq<Record>)
    ensures |steps| == |diffs|
  {
    if diffs == [] then [] else [Undo(diffs[|diffs| - 1])] + UndoNewestFirst(diffs[..|diffs| - 1])
  }

  /**
   * Rolling back every UPDATE change-set of a chain of updates gives every tracked key
   * the value it had before the first update.
   */
  lemma {:induction false} RollbackRestoresUpdates(r: Record, datas: seq<Record>, excluded: set<Key>, k: Key)
    requires k !in excluded
    ensures Get(Replay(r, datas) + Accumulate(UndoNewestFirst(UpdateDiffs(r, datas, excluded))), k) == Get(r, k)
  {
    if datas != [] {
      var prefix := datas[..|datas| - 1];
      var before := Replay(r, prefix);
      var d := datas[|datas| - 1];
      var diffs := UpdateDiffs(r, datas, excluded);
      var diff := ChangesFromData(before, d, Update, excluded);
      var older := UndoNewestFirst(UpdateDiffs(r, prefix, excluded));
      assert diffs[..|diffs| - 1] == UpdateDiffs(r, prefix, excluded);
      assert UndoNewestFirst(diffs) == [Undo(diff)] + older;
      var rest := Accumulate(older);
      AccumulateCons(Undo(diff), older);
      assert Replay(r, datas) == before + d;
      RollbackRestoresUpdates(r, prefix, excluded, k);
      assert Get(before + rest, k) == Get(r, k);
      if k in rest {
        GetMerged(before + d, Undo(diff) + rest, k);
      } else {
        DiffRoundTrip(before, d, Update, excluded, k);
        GetMerged(before + d, Undo(diff) + rest, k);
        GetMerged(before, rest, k);
      }
    }
  }

  lemma GetMerged(a: Record, b: Record, k: Key)
    ensures Get(a + b, k) == if k in b then b[k] else Get(a, k)
  {
  }

  // ---------------------------------------------------------------------------
  // The effect of a rollback to a date on one entity.

  /** The fields of an entity after rolling back its trail `h` to `date`. */
  function RolledBackFields(fields: Record, h: seq<LoggedChangeSet>, date: nat, preserveCreateChangeSet: bool): Record {
    fields + Accumulate(Steps(Since(h, date), preserveCreateChangeSet))
  }

  /**
   * The trail `after` resetting change-sets on trail `before`: the entries of the consumed
   * change-sets are gone and, when asked for, one RESET entry with `diff` follows.
   */
  ghost predicate ResetTrail(before: seq<LoggedChangeSet>, after: seq<LoggedChangeSet>, consumed: set<Id>,
                             createChangeSet: bool, diff: map<Key, NewChange>, user: Option<UserId>)
  {
    var kept := KeepEntries(before, consumed);
    if createChangeSet then AppendedEntry(kept, after, Reset, diff, user, false) else after == kept
  }

  /** The ids a reset of `cs` deletes: its own unless it is a preserved CREATE change-set. */
  function ConsumedBy(cs: ChangeSet, preserveCreateChangeSet: bool): (ids: set<Id>)
    ensures cs.id in ids <==> IsConsumed(cs, preserveCreateChangeSet)
  {
    if IsConsumed(cs, preserveCreateChangeSet) then {cs.id} else {}
  }

  /**
   * The trail `after` a rollback of trail `before` to `date`, from the caller's snapshot `fields`:
   * the consumed targets are gone and, when asked for, one RESET entry records the merged payload
   * against the snapshot.
   */
  ghost predicate RolledBackLog(before: seq<LoggedChangeSet>, after: seq<LoggedChangeSet>, fields: Record, date: nat,
                                createChangeSet: bool, preserveCreateChangeSet: bool, excluded: set<Key>, user: Option<UserId>)
  {
    var targets := Since(before, date);
    ResetTrail(before, after, ConsumedIds(targets, preserveCreateChangeSet), createChangeSet,
      ChangesFromData(fields, Accumulate(Steps(targets, preserveCreateChangeSet)), Reset, excluded), user)
  }

  /** The ids the first `i + 1` targets consume. */
  lemma ConsumedIdsPrefix(targets: seq<LoggedChangeSet>, preserveCreateChangeSet: bool, i: nat)
    requires i < |targets|
    ensures ConsumedIds(targets[..i + 1], preserveCreateChangeSet)
         == ConsumedIds(targets[..i], preserveCreateChangeSet) + ConsumedBy(targets[i].changeSet, preserveCreateChangeSet)
  {
    assert targets[..i + 1] == targets[..i] + [targets[i]];
  }

  /**
   * Halfway through a rollback of the trail `h`, the next target is still in the table with its
   * change rows, and consuming it leaves every other entity's trail alone.
   */
  lemma NextTarget(css: seq<ChangeSet>, chs: seq<Change>, entityId: Id, h: seq<LoggedChangeSet>,
                   targets: seq<LoggedChangeSet>, preserveCreateChangeSet: bool, i: nat)
    requires Chronological(css)
    requires NewestFirst(targets) && forall x :: x in targets ==> x in h
    requires i < |targets|
    requires History(css, chs, entityId) == KeepEntries(h, ConsumedIds(targets[..i], preserveCreateChangeSet))
    ensures var cs := targets[i].changeSet;
      cs in css && cs.entityId == entityId && targets[i] == Entry(chs, cs)
    ensures forall e :: e != entityId ==>
      KeepEntries(History(css, chs, e), ConsumedBy(targets[i].changeSet, preserveCreateChangeSet)) == History(css, chs, e)
  {
    var cs := targets[i].changeSet;
    forall x | x in targets[..i] ensures x.changeSet.id != cs.id {
      var j :| 0 <= j < i && targets[..i][j] == x;
      assert targets[j] == x;
    }
    assert targets[i] in targets;
    InHistory(css, chs, entityId);
    forall e | e != entityId
      ensures KeepEntries(History(css, chs, e), ConsumedBy(cs, preserveCreateChangeSet)) == History(css, chs, e)
    {
      forall c | c in css && c.id in ConsumedBy(cs, preserveCreateChangeSet) ensures c.entityId != e {
        UniqueIds(css, c, cs);
      }
      OthersKeepEntries(css, chs, ConsumedBy(cs, preserveCreateChangeSet), e);
    }
  }

  /** One more payload merged into the accumulator. */
  lemma AccumulatePrefix(steps: seq<Record>, i: nat)
    requires i < |steps|
    ensures Accumulate(steps[..i + 1]) == Accumulate(steps[..i]) + steps[i]
  {
    assert steps[..i + 1][..i] == steps[..i];
  }

  /** Merging two payloads into one entry of a table, one after the other or at once. */
  lemma UpdateMergedTwice(m: map<Id, Record>, k: Id, base: Record, acc: Record, step: Record)
    ensures m[k := base + acc][k := (base + acc) + step] == m[k := base + (acc + step)]
  {
    MergeAssociative(base, acc, step);
  }

  /**
   * One entity rolled back to `date`: its trail went from `before` to `after`, its fields from
   * `stored` to `fields`, and the RESET entry is diffed against the caller's `snapshot`.
   */
  ghost predicate RolledBackEntity(before: seq<LoggedChangeSet>, after: seq<LoggedChangeSet>, stored: Record, fields: Record,
                                   snapshot: Record, date: nat, createChangeSet: bool, preserveCreateChangeSet: bool,
                                   excluded: set<Key>, user: Option<UserId>)
  {
    && fields == RolledBackFields(stored, before, date, preserveCreateChangeSet)
    && RolledBackLog(before, after, snapshot, date, createChangeSet, preserveCreateChangeSet, excluded, user)
  }

  // ---------------------------------------------------------------------------
  // The repository's own rollback scenario: an entity created as James Smith, updated to
  // Max Mustermann, then to Max Smith.

  /** The trail of that entity: CREATE at stamp 1, two UPDATEs at stamps 2 and 3. */
  function ScenarioTrail(): seq<LoggedChangeSet> {
    [ Logged(ChangeSet(1, Create, 1, None, 0),
        map["firstName" := NewChange(Absent, Str("James")), "lastName" := NewChange(Absent, Str("Smith"))]),
      Logged(ChangeSet(2, Update, 2, None, 0),
        map["firstName" := NewChange(Str("James"), Str("Max")), "lastName" := NewChange(Str("Smith"), Str("Mustermann"))]),
      Logged(ChangeSet(3, Update, 3, None, 0),
        map["lastName" := NewChange(Str("Mustermann"), Str("Smith"))]) ]
  }

  /** The entity as stored after those three mutations. */
  function ScenarioFields(): Record {
    map["firstName" := Str("Max"), "lastName" := Str("Smith")]
  }

  /** The entity as created: James Smith. */
  function ScenarioCreated(): Record {
    map["firstName" := Str("James"), "lastName" := Str("Smith")]
  }

  /** Writing James Smith back over Max Smith changes only `firstName`, from Max to James. */
  lemma ScenarioResetDiff()
    ensures ChangesFromData(ScenarioFields(), ScenarioCreated(), Reset, {ChangeSetsKey})
         == map["firstName" := NewChange(Str("Max"), Str("James"))]
  {
    var diff := ChangesFromData(ScenarioFields(), ScenarioCreated(), Reset, {ChangeSetsKey});
    assert "firstName" in diff;
    assert "lastName" !in diff;
  }

  /**
   * Resetting the first UPDATE alone writes back James Smith, and the RESET change-set against
   * the snapshot records only `firstName` going from Max to James: `lastName` is already Smith.
   */
  lemma ScenarioResetSingle()
    ensures var values := ValuesToRestore(ScenarioTrail()[1].diff, RestoresNew(ScenarioTrail()[1].changeSet, true));
      && values == ScenarioCreated()
      && ChangesFromData(ScenarioFields(), values, Reset, {ChangeSetsKey})
         == map["firstName" := NewChange(Str("Max"), Str("James"))]
  {
    var values := ValuesToRestore(ScenarioTrail()[1].diff, false);
    assert values.Keys == ScenarioCreated().Keys;
    ScenarioResetDiff();
  }

  /** A rollback to stamp 1 targets the two UPDATEs and the CREATE, newest first. */
  lemma ScenarioTargets()
    ensures Since(ScenarioTrail(), 1) == [ScenarioTrail()[2], ScenarioTrail()[1], ScenarioTrail()[0]]
  {
    var h := ScenarioTrail();
    assert h[..2][..1] == h[..1] && h[..1][..0] == [];
    assert Since(h[..1], 1) == [h[0]];
    assert Since(h[..2], 1) == [h[1], h[0]];
  }

  /** Three payloads merged in order. */
  lemma AccumulateThree(a: Record, b: Record, c: Record)
    ensures Accumulate([a, b, c]) == (a + b) + c
  {
    var steps := [a, b, c];
    assert steps[..2] == [a, b] && [a, b][..1] == [a] && [a][..0] == [];
    assert Accumulate([a]) == map[] + a;
    assert map[] + a == a;
    assert Accumulate([a, b]) == a + b;
  }

  /** Each reset of that rollback, newest first: the second UPDATE undone, the first undone, the CREATE redone. */
  lemma ScenarioSteps()
    ensures Undo(ScenarioTrail()[2].diff) == map["lastName" := Str("Mustermann")]
    ensures Undo(ScenarioTrail()[1].diff) == ScenarioCreated()
    ensures Redo(ScenarioTrail()[0].diff) == ScenarioCreated()
  {
    assert Undo(ScenarioTrail()[2].diff).Keys == {"lastName"};
    assert Undo(ScenarioTrail()[1].diff).Keys == ScenarioCreated().Keys;
    assert Redo(ScenarioTrail()[0].diff).Keys == ScenarioCreated().Keys;
  }

  /** The payloads that rollback writes back, in the order it merges them. */
  lemma ScenarioPayloads()
    ensures Steps(Since(ScenarioTrail(), 1), true)
         == [map["lastName" := Str("Mustermann")], ScenarioCreated(), ScenarioCreated()]
  {
    ScenarioTargets();
    ScenarioSteps();
  }

  /** Merging Mustermann, then James Smith twice, leaves James Smith. */
  lemma ScenarioMergeOrder()
    ensures Accumulate([map["lastName" := Str("Mustermann")], ScenarioCreated(), ScenarioCreated()]) == ScenarioCreated()
  {
    var first := map["lastName" := Str("Mustermann")];
    AccumulateThree(first, ScenarioCreated(), ScenarioCreated());
    assert (first + ScenarioCreated()).Keys == ScenarioCreated().Keys;
  }

  /** The merged payload of that rollback is James Smith again: the oldest reset wins. */
  lemma ScenarioMerged()
    ensures Accumulate(Steps(Since(ScenarioTrail(), 1), true)) == ScenarioCreated()
  {
    ScenarioPayloads();
    ScenarioMergeOrder();
  }

  /** The rollback consumes both UPDATEs and preserves the CREATE. */
  lemma ScenarioKept()
    ensures KeepEntries(ScenarioTrail(), ConsumedIds(Since(ScenarioTrail(), 1), true)) == [ScenarioTrail()[0]]
  {
    var h := ScenarioTrail();
    ScenarioTargets();
    var ids := ConsumedIds(Since(h, 1), true);
    assert ids == {2, 3};
    assert h[..2][..1] == h[..1] && h[..1][..0] == [];
    assert KeepEntries(h[..1], ids) == [h[0]];
    assert KeepEntries(h[..2], ids) == [h[0]];
  }

  /**
   * Rolling back to the stamp of the CREATE change-set, preserving it: the entity is James Smith
   * again, both UPDATEs are consumed so the CREATE is the only entry left before the RESET, and
   * the RESET records only `firstName` going from Max to James.
   */
  lemma ScenarioRollbackToCreate()
    ensures var data := Accumulate(Steps(Since(ScenarioTrail(), 1), true));
      && RolledBackFields(ScenarioFields(), ScenarioTrail(), 1, true) == ScenarioCreated()
      && KeepEntries(ScenarioTrail(), ConsumedIds(Since(ScenarioTrail(), 1), true)) == [ScenarioTrail()[0]]
      && ChangesFromData(ScenarioFields(), data, Reset, {ChangeSetsKey})
         == map["firstName" := NewChange(Str("Max"), Str("James"))]
  {
    assert Accumulate(Steps(Since(ScenarioTrail(), 1), true)) == ScenarioCreated() by {
      ScenarioMerged();
    }
    assert RolledBackFields(ScenarioFields(), ScenarioTrail(), 1, true) == ScenarioCreated() by {
      assert (ScenarioFields() + ScenarioCreated()).Keys == ScenarioCreated().Keys;
    }
    ScenarioKept();
    ScenarioResetDiff();
  }

  /** `resetSingleChangeSet`'s loop: the payload built from the change rows, one row at a time. */
  method CollectResetValues(rows: seq<Change>, restoreNew: bool) returns (data: Record)
    ensures data == ResetValues(rows, restoreNew)
  {
    data := map[];
    for i := 0 to |rows|
      invariant data == ResetValues(rows[..i], restoreNew)
    {
      assert rows[..i + 1][..i] == rows[..i];
      var c := rows[i];
      data := data[c.key := if restoreNew then c.newValue else c.previousValue];
    }
    assert rows[..|rows|] == rows;
  }
}
