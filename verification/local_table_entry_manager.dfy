/** The local controller's simplified `TableEntryManager`: one manager per
    switch, so entries carry no switch and are identified by their match fields
    alone. Driver calls are returned as a log. */
module LocalTableEntryManager {
  import opened Wrappers
  import opened Seqs
  import G = TableEntryManager

  datatype Entry = Entry(
    matchFields: G.Fields,
    actionName: string,
    actionParams: G.Fields,
    priority: Option<int>)

  /** `TableEntry.__eq__`: all four fields agree. */
  function EntryEquals(a: Entry, b: Entry): (r: bool)
    ensures r <==> a == b
  {
    && a.matchFields == b.matchFields
    && a.actionName == b.actionName
    && a.actionParams == b.actionParams
    && a.priority == b.priority
  }

  datatype DriverOp = Add(table: string, entry: Entry) | Delete(table: string, entry: Entry)

  /** At most one stored entry per match fields. */
  predicate UniqueKeys(es: seq<Entry>) {
    forall i, j :: 0 <= i < j < |es| ==> es[i].matchFields != es[j].matchFields
  }

  datatype Manager = Manager(name: string, tables: map<string, seq<Entry>>)

  /** `init_table` */
  function InitTable(m: Manager, table: string): (r: Manager)
    ensures GetTableEntries(r, table) == Ok([])
    ensures forall t :: t != table ==> GetTableEntries(r, t) == GetTableEntries(m, t)
  {
    m.(tables := m.tables[table := []])
  }

  /** `get_table_entries`: TableNotFound for a table never initialised. */
  function GetTableEntries(m: Manager, table: string): (r: Result<seq<Entry>>)
    ensures r.Ok? <==> table in m.tables
    ensures r.Ok? ==> r.value == m.tables[table]
    ensures r.Err? ==> r.error == TableNotFound
  {
    if table in m.tables then Ok(m.tables[table]) else Err(TableNotFound)
  }

  /** Index of the first stored entry with the given match fields. */
  function KeyIndex(es: seq<Entry>, mf: G.Fields): (r: Option<nat>)
    ensures r.Some? ==> (r.value < |es| && es[r.value].matchFields == mf
      && forall j :: 0 <= j < r.value ==> es[j].matchFields != mf)
    ensures r.None? ==> forall j :: 0 <= j < |es| ==> es[j].matchFields != mf
  {
    if es == [] then None
    else if es[0].matchFields == mf then Some(0)
    else match KeyIndex(es[1..], mf)
      case Some(i) => Some(i + 1)
      case None => None
  }

  /** `match_fields_exists` */
  function MatchFieldsExists(m: Manager, table: string, e: Entry): (r: Result<bool>)
    ensures r.Ok? <==> table in m.tables
    ensures r.Ok? ==> (r.value <==> exists x :: x in m.tables[table] && x.matchFields == e.matchFields)
    ensures r.Err? ==> r.error == TableNotFound
  {
    var es :- GetTableEntries(m, table);
    Ok(KeyIndex(es, e.matchFields).Some?)
  }

  /** `entry_exists` */
  function EntryExists(m: Manager, table: string, e: Entry): (r: Result<bool>)
    ensures r.Ok? <==> table in m.tables
    ensures r.Ok? ==> (r.value <==> e in m.tables[table])
    ensures r.Err? ==> r.error == TableNotFound
  {
    var es :- GetTableEntries(m, table);
    Ok(e in es)
  }

  /** `__remove_table_entry` on the stored list: drops the first entry with the
      match fields of `e` and asks the driver to delete `e`; EntryNotFound if
      there is none. */
  function RemoveIn(es: seq<Entry>, table: string, e: Entry): (r: Result<(seq<Entry>, seq<DriverOp>)>)
    ensures r.Ok? <==> exists x :: x in es && x.matchFields == e.matchFields
    ensures r.Err? ==> r.error == EntryNotFound
    ensures r.Ok? ==> (
      var i := KeyIndex(es, e.matchFields).value;
      && r.value.0 == es[..i] + es[i + 1..]
      && r.value.1 == [Delete(table, e)])
  {
    match KeyIndex(es, e.matchFields)
    case None => Err(EntryNotFound)
    case Some(i) => Ok((es[..i] + es[i + 1..], [Delete(table, e)]))
  }

  /** `add_table_entry` */
  function AddTableEntry(m: Manager, table: string, e: Entry): (r: Result<(Manager, seq<DriverOp>)>)
    ensures r.Ok? <==> table in m.tables
    ensures r.Err? ==> r.error == TableNotFound
    ensures r.Ok? ==> (r.value.0.tables == m.tables[table := m.tables[table] + [e]]
      && r.value.1 == [Add(table, e)])
  {
    var es :- GetTableEntries(m, table);
    Ok((m.(tables := m.tables[table := es + [e]]), [Add(table, e)]))
  }

  /** `update_entry`: remove by match fields, then add. */
  function UpdateEntry(m: Manager, table: string, e: Entry): (r: Result<(Manager, seq<DriverOp>)>)
    ensures table !in m.tables ==> r == Err(TableNotFound)
    ensures table in m.tables ==> (r.Ok? <==> exists x :: x in m.tables[table] && x.matchFields == e.matchFields)
    ensures r.Ok? ==> r.value.1 == [Delete(table, e), Add(table, e)]
    ensures r.Ok? ==> (table in r.value.0.tables && e in r.value.0.tables[table]
      && |r.value.0.tables[table]| == |m.tables[table]|)
  {
    var es :- GetTableEntries(m, table);
    var (es1, ops1) :- RemoveIn(es, table, e);
    Ok((m.(tables := m.tables[table := es1 + [e]]), ops1 + [Add(table, e)]))
  }

  /** `handle_table_entry`: nothing for an identical entry, an update for known
      match fields, an add otherwise; the flag says whether anything was
      written. */
  function HandleTableEntry(m: Manager, table: string, e: Entry): (r: Result<(Manager, seq<DriverOp>, bool)>)
    ensures r.Ok? <==> table in m.tables
    ensures r.Err? ==> r.error == TableNotFound
    ensures r.Ok? && e in m.tables[table] ==> r.value == (m, [], false)
    ensures r.Ok? && e !in m.tables[table] ==> (r.value.2 && table in r.value.0.tables && e in r.value.0.tables[table])
    ensures r.Ok? && (forall x :: x in m.tables[table] ==> x.matchFields != e.matchFields) ==>
      r.value.1 == [Add(table, e)]
    ensures r.Ok? && e !in m.tables[table] && (exists x :: x in m.tables[table] && x.matchFields == e.matchFields) ==>
      r.value.1 == [Delete(table, e), Add(table, e)]
  {
    var es :- GetTableEntries(m, table);
    if e in es then Ok((m, [], false))
    else if KeyIndex(es, e.matchFields).Some? then
      var (m1, ops) := UpdateEntry(m, table, e).value;
      Ok((m1, ops, true))
    else
      var (m1, ops) := AddTableEntry(m, table, e).value;
      Ok((m1, ops, true))
  }

  /** `remove_invalid_entries` AS WRITTEN: the loop walks the live list while
      removing from it, as a Python list iterator does. `i` is the iterator's
      position; a removal shifts the next entry into position `i`, and the
      iterator moves on to `i + 1`, so that entry is never looked at. */
  function RemoveInvalidLive(es: seq<Entry>, table: string, valid: seq<G.Fields>, i: nat): (r: (seq<Entry>, seq<DriverOp>))
    ensures forall x :: x in r.0 ==> x in es
    ensures |r.0| <= |es|
    ensures forall op :: op in r.1 ==>
      op.Delete? && op.table == table && op.entry in es && op.entry.matchFields !in valid
    decreases |es| - i
  {
    if i >= |es| then (es, [])
    else if es[i].matchFields in valid then RemoveInvalidLive(es, table, valid, i + 1)
    else
      var (es1, ops1) := RemoveIn(es, table, es[i]).value;
      assert forall x :: x in es1 ==> x in es by {
        var k := KeyIndex(es, es[i].matchFields).value;
        assert es1 == es[..k] + es[k + 1..];
      }
      var (es2, ops2) := RemoveInvalidLive(es1, table, valid, i + 1);
      (es2, ops1 + ops2)
  }

  /** Two stored entries, neither valid: the live-list loop removes the first and
      skips the second, which stays in the table. */
  lemma LiveRemovalSkipsNeighbour()
    ensures var a := Entry(map["dst" := G.Int(1)], "forward", map[], None);
      var b := Entry(map["dst" := G.Int(2)], "forward", map[], None);
      var r := RemoveInvalidLive([a, b], "t", [], 0);
      && r.0 == [b]
      && b.matchFields !in []
  {
    var a := Entry(map["dst" := G.Int(1)], "forward", map[], None);
    var b := Entry(map["dst" := G.Int(2)], "forward", map[], None);
    assert a.matchFields != b.matchFields by {
      assert a.matchFields["dst"] != b.matchFields["dst"];
    }
    assert KeyIndex([a, b], a.matchFields) == Some(0);
    assert RemoveIn([a, b], "t", a).value.0 == [b];
  }

  /** `remove_invalid_entries` as the local controllers call it: the live-list
      loop over the stored table. Nothing valid is removed, every deletion is of
      a stored invalid entry, and no other table changes. */
  function RemoveInvalidEntries(m: Manager, table: string, valid: seq<G.Fields>): (r: Result<(Manager, seq<DriverOp>)>)
    ensures r.Ok? <==> table in m.tables
    ensures r.Err? ==> r.error == TableNotFound
    ensures r.Ok? ==> table in r.value.0.tables
    ensures r.Ok? ==> r.value.0 == m.(tables := m.tables[table := r.value.0.tables[table]])
    ensures r.Ok? ==> forall x :: x in r.value.0.tables[table] ==> x in m.tables[table]
    ensures r.Ok? ==> forall x :: x in m.tables[table] && x.matchFields in valid ==> x in r.value.0.tables[table]
    ensures r.Ok? ==> forall op :: op in r.value.1 ==>
      op.Delete? && op.table == table && op.entry in m.tables[table] && op.entry.matchFields !in valid
    ensures r.Ok? && UniqueKeys(m.tables[table]) ==> r.value.0.tables[table] == LiveKeep(m.tables[table], valid)
  {
    var es :- GetTableEntries(m, table);
    var (es1, ops) := RemoveInvalidLive(es, table, valid, 0);
    LiveRemovalKeepsValid(es, table, valid, 0);
    assert UniqueKeys(es) ==> es1 == LiveKeep(es, valid) by {
      if UniqueKeys(es) {
        LiveFromStart(es, table, valid);
      }
    }
    Ok((m.(tables := m.tables[table := es1]), ops))
  }

  /** In a table with unique keys, the entry at `i` is the first with its key. */
  lemma KeyIndexUnique(es: seq<Entry>, i: nat)
    requires UniqueKeys(es) && i < |es|
    ensures KeyIndex(es, es[i].matchFields) == Some(i)
  {
    var k := KeyIndex(es, es[i].matchFields);
    assert k.Some?;
  }

  /** What the live-list loop leaves, stated without a cursor: a valid entry is
      kept; an invalid one is dropped, and the entry right after it is kept
      without being looked at. */
  function LiveKeep(es: seq<Entry>, valid: seq<G.Fields>): (r: seq<Entry>)
    ensures forall x :: x in r ==> x in es
    decreases |es|
  {
    if es == [] then []
    else if es[0].matchFields in valid then
      assert forall x :: x in es[1..] ==> x in es;
      [es[0]] + LiveKeep(es[1..], valid)
    else if |es| == 1 then []
    else
      assert forall x :: x in es[2..] ==> x in es;
      [es[1]] + LiveKeep(es[2..], valid)
  }

  /** The live-list loop over `es`, once it has walked the prefix `done`,
      leaves `done` followed by `LiveKeep` of the rest; with unique keys every
      removal hits the entry under the cursor. */
  lemma {:induction false} LiveWalk(es: seq<Entry>, done: seq<Entry>, todo: seq<Entry>, table: string, valid: seq<G.Fields>)
    requires es == done + todo && UniqueKeys(es)
    ensures RemoveInvalidLive(es, table, valid, |done|).0 == done + LiveKeep(todo, valid)
    decreases |todo|, 2
  {
    if todo == [] {
      assert es == done;
    } else if todo[0].matchFields in valid {
      LiveKeepStep(es, done, todo, table, valid);
    } else {
      LiveDropStep(es, done, todo, table, valid);
    }
  }

  /** One step of `LiveWalk` over a valid entry: the cursor moves on. */
  lemma {:induction false} LiveKeepStep(es: seq<Entry>, done: seq<Entry>, todo: seq<Entry>, table: string, valid: seq<G.Fields>)
    requires es == done + todo && UniqueKeys(es)
    requires todo != [] && todo[0].matchFields in valid
    ensures RemoveInvalidLive(es, table, valid, |done|).0 == done + LiveKeep(todo, valid)
    decreases |todo|, 1
  {
    assert es[|done|] == todo[0];
    SplitHead(done, todo);
    LiveWalk(es, done + [todo[0]], todo[1..], table, valid);
    ConcatAssoc(done, todo[0], LiveKeep(todo[1..], valid));
  }

  /** One step of `LiveWalk` over an invalid entry. */
  lemma {:induction false} LiveDropStep(es: seq<Entry>, done: seq<Entry>, todo: seq<Entry>, table: string, valid: seq<G.Fields>)
    requires es == done + todo && UniqueKeys(es)
    requires todo != [] && todo[0].matchFields !in valid
    ensures RemoveInvalidLive(es, table, valid, |done|).0 == done + LiveKeep(todo, valid)
    decreases |todo|, 1
  {
    LiveKeepDrop(todo, valid);
    LiveDropAt(es, done, todo, table, valid);
    if |todo| > 1 {
      LiveDropMore(done + todo[1..], done, todo, table, valid);
    }
  }

  /** The step over an invalid entry that has a successor: the successor is
      kept unexamined and the walk resumes after it. */
  lemma {:induction false} LiveDropMore(es1: seq<Entry>, done: seq<Entry>, todo: seq<Entry>, table: string, valid: seq<G.Fields>)
    requires |todo| > 1 && es1 == done + todo[1..] && UniqueKeys(es1)
    ensures RemoveInvalidLive(es1, table, valid, |done| + 1).0 == done + ([todo[1]] + LiveKeep(todo[2..], valid))
    decreases |todo|, 0
  {
    SplitAfter(done, todo);
    LiveWalk(es1, done + [todo[1]], todo[2..], table, valid);
    ConcatAssoc(done, todo[1], LiveKeep(todo[2..], valid));
  }

  lemma SplitHead(done: seq<Entry>, todo: seq<Entry>)
    requires todo != []
    ensures (done + [todo[0]]) + todo[1..] == done + todo
    ensures |done + [todo[0]]| == |done| + 1
  {
    assert todo == [todo[0]] + todo[1..];
  }

  lemma SplitAfter(done: seq<Entry>, todo: seq<Entry>)
    requires |todo| > 1
    ensures (done + [todo[1]]) + todo[2..] == done + todo[1..]
    ensures |done + [todo[1]]| == |done| + 1
  {
    assert todo[1..] == [todo[1]] + todo[2..];
  }

  lemma ConcatAssoc(a: seq<Entry>, x: Entry, b: seq<Entry>)
    ensures a + ([x] + b) == (a + [x]) + b
  {
  }

  /** `LiveKeep` at an invalid head. */
  lemma LiveKeepDrop(todo: seq<Entry>, valid: seq<G.Fields>)
    requires todo != [] && todo[0].matchFields !in valid
    ensures |todo| == 1 ==> LiveKeep(todo, valid) == []
    ensures |todo| > 1 ==> LiveKeep(todo, valid) == [todo[1]] + LiveKeep(todo[2..], valid)
  {
  }

  /** The loop's step at an invalid entry under the cursor: that very entry is
      removed and the cursor moves past the entry shifted into its place. */
  lemma LiveDropAt(es: seq<Entry>, done: seq<Entry>, todo: seq<Entry>, table: string, valid: seq<G.Fields>)
    requires es == done + todo && UniqueKeys(es)
    requires todo != [] && todo[0].matchFields !in valid
    ensures UniqueKeys(done + todo[1..])
    ensures RemoveInvalidLive(es, table, valid, |done|).0
      == RemoveInvalidLive(done + todo[1..], table, valid, |done| + 1).0
    ensures |todo| == 1 ==> RemoveInvalidLive(done + todo[1..], table, valid, |done| + 1).0 == done
  {
    assert es[|done|] == todo[0];
    RemoveAtCursor(done, todo, table);
    DropKeyed(es, |done|);
  }

  /** With unique keys, removing the entry after `done` by its key removes that
      entry. */
  lemma RemoveAtCursor(done: seq<Entry>, todo: seq<Entry>, table: string)
    requires UniqueKeys(done + todo) && todo != []
    ensures RemoveIn(done + todo, table, todo[0]).Ok?
    ensures RemoveIn(done + todo, table, todo[0]).value.0 == done + todo[1..]
    ensures (done + todo)[..|done|] + (done + todo)[|done| + 1..] == done + todo[1..]
  {
    var es := done + todo;
    assert es[|done|] == todo[0];
    KeyIndexUnique(es, |done|);
    assert es[..|done|] + es[|done| + 1..] == done + todo[1..];
  }

  /** On a list with unique keys the live-list loop leaves exactly `LiveKeep`
      of it. */
  lemma LiveFromStart(es: seq<Entry>, table: string, valid: seq<G.Fields>)
    requires UniqueKeys(es)
    ensures RemoveInvalidLive(es, table, valid, 0).0 == LiveKeep(es, valid)
  {
    LiveWalk(es, [], es, table, valid);
  }

  /** No two neighbouring entries are both invalid. */
  predicate NoAdjacentInvalid(es: seq<Entry>, valid: seq<G.Fields>) {
    forall i :: 0 <= i < |es| - 1 ==> es[i].matchFields in valid || es[i + 1].matchFields in valid
  }

  /** `LiveKeep` keeps every valid entry. */
  lemma {:induction false} LiveKeepKeepsValid(es: seq<Entry>, valid: seq<G.Fields>)
    ensures forall x :: x in es && x.matchFields in valid ==> x in LiveKeep(es, valid)
    decreases |es|
  {
    if es != [] {
      if es[0].matchFields in valid {
        LiveKeepKeepsValid(es[1..], valid);
        assert forall x :: x in es ==> x == es[0] || x in es[1..];
      } else if |es| > 1 {
        LiveKeepKeepsValid(es[2..], valid);
        assert forall x :: x in es ==> x == es[0] || x == es[1] || x in es[2..];
      }
    }
  }

  /** The purge as written leaves no invalid entry exactly when no two invalid
      entries are neighbours. */
  lemma {:induction false} LiveKeepExact(es: seq<Entry>, valid: seq<G.Fields>)
    ensures (forall x :: x in LiveKeep(es, valid) ==> x.matchFields in valid) <==> NoAdjacentInvalid(es, valid)
    decreases |es|
  {
    if es == [] {
    } else if es[0].matchFields in valid {
      LiveKeepExact(es[1..], valid);
      NoAdjacentInvalidTail(es, valid, 1);
    } else if |es| == 1 {
    } else if es[1].matchFields in valid {
      LiveKeepExact(es[2..], valid);
      NoAdjacentInvalidTail(es, valid, 2);
    } else {
      assert es[1] in LiveKeep(es, valid);
    }
  }

  /** Dropping a prefix that ends in a valid entry and has no neighbouring
      invalid entries preserves their absence, in both directions. */
  lemma NoAdjacentInvalidTail(es: seq<Entry>, valid: seq<G.Fields>, k: nat)
    requires 1 <= k <= |es| && es[k - 1].matchFields in valid
    requires forall i :: 0 <= i < k - 1 ==> es[i].matchFields in valid || es[i + 1].matchFields in valid
    ensures NoAdjacentInvalid(es, valid) <==> NoAdjacentInvalid(es[k..], valid)
  {
    if NoAdjacentInvalid(es[k..], valid) {
      forall i | 0 <= i < |es| - 1 ensures es[i].matchFields in valid || es[i + 1].matchFields in valid {
        if i >= k {
          assert es[i] == es[k..][i - k] && es[i + 1] == es[k..][i - k + 1];
        }
      }
    }
    if NoAdjacentInvalid(es, valid) {
      forall i | 0 <= i < |es[k..]| - 1 ensures es[k..][i].matchFields in valid || es[k..][i + 1].matchFields in valid {
        assert es[k..][i] == es[i + k] && es[k..][i + 1] == es[i + k + 1];
      }
    }
  }

  /** When an invalid entry is present, the purge as written removes at least
      one entry, so repeated passes reach a table without invalid entries. */
  lemma {:induction false} LiveKeepShrinks(es: seq<Entry>, valid: seq<G.Fields>)
    requires exists x :: x in es && x.matchFields !in valid
    ensures |LiveKeep(es, valid)| < |es|
    decreases |es|
  {
    if es[0].matchFields in valid {
      var x :| x in es && x.matchFields !in valid;
      assert x in es[1..];
      LiveKeepShrinks(es[1..], valid);
    } else if |es| > 1 {
      LiveKeepLength(es[2..], valid);
    }
  }

  lemma {:induction false} LiveKeepLength(es: seq<Entry>, valid: seq<G.Fields>)
    ensures |LiveKeep(es, valid)| <= |es|
    decreases |es|
  {
    if es != [] {
      if es[0].matchFields in valid {
        LiveKeepLength(es[1..], valid);
      } else if |es| > 1 {
        LiveKeepLength(es[2..], valid);
      }
    }
  }

  /** `LiveKeep` keeps unique keys. */
  lemma {:induction false} LiveKeepUnique(es: seq<Entry>, valid: seq<G.Fields>)
    requires UniqueKeys(es)
    ensures UniqueKeys(LiveKeep(es, valid))
    decreases |es|
  {
    if es != [] {
      UniqueKeysTail(es);
      if es[0].matchFields in valid {
        LiveKeepUnique(es[1..], valid);
        PrependUnique(es[0], LiveKeep(es[1..], valid));
      } else if |es| > 1 {
        UniqueKeysTail(es[1..]);
        assert es[1..][1..] == es[2..];
        LiveKeepUnique(es[2..], valid);
        PrependUnique(es[1], LiveKeep(es[2..], valid));
      }
    }
  }

  /** On a table whose entries are all valid the purge as written writes
      nothing. */
  lemma {:induction false} LiveAllValid(es: seq<Entry>, table: string, valid: seq<G.Fields>, i: nat)
    requires forall x :: x in es ==> x.matchFields in valid
    ensures RemoveInvalidLive(es, table, valid, i) == (es, [])
    decreases |es| - i
  {
    if i < |es| {
      assert es[i] in es;
      LiveAllValid(es, table, valid, i + 1);
    }
  }

  /** `remove_invalid_entries` as intended: the loop walks a snapshot of the table,
      so every entry whose match fields are not valid is removed. */
  function RemoveInvalidSnapshot(m: Manager, table: string, valid: seq<G.Fields>): (r: Result<(Manager, seq<DriverOp>)>)
    ensures table !in m.tables ==> r == Err(TableNotFound)
    ensures r.Ok? ==> table in m.tables && table in r.value.0.tables
    ensures r.Ok? ==> r.value.0 == m.(tables := m.tables[table := r.value.0.tables[table]])
    ensures r.Ok? ==> forall op :: op in r.value.1 ==>
      op.Delete? && op.table == table && op.entry in m.tables[table] && op.entry.matchFields !in valid
  {
    var es :- GetTableEntries(m, table);
    RemoveEachDeletesInvalid(es, table, es, valid);
    var (es1, ops) :- RemoveEach(es, table, es, valid);
    Ok((m.(tables := m.tables[table := es1]), ops))
  }

  /** The loop over a snapshot `todo`. */
  function RemoveEach(es: seq<Entry>, table: string, todo: seq<Entry>, valid: seq<G.Fields>): (r: Result<(seq<Entry>, seq<DriverOp>)>)
    ensures r.Err? ==> r.error == EntryNotFound
    decreases |todo|
  {
    if todo == [] then Ok((es, []))
    else if todo[0].matchFields in valid then RemoveEach(es, table, todo[1..], valid)
    else
      var (es1, ops1) :- RemoveIn(es, table, todo[0]);
      var (es2, ops2) :- RemoveEach(es1, table, todo[1..], valid);
      Ok((es2, ops1 + ops2))
  }

  /** The snapshot loop asks the driver only to delete walked entries that are
      not valid. */
  lemma {:induction false} RemoveEachDeletesInvalid(es: seq<Entry>, table: string, todo: seq<Entry>, valid: seq<G.Fields>)
    ensures var r := RemoveEach(es, table, todo, valid);
      r.Ok? ==> forall op :: op in r.value.1 ==>
        op.Delete? && op.table == table && op.entry in todo && op.entry.matchFields !in valid
    decreases |todo|
  {
    if todo != [] {
      assert forall x :: x in todo[1..] ==> x in todo;
      if todo[0].matchFields !in valid {
        var r1 := RemoveIn(es, table, todo[0]);
        if r1.Ok? {
          RemoveEachDeletesInvalid(r1.value.0, table, todo[1..], valid);
        }
      } else {
        RemoveEachDeletesInvalid(es, table, todo[1..], valid);
      }
    }
  }

  /** The stored list without its invalid entries, in order. */
  function KeepValid(es: seq<Entry>, valid: seq<G.Fields>): (r: seq<Entry>)
    ensures forall x :: x in r <==> x in es && x.matchFields in valid
  {
    if es == [] then []
    else
      assert forall x :: x in es <==> x == es[0] || x in es[1..];
      (if es[0].matchFields in valid then [es[0]] else []) + KeepValid(es[1..], valid)
  }

  lemma UniqueKeysTail(es: seq<Entry>)
    requires es != [] && UniqueKeys(es)
    ensures UniqueKeys(es[1..]) && forall x :: x in es[1..] ==> x.matchFields != es[0].matchFields
  {
    forall x | x in es[1..] ensures x.matchFields != es[0].matchFields {
      var k :| 0 <= k < |es[1..]| && es[1..][k] == x;
      assert es[k + 1] == x;
    }
  }

  /** Every entry of `done` is valid. */
  predicate AllValid(done: seq<Entry>, valid: seq<G.Fields>) {
    forall i :: 0 <= i < |done| ==> done[i].matchFields in valid
  }

  /** The snapshot loop, once the live list is the walked part `done` of the
      snapshot (all of it valid and kept) followed by the rest `todo` (still
      stored verbatim), leaves exactly the valid entries. No entry of `done`
      shares match fields with an invalid entry, so each removal hits the entry
      being walked. */
  lemma {:induction false} RemoveEachKeepsValid(es: seq<Entry>, done: seq<Entry>, todo: seq<Entry>, table: string, valid: seq<G.Fields>)
    requires es == done + todo
    requires AllValid(done, valid)
    ensures RemoveEach(es, table, todo, valid).Ok?
    ensures RemoveEach(es, table, todo, valid).value.0 == done + KeepValid(todo, valid)
    decreases |todo|, 1
  {
    if todo == [] {
      assert es == done;
    } else if todo[0].matchFields in valid {
      KeepValidStep(es, done, todo, table, valid);
    } else {
      RemoveInvalidStep(es, done, todo, table, valid);
    }
  }

  /** One step of the snapshot loop over a valid entry. */
  lemma {:induction false} KeepValidStep(es: seq<Entry>, done: seq<Entry>, todo: seq<Entry>, table: string, valid: seq<G.Fields>)
    requires es == done + todo
    requires AllValid(done, valid)
    requires todo != [] && todo[0].matchFields in valid
    ensures RemoveEach(es, table, todo, valid).Ok?
    ensures RemoveEach(es, table, todo, valid).value.0 == done + KeepValid(todo, valid)
    decreases |todo|, 0
  {
    var x := todo[0];
    assert es == (done + [x]) + todo[1..];
    assert AllValid(done + [x], valid) by {
      assert forall i :: 0 <= i < |done| ==> (done + [x])[i] == done[i];
    }
    RemoveEachKeepsValid(es, done + [x], todo[1..], table, valid);
    SkipValid(es, done, todo, table, valid);
  }

  /** The walk past a valid entry: what the loop leaves after it, with the entry
      kept in front. */
  lemma SkipValid(es: seq<Entry>, done: seq<Entry>, todo: seq<Entry>, table: string, valid: seq<G.Fields>)
    requires todo != [] && todo[0].matchFields in valid
    requires RemoveEach(es, table, todo[1..], valid).Ok?
    requires RemoveEach(es, table, todo[1..], valid).value.0 == (done + [todo[0]]) + KeepValid(todo[1..], valid)
    ensures RemoveEach(es, table, todo, valid).Ok?
    ensures RemoveEach(es, table, todo, valid).value.0 == done + KeepValid(todo, valid)
  {
    assert RemoveEach(es, table, todo, valid) == RemoveEach(es, table, todo[1..], valid);
    assert KeepValid(todo, valid) == [todo[0]] + KeepValid(todo[1..], valid);
    assert done + ([todo[0]] + KeepValid(todo[1..], valid)) == (done + [todo[0]]) + KeepValid(todo[1..], valid);
  }

  /** One step of the snapshot loop over an invalid entry. */
  lemma {:induction false} RemoveInvalidStep(es: seq<Entry>, done: seq<Entry>, todo: seq<Entry>, table: string, valid: seq<G.Fields>)
    requires es == done + todo
    requires AllValid(done, valid)
    requires todo != [] && todo[0].matchFields !in valid
    ensures RemoveEach(es, table, todo, valid).Ok?
    ensures RemoveEach(es, table, todo, valid).value.0 == done + KeepValid(todo, valid)
    decreases |todo|, 0
  {
    RemoveAfterValidPrefix(done, todo, table, valid);
    var es1 := done + todo[1..];
    RemoveEachKeepsValid(es1, done, todo[1..], table, valid);
    assert KeepValid(todo, valid) == KeepValid(todo[1..], valid);
  }

  /** Removing the first entry after a prefix of valid entries, when that entry
      is not valid. */
  lemma RemoveAfterValidPrefix(done: seq<Entry>, todo: seq<Entry>, table: string, valid: seq<G.Fields>)
    requires todo != [] && todo[0].matchFields !in valid
    requires AllValid(done, valid)
    ensures RemoveIn(done + todo, table, todo[0]) == Ok((done + todo[1..], [Delete(table, todo[0])]))
  {
    var es := done + todo;
    var x := todo[0];
    assert es[|done|] == x;
    assert forall j :: 0 <= j < |done| ==> es[j] == done[j];
    assert KeyIndex(es, x.matchFields) == Some(|done|);
    assert es[..|done|] + es[|done| + 1..] == done + todo[1..];
  }

  /** The corrected `remove_invalid_entries` leaves exactly the valid entries in
      their order (its contract says only invalid ones are deleted). */
  lemma RemoveInvalidExact(m: Manager, table: string, valid: seq<G.Fields>)
    requires table in m.tables
    ensures RemoveInvalidSnapshot(m, table, valid).Ok?
    ensures RemoveInvalidSnapshot(m, table, valid).value.0.tables[table] == KeepValid(m.tables[table], valid)
  {
    var es := m.tables[table];
    RemoveEachKeepsValid(es, [], es, table, valid);
  }

  /** `remove_invalid_entries` AS WRITTEN never deletes a valid entry: whatever it
      removes is keyed like an invalid one. */
  lemma {:induction false} LiveRemovalKeepsValid(es: seq<Entry>, table: string, valid: seq<G.Fields>, i: nat)
    ensures forall x :: x in es && x.matchFields in valid ==> x in RemoveInvalidLive(es, table, valid, i).0
    decreases |es| - i
  {
    if i < |es| {
      if es[i].matchFields in valid {
        LiveRemovalKeepsValid(es, table, valid, i + 1);
      } else {
        var k := KeyIndex(es, es[i].matchFields).value;
        var es1 := RemoveIn(es, table, es[i]).value.0;
        assert es1 == es[..k] + es[k + 1..];
        forall x | x in es && x.matchFields in valid ensures x in es1 {
          var j :| 0 <= j < |es| && es[j] == x;
          assert j != k;
          if j < k {
            assert es1[j] == x;
          } else {
            assert es1[j - 1] == x;
          }
        }
        LiveRemovalKeepsValid(es1, table, valid, i + 1);
      }
    }
  }

  /** The match fields of a list of entries, the `valid_entries` the local
      controllers collect. */
  function Keys(es: seq<Entry>): (r: seq<G.Fields>)
    ensures |r| == |es| && forall i :: 0 <= i < |es| ==> r[i] == es[i].matchFields
  {
    if es == [] then [] else [es[0].matchFields] + Keys(es[1..])
  }

  lemma KeysMembership(es: seq<Entry>)
    ensures forall x :: x in es ==> x.matchFields in Keys(es)
    ensures forall k :: k in Keys(es) ==> exists x :: x in es && x.matchFields == k
  {
    var ks := Keys(es);
    forall k | k in ks ensures exists x :: x in es && x.matchFields == k {
      var i :| 0 <= i < |ks| && ks[i] == k;
      assert es[i] in es;
    }
  }

  /** The list `handle_table_entry` leaves behind. */
  function HandleList(es: seq<Entry>, e: Entry): seq<Entry> {
    if e in es then es
    else match KeyIndex(es, e.matchFields)
      case Some(i) => es[..i] + es[i + 1..] + [e]
      case None => es + [e]
  }

  lemma HandleShape(m: Manager, table: string, e: Entry)
    requires table in m.tables
    ensures HandleTableEntry(m, table, e).Ok?
    ensures HandleTableEntry(m, table, e).value.0 == m.(tables := m.tables[table := HandleList(m.tables[table], e)])
  {
  }

  /** What `handle_table_entry` leaves in a table with unique keys: the new entry,
      and of the rest exactly those keyed differently. */
  lemma HandleListEffect(es: seq<Entry>, e: Entry)
    requires UniqueKeys(es)
    ensures UniqueKeys(HandleList(es, e))
    ensures forall x :: x in HandleList(es, e) <==> x == e || (x in es && x.matchFields != e.matchFields)
  {
    if e in es {
      forall x | x in es && x.matchFields == e.matchFields ensures x == e {
        UniqueKeysSame(es, x, e);
      }
    } else if KeyIndex(es, e.matchFields).Some? {
      var i := KeyIndex(es, e.matchFields).value;
      DropKeyed(es, i);
      AppendUnique(es[..i] + es[i + 1..], e);
    } else {
      AppendUnique(es, e);
    }
  }

  /** Dropping the entry at index i of a list with unique keys drops exactly the
      entries with its key. */
  lemma DropKeyed(es: seq<Entry>, i: nat)
    requires UniqueKeys(es) && i < |es|
    ensures UniqueKeys(es[..i] + es[i + 1..])
    ensures forall x :: x in es[..i] + es[i + 1..] <==> x in es && x.matchFields != es[i].matchFields
  {
    var es1 := es[..i] + es[i + 1..];
    assert forall k :: 0 <= k < |es1| ==> es1[k] == if k < i then es[k] else es[k + 1];
    forall x ensures x in es1 <==> x in es && x.matchFields != es[i].matchFields {
      if x in es && x.matchFields != es[i].matchFields {
        var j :| 0 <= j < |es| && es[j] == x;
        if j < i { assert es1[j] == x; } else { assert es1[j - 1] == x; }
      }
    }
  }

  /** Appending an entry with a fresh key keeps keys unique. */
  lemma AppendUnique(es: seq<Entry>, e: Entry)
    requires UniqueKeys(es) && forall x :: x in es ==> x.matchFields != e.matchFields
    ensures UniqueKeys(es + [e])
  {
    var r := es + [e];
    forall i, j | 0 <= i < j < |r| ensures r[i].matchFields != r[j].matchFields {
      if j == |es| {
        assert r[i] in es;
      }
    }
  }

  /** The loop of `handle_table_entry` calls a controller makes; it stops at the
      first error. */
  function HandleAll(m: Manager, table: string, es: seq<Entry>): (r: Result<(Manager, seq<DriverOp>)>)
    ensures table !in m.tables && es != [] ==> r == Err(TableNotFound)
    ensures es == [] ==> r == Ok((m, []))
    ensures r.Err? ==> r.error == TableNotFound
    ensures (forall x :: x in es ==> table in m.tables && x in m.tables[table]) ==> r == Ok((m, []))
    decreases |es|
  {
    if es == [] then Ok((m, []))
    else match HandleTableEntry(m, table, es[0])
      case Err(e) => Err(e)
      case Ok((m1, ops1, _)) =>
        assert forall x :: x in es[1..] ==> x in es;
        match HandleAll(m1, table, es[1..])
        case Err(e) => Err(e)
        case Ok((m2, ops2)) =>
          assert ops1 == [] && ops2 == [] ==> ops1 + ops2 == [];
          Ok((m2, ops1 + ops2))
  }

  /** The list `HandleAll` leaves behind. */
  function HandleAllList(es: seq<Entry>, gen: seq<Entry>): seq<Entry>
    decreases |gen|
  {
    if gen == [] then es else HandleAllList(HandleList(es, gen[0]), gen[1..])
  }

  lemma {:induction false} HandleAllShape(m: Manager, table: string, gen: seq<Entry>)
    requires table in m.tables
    ensures HandleAll(m, table, gen).Ok?
    ensures HandleAll(m, table, gen).value.0 == m.(tables := m.tables[table := HandleAllList(m.tables[table], gen)])
    decreases |gen|
  {
    if gen != [] {
      HandleShape(m, table, gen[0]);
      var m1 := HandleTableEntry(m, table, gen[0]).value.0;
      HandleAllShape(m1, table, gen[1..]);
      assert m1.tables[table := HandleAllList(m1.tables[table], gen[1..])]
        == m.tables[table := HandleAllList(m.tables[table], gen)];
    }
  }

  /** Handling a list of entries with distinct keys, in a table with unique
      keys: every handled entry is stored, and of the old entries exactly those
      keyed like none of them stay. */
  lemma {:induction false} HandleAllEffect(es: seq<Entry>, gen: seq<Entry>)
    requires UniqueKeys(es) && UniqueKeys(gen)
    ensures UniqueKeys(HandleAllList(es, gen))
    ensures forall x :: x in HandleAllList(es, gen) <==> x in gen || (x in es && x.matchFields !in Keys(gen))
    decreases |gen|
  {
    if gen != [] {
      HandleListEffect(es, gen[0]);
      UniqueKeysTail(gen);
      HandleAllEffect(HandleList(es, gen[0]), gen[1..]);
      assert Keys(gen) == [gen[0].matchFields] + Keys(gen[1..]);
      KeysMembership(gen[1..]);
      assert forall x :: x in gen <==> x == gen[0] || x in gen[1..];
    }
  }

  /** A local controller's pass, as `update_mac_entry` and `update_mc_table`
      run it: handle every generated entry, then, unless the generation failed,
      purge the entries whose match fields were not generated with the
      live-list `remove_invalid_entries`. */
  function Sync(m: Manager, table: string, es: seq<Entry>, failure: Option<Error>): (r: (Manager, seq<DriverOp>, Option<Error>))
    ensures table !in m.tables ==> r.0 == m && r.1 == [] && r.2.Some?
    ensures failure.Some? ==> r.2.Some?
    ensures forall op :: op in r.1 ==> op.table == table
  {
    match HandleAll(m, table, es)
    case Err(e) => (m, [], Some(e))
    case Ok((m1, ops1)) =>
      HandleAllTables(m, table, es);
      if failure.Some? then (m1, ops1, failure)
      else match RemoveInvalidEntries(m1, table, Keys(es))
        case Err(e) => (m1, ops1, Some(e))
        case Ok((m2, ops2)) => (m2, ops1 + ops2, None)
  }

  /** The same pass with the corrected, snapshot purge. */
  function SyncSnapshot(m: Manager, table: string, es: seq<Entry>, failure: Option<Error>): (r: (Manager, seq<DriverOp>, Option<Error>))
    ensures table !in m.tables ==> r.0 == m && r.1 == [] && r.2.Some?
    ensures failure.Some? ==> r.2.Some?
    ensures forall op :: op in r.1 ==> op.table == table
  {
    match HandleAll(m, table, es)
    case Err(e) => (m, [], Some(e))
    case Ok((m1, ops1)) =>
      HandleAllTables(m, table, es);
      if failure.Some? then (m1, ops1, failure)
      else match RemoveInvalidSnapshot(m1, table, Keys(es))
        case Err(e) => (m1, ops1, Some(e))
        case Ok((m2, ops2)) => (m2, ops1 + ops2, None)
  }

  /** Handling writes only to the named table. */
  lemma {:induction false} HandleAllTables(m: Manager, table: string, es: seq<Entry>)
    requires HandleAll(m, table, es).Ok?
    ensures forall op :: op in HandleAll(m, table, es).value.1 ==> op.table == table
    ensures table !in m.tables ==> HandleAll(m, table, es).value.0 == m
    decreases |es|
  {
    if es != [] {
      var m1 := HandleTableEntry(m, table, es[0]).value.0;
      HandleAllTables(m1, table, es[1..]);
    }
  }

  /** Handling keeps keys unique, whatever is handled. */
  lemma {:induction false} HandleAllUnique(es: seq<Entry>, gen: seq<Entry>)
    requires UniqueKeys(es)
    ensures UniqueKeys(HandleAllList(es, gen))
    decreases |gen|
  {
    if gen != [] {
      HandleListEffect(es, gen[0]);
      HandleAllUnique(HandleList(es, gen[0]), gen[1..]);
    }
  }

  /** A pass as written over a present table with unique keys succeeds and
      leaves `LiveKeep` of the handled table; no other table changes. */
  lemma SyncShape(m: Manager, table: string, es: seq<Entry>)
    requires table in m.tables && UniqueKeys(m.tables[table])
    ensures var r := Sync(m, table, es, None);
      && r.2 == None
      && r.0 == m.(tables := m.tables[table := LiveKeep(HandleAllList(m.tables[table], es), Keys(es))])
  {
    HandleAllShape(m, table, es);
    var h := HandleAllList(m.tables[table], es);
    HandleAllUnique(m.tables[table], es);
    var m1 := HandleAll(m, table, es).value.0;
    assert m1.tables == m.tables[table := h];
    PurgeShape(m1, table, Keys(es));
    assert m1.tables[table := LiveKeep(h, Keys(es))] == m.tables[table := LiveKeep(h, Keys(es))];
  }

  /** The purge as written over a present table with unique keys succeeds and
      leaves `LiveKeep` of it. */
  lemma PurgeShape(m: Manager, table: string, valid: seq<G.Fields>)
    requires table in m.tables && UniqueKeys(m.tables[table])
    ensures RemoveInvalidEntries(m, table, valid).Ok?
    ensures RemoveInvalidEntries(m, table, valid).value.0 == m.(tables := m.tables[table := LiveKeep(m.tables[table], valid)])
  {
    var m2 := RemoveInvalidEntries(m, table, valid).value.0;
    assert m2.tables == m.tables[table := LiveKeep(m.tables[table], valid)];
  }

  /** After a pass as written over entries with distinct keys, every generated
      entry is stored, keys stay unique, and whatever else remains is a stale
      entry of the old table; the table holds exactly the generated entries
      precisely when no two stale entries are neighbours in the handled table. */
  lemma SyncExact(m: Manager, table: string, es: seq<Entry>)
    requires table in m.tables && UniqueKeys(m.tables[table]) && UniqueKeys(es)
    ensures var r := Sync(m, table, es, None);
      var h := HandleAllList(m.tables[table], es);
      && r.2 == None
      && table in r.0.tables
      && r.0 == m.(tables := m.tables[table := r.0.tables[table]])
      && UniqueKeys(r.0.tables[table])
      && (forall x :: x in es ==> x in r.0.tables[table])
      && (forall x :: x in r.0.tables[table] ==> x in es || (x in m.tables[table] && x.matchFields !in Keys(es)))
      && ((forall x :: x in r.0.tables[table] <==> x in es) <==> NoAdjacentInvalid(h, Keys(es)))
  {
    SyncShape(m, table, es);
    var h := HandleAllList(m.tables[table], es);
    var t := LiveKeep(h, Keys(es));
    HandleAllEffect(m.tables[table], es);
    HandledValid(m.tables[table], es);
    KeysMembership(es);
    LiveKeepUnique(h, Keys(es));
    LiveKeepKeepsValid(h, Keys(es));
    LiveKeepExact(h, Keys(es));
    assert (forall x :: x in t ==> x.matchFields in Keys(es)) <==> (forall x :: x in t <==> x in es);
  }

  /** In a handled table with unique keys, an entry keyed like a generated one
      is that generated entry. */
  lemma HandledValid(es: seq<Entry>, gen: seq<Entry>)
    requires UniqueKeys(es) && UniqueKeys(gen)
    ensures forall x :: x in HandleAllList(es, gen) && x.matchFields in Keys(gen) <==> x in gen
  {
    var h := HandleAllList(es, gen);
    HandleAllEffect(es, gen);
    KeysMembership(gen);
    forall x | x in h && x.matchFields in Keys(gen) ensures x in gen {
      var y :| y in gen && y.matchFields == x.matchFields;
      UniqueKeysSame(h, x, y);
    }
  }

  /** A second pass as written over the same entries only purges again. It
      writes nothing when the first pass left no stale entry, and otherwise
      removes at least one more, so repeated passes converge. */
  lemma SyncIdempotent(m: Manager, table: string, es: seq<Entry>)
    requires table in m.tables && UniqueKeys(m.tables[table]) && UniqueKeys(es)
    ensures var m1 := Sync(m, table, es, None).0;
      var r := Sync(m1, table, es, None);
      var h := HandleAllList(m.tables[table], es);
      && table in m1.tables
      && r.2 == None
      && r.0 == m1.(tables := m1.tables[table := LiveKeep(m1.tables[table], Keys(es))])
      && (NoAdjacentInvalid(h, Keys(es)) ==> r == (m1, [], None))
      && (!NoAdjacentInvalid(h, Keys(es)) ==> |r.0.tables[table]| < |m1.tables[table]|)
  {
    SyncExact(m, table, es);
    var h := HandleAllList(m.tables[table], es);
    var m1 := Sync(m, table, es, None).0;
    var t1 := m1.tables[table];
    KeysMembership(es);
    SyncStoredOnlyPurges(m1, table, es);
    if NoAdjacentInvalid(h, Keys(es)) {
      SyncStoredSilent(m1, table, es);
    } else {
      var x :| x in t1 && x !in es;
      LiveKeepShrinks(t1, Keys(es));
    }
  }

  /** A pass over entries that are all stored already only purges. */
  lemma SyncStoredOnlyPurges(m: Manager, table: string, es: seq<Entry>)
    requires table in m.tables && UniqueKeys(m.tables[table])
    requires forall x :: x in es ==> x in m.tables[table]
    ensures Sync(m, table, es, None).2 == None
    ensures Sync(m, table, es, None).0 == m.(tables := m.tables[table := LiveKeep(m.tables[table], Keys(es))])
  {
    assert HandleAll(m, table, es) == Ok((m, []));
  }

  /** A pass over entries that are all stored already, when every stored entry
      is keyed like one of them, writes nothing. */
  lemma SyncStoredSilent(m: Manager, table: string, es: seq<Entry>)
    requires table in m.tables
    requires forall x :: x in es ==> x in m.tables[table]
    requires forall x :: x in m.tables[table] ==> x.matchFields in Keys(es)
    ensures Sync(m, table, es, None) == (m, [], None)
  {
    assert HandleAll(m, table, es) == Ok((m, []));
    var t := m.tables[table];
    var r := RemoveInvalidEntries(m, table, Keys(es));
    LiveAllValid(t, table, Keys(es), 0);
    assert r.value == (m.(tables := m.tables[table := t]), RemoveInvalidLive(t, table, Keys(es), 0).1);
    assert m.tables[table := t] == m.tables;
    assert Sync(m, table, es, None) == (r.value.0, [] + r.value.1, None);
    assert [] + r.value.1 == [];
  }

  /** After a successful corrected pass over entries with distinct keys, the
      table holds exactly the generated entries, with unique keys; no other
      table changes. */
  lemma SyncSnapshotExact(m: Manager, table: string, es: seq<Entry>)
    requires table in m.tables && UniqueKeys(m.tables[table]) && UniqueKeys(es)
    ensures var r := SyncSnapshot(m, table, es, None);
      && r.2 == None
      && table in r.0.tables
      && r.0 == m.(tables := m.tables[table := r.0.tables[table]])
      && UniqueKeys(r.0.tables[table])
      && forall x :: x in r.0.tables[table] <==> x in es
  {
    SyncSnapshotShape(m, table, es);
    PurgeHandled(m.tables[table], es);
  }

  /** A corrected pass over a present table succeeds and leaves the handled table purged. */
  lemma SyncSnapshotShape(m: Manager, table: string, es: seq<Entry>)
    requires table in m.tables
    ensures var r := SyncSnapshot(m, table, es, None);
      && r.2 == None
      && r.0 == m.(tables := m.tables[table := KeepValid(HandleAllList(m.tables[table], es), Keys(es))])
  {
    HandleAllShape(m, table, es);
    var h := HandleAllList(m.tables[table], es);
    var m1 := HandleAll(m, table, es).value.0;
    assert m1.tables == m.tables[table := h];
    RemoveInvalidExact(m1, table, Keys(es));
    var m2 := RemoveInvalidSnapshot(m1, table, Keys(es)).value.0;
    assert m2.tables == m1.tables[table := KeepValid(h, Keys(es))];
    assert m1.tables[table := KeepValid(h, Keys(es))] == m.tables[table := KeepValid(h, Keys(es))];
  }

  /** Handling the entries and then keeping those keyed like one of them leaves
      exactly the entries, with unique keys. */
  lemma PurgeHandled(es: seq<Entry>, gen: seq<Entry>)
    requires UniqueKeys(es) && UniqueKeys(gen)
    ensures UniqueKeys(KeepValid(HandleAllList(es, gen), Keys(gen)))
    ensures forall x :: x in KeepValid(HandleAllList(es, gen), Keys(gen)) <==> x in gen
  {
    var h := HandleAllList(es, gen);
    HandleAllEffect(es, gen);
    KeysMembership(gen);
    forall x | x in h && x.matchFields in Keys(gen) ensures x in gen {
      var y :| y in gen && y.matchFields == x.matchFields;
      UniqueKeysSame(h, x, y);
    }
    KeepValidUnique(h, Keys(gen));
  }

  /** In a table with unique keys, an entry is determined by its key. */
  lemma UniqueKeysSame(es: seq<Entry>, x: Entry, y: Entry)
    requires UniqueKeys(es) && x in es && y in es && x.matchFields == y.matchFields
    ensures x == y
  {
    var i :| 0 <= i < |es| && es[i] == x;
    var j :| 0 <= j < |es| && es[j] == y;
  }

  /** Keeping a subsequence keeps keys unique. */
  lemma {:induction false} KeepValidUnique(es: seq<Entry>, valid: seq<G.Fields>)
    requires UniqueKeys(es)
    ensures UniqueKeys(KeepValid(es, valid))
  {
    if es != [] {
      UniqueKeysTail(es);
      KeepValidUnique(es[1..], valid);
      if es[0].matchFields in valid {
        PrependUnique(es[0], KeepValid(es[1..], valid));
      }
    }
  }

  /** Prepending an entry with a fresh key keeps keys unique. */
  lemma PrependUnique(e: Entry, es: seq<Entry>)
    requires UniqueKeys(es) && forall x :: x in es ==> x.matchFields != e.matchFields
    ensures UniqueKeys([e] + es)
  {
    var r := [e] + es;
    forall i, j | 0 <= i < j < |r| ensures r[i].matchFields != r[j].matchFields {
      assert r[j] == es[j - 1];
      if i > 0 {
        assert r[i] == es[i - 1];
      }
    }
  }

  /** A second corrected pass over the same entries writes nothing. */
  lemma SyncSnapshotIdempotent(m: Manager, table: string, es: seq<Entry>)
    requires table in m.tables && UniqueKeys(m.tables[table]) && UniqueKeys(es)
    ensures var m1 := SyncSnapshot(m, table, es, None).0;
      SyncSnapshot(m1, table, es, None) == (m1, [], None)
  {
    SyncSnapshotExact(m, table, es);
    var m1 := SyncSnapshot(m, table, es, None).0;
    KeysMembership(es);
    assert HandleAll(m1, table, es) == Ok((m1, []));
    var r := RemoveInvalidSnapshot(m1, table, Keys(es));
    RemoveInvalidExact(m1, table, Keys(es));
    var ops := r.value.1;
    EmptyIfNoMember(ops);
    assert ops == [];
    KeepValidAll(m1.tables[table], Keys(es));
    assert m1.tables[table := m1.tables[table]] == m1.tables;
    assert r.value.0 == m1;
    assert SyncSnapshot(m1, table, es, None) == (r.value.0, [] + ops, None);
    assert [] + ops == [];
  }

  /** Keeping the entries whose key is valid, when all of them are, keeps all. */
  lemma {:induction false} KeepValidAll(es: seq<Entry>, valid: seq<G.Fields>)
    requires forall x :: x in es ==> x.matchFields in valid
    ensures KeepValid(es, valid) == es
  {
    if es != [] {
      assert forall x :: x in es[1..] ==> x in es;
      KeepValidAll(es[1..], valid);
      assert es == [es[0]] + es[1..];
    }
  }

  /** Two lists with unique keys and the same members have the same length. */
  lemma {:induction false} UniqueKeysSameLength(a: seq<Entry>, b: seq<Entry>)
    requires UniqueKeys(a) && UniqueKeys(b)
    requires forall x :: x in a <==> x in b
    ensures |a| == |b|
    decreases |a|
  {
    EmptyIfNoMember(b);
    if a != [] {
      var x := a[0];
      assert x in a;
      var j :| 0 <= j < |b| && b[j] == x;
      var b1 := b[..j] + b[j + 1..];
      DropKeyed(b, j);
      UniqueKeysTail(a);
      forall y ensures y in a[1..] <==> y in b1 {
        assert y in a <==> y == x || y in a[1..];
        if y in a[1..] {
          assert y.matchFields != x.matchFields;
        }
        if y in b1 && y.matchFields == x.matchFields {
          assert false;
        }
      }
      UniqueKeysSameLength(a[1..], b1);
    }
  }
}
