/** The global controller's reconciliation engine (`TableEntryManager`): it keeps the
    entries written to every switch, per table, and turns each computed entry into
    nothing, an update (driver delete + add) or a creation (driver add). Driver
    calls are returned as a log instead of being sent. */
module TableEntryManager {
  import opened Wrappers
  import opened Seqs

  /** Values of match fields and action parameters: plain numbers and strings,
      LPM pairs (address, prefix length) and ternary pairs (value, mask). */
  datatype Param = Int(i: int) | Str(s: string) | Lpm(addr: string, prefix: int) | Ternary(value: int, mask: int)

  type Fields = map<string, Param>

  datatype Entry = Entry(
    switch: string,
    matchFields: Fields,
    actionName: string,
    actionParams: Fields,
    priority: Option<int>)

  /** `TableEntry.__eq__`: field-by-field comparison of all five fields. */
  function EntryEquals(a: Entry, b: Entry): (r: bool)
    ensures r <==> a == b
  {
    && a.switch == b.switch
    && a.matchFields == b.matchFields
    && a.actionName == b.actionName
    && a.actionParams == b.actionParams
    && a.priority == b.priority
  }

  /** One call into the switch driver. */
  datatype DriverOp =
    | Add(switch: string, table: string, entry: Entry)
    | Delete(switch: string, table: string, entry: Entry)

  /** Entries are identified by switch and match fields. */
  predicate SameKey(a: Entry, b: Entry) {
    a.switch == b.switch && a.matchFields == b.matchFields
  }

  /** At most one entry per (switch, match fields). */
  predicate UniqueKeys(es: seq<Entry>) {
    forall i, j :: 0 <= i < j < |es| ==> !SameKey(es[i], es[j])
  }

  datatype Manager = Manager(name: string, tables: map<string, seq<Entry>>)

  /** The class-level registry `TableEntryManager.Manager`. */
  type Registry = map<string, Manager>

  /** `TableEntryManager(controller, name)`: a manager without tables, registered
      under its name (replacing an earlier one of that name). */
  function NewManager(reg: Registry, name: string): (r: (Registry, Manager))
    ensures r.1.tables == map[] && r.1.name == name
    ensures Get(r.0, name) == Ok(r.1)
    ensures forall other :: other != name ==> Get(r.0, other) == Get(reg, other)
  {
    var m := Manager(name, map[]);
    (reg[name := m], m)
  }

  /** `TableEntryManager.get`: TableManagerNotFound for an unregistered name. */
  function Get(reg: Registry, name: string): (r: Result<Manager>)
    ensures r.Ok? <==> name in reg
    ensures r.Ok? ==> r.value == reg[name]
    ensures r.Err? ==> r.error == TableManagerNotFound
  {
    if name in reg then Ok(reg[name]) else Err(TableManagerNotFound)
  }

  /** `init_table`: the table exists and is empty; other tables are untouched. */
  function InitTable(m: Manager, table: string): (r: Manager)
    ensures GetTableEntries(r, table) == Ok([])
    ensures forall t :: t != table ==> GetTableEntries(r, t) == GetTableEntries(m, t)
    ensures r.name == m.name
  {
    m.(tables := m.tables[table := []])
  }

  /** `get_table_entries`: TableNotFound for a table never initialised. */
  function GetTableEntries(m: Manager, table: string): (r: Result<seq<Entry>>)
    ensures r.Ok? <==> table in m.tables
    ensures r.Ok? ==> r.value == m.tables[table]
    ensures r.Err? ==> r.error == TableNotFound
  {
    if table in m.tables then Ok(m.tables[table]) else Err(TableNotFound)
  }

  /** `__get_table_entries_for_switch`: the switch's entries in table order. */
  function EntriesForSwitch(es: seq<Entry>, sw: string): (r: seq<Entry>)
    ensures forall x :: x in r <==> x in es && x.switch == sw
    ensures |r| <= |es|
  {
    if es == [] then []
    else
      assert forall x :: x in es <==> x == es[0] || x in es[1..];
      (if es[0].switch == sw then [es[0]] else []) + EntriesForSwitch(es[1..], sw)
  }

  /** Index of the first entry with the key of `e`. */
  function KeyIndex(es: seq<Entry>, e: Entry): (r: Option<nat>)
    ensures r.Some? ==> (r.value < |es| && SameKey(es[r.value], e)
      && forall j :: 0 <= j < r.value ==> !SameKey(es[j], e))
    ensures r.None? ==> forall j :: 0 <= j < |es| ==> !SameKey(es[j], e)
  {
    if es == [] then None
    else if SameKey(es[0], e) then Some(0)
    else match KeyIndex(es[1..], e)
      case Some(i) => Some(i + 1)
      case None => None
  }

  /** `match_fields_exists`: an entry of the same switch has the same match fields. */
  function MatchFieldsExists(m: Manager, table: string, e: Entry): (r: Result<bool>)
    ensures r.Ok? <==> table in m.tables
    ensures r.Ok? ==> (r.value <==> exists x :: x in m.tables[table] && SameKey(x, e))
    ensures r.Err? ==> r.error == TableNotFound
  {
    var es :- GetTableEntries(m, table);
    Ok(KeyIndex(es, e).Some?)
  }

  /** `entry_exists`: an identical entry is stored. */
  function EntryExists(m: Manager, table: string, e: Entry): (r: Result<bool>)
    ensures r.Ok? <==> table in m.tables
    ensures r.Ok? ==> (r.value <==> e in m.tables[table])
    ensures r.Err? ==> r.error == TableNotFound
  {
    var es :- GetTableEntries(m, table);
    Ok(e in es)
  }

  /** Drops the first entry with the key of `e` (the list `remove` of the source
      hits that entry, as anything equal to it has the same key). */
  function RemoveKey(es: seq<Entry>, e: Entry): (r: seq<Entry>)
    ensures KeyIndex(es, e).None? ==> r == es
    ensures KeyIndex(es, e).Some? ==> |r| == |es| - 1
    ensures forall x :: x in r ==> x in es
    ensures forall x :: x in es && !SameKey(x, e) ==> x in r
  {
    if es == [] then []
    else if SameKey(es[0], e) then es[1..]
    else
      var rest := RemoveKey(es[1..], e);
      assert forall x :: x in es <==> x == es[0] || x in es[1..];
      [es[0]] + rest
  }

  /** Keys are unique exactly when the head's key does not recur and the tail's
      keys are unique. */
  lemma UniqueKeysCons(es: seq<Entry>)
    requires es != []
    ensures UniqueKeys(es) <==> (forall y :: y in es[1..] ==> !SameKey(es[0], y)) && UniqueKeys(es[1..])
  {
    if (forall y :: y in es[1..] ==> !SameKey(es[0], y)) && UniqueKeys(es[1..]) {
      forall i, j | 0 <= i < j < |es| ensures !SameKey(es[i], es[j]) {
        if i == 0 {
          assert es[j] in es[1..];
        } else {
          assert es[i] == es[1..][i - 1] && es[j] == es[1..][j - 1];
        }
      }
    }
    if UniqueKeys(es) {
      forall y | y in es[1..] ensures !SameKey(es[0], y) {
        var k :| 0 <= k < |es[1..]| && es[1..][k] == y;
        assert es[k + 1] == y;
      }
      forall i, j | 0 <= i < j < |es[1..]| ensures !SameKey(es[1..][i], es[1..][j]) {
        assert es[1..][i] == es[i + 1] && es[1..][j] == es[j + 1];
      }
    }
  }

  /** Removing a key from a list with unique keys removes exactly the entries with
      that key and keeps the keys unique. */
  lemma {:induction false} RemoveKeyUnique(es: seq<Entry>, e: Entry)
    requires UniqueKeys(es)
    ensures UniqueKeys(RemoveKey(es, e))
    ensures forall x :: x in RemoveKey(es, e) <==> x in es && !SameKey(x, e)
  {
    if es != [] {
      UniqueKeysCons(es);
      RemoveKeyUnique(es[1..], e);
      if !SameKey(es[0], e) {
        var r := RemoveKey(es, e);
        assert r == [es[0]] + RemoveKey(es[1..], e);
        assert r[1..] == RemoveKey(es[1..], e);
        UniqueKeysCons(r);
      }
    }
  }

  /** `add_table_entry` on the stored list: append and one driver add. */
  function AddIn(es: seq<Entry>, table: string, e: Entry): (r: (seq<Entry>, seq<DriverOp>))
    ensures r.0 == es + [e] && r.1 == [Add(e.switch, table, e)]
  {
    (es + [e], [Add(e.switch, table, e)])
  }

  /** `__remove_table_entry` on the stored list: the first entry with the key is
      dropped and the driver is asked to delete `e` (the entry passed in, not the
      stored one); with no such entry, EntryNotFound and no driver call. */
  function RemoveIn(es: seq<Entry>, table: string, e: Entry): (r: Result<(seq<Entry>, seq<DriverOp>)>)
    ensures r.Ok? <==> exists x :: x in es && SameKey(x, e)
    ensures r.Err? ==> r.error == EntryNotFound
    ensures r.Ok? ==> (r.value.0 == RemoveKey(es, e) && |r.value.0| == |es| - 1
      && r.value.1 == [Delete(e.switch, table, e)])
  {
    if KeyIndex(es, e).None? then Err(EntryNotFound)
    else Ok((RemoveKey(es, e), [Delete(e.switch, table, e)]))
  }

  /** `update_entry` on the stored list: remove by key, then add. */
  function UpdateIn(es: seq<Entry>, table: string, e: Entry): (r: Result<(seq<Entry>, seq<DriverOp>)>)
    ensures r.Ok? <==> exists x :: x in es && SameKey(x, e)
    ensures r.Err? ==> r.error == EntryNotFound
    ensures r.Ok? ==> (r.value.0 == RemoveKey(es, e) + [e]
      && r.value.1 == [Delete(e.switch, table, e), Add(e.switch, table, e)])
  {
    var (es1, ops1) :- RemoveIn(es, table, e);
    var (es2, ops2) := AddIn(es1, table, e);
    Ok((es2, ops1 + ops2))
  }

  /** `handle_table_entry` on the stored list: the identical entry changes nothing
      and reports False; an entry with the same key is updated; a new key is
      added. The flag says whether anything was written. */
  function HandleIn(es: seq<Entry>, table: string, e: Entry): (r: (seq<Entry>, seq<DriverOp>, bool))
    ensures e in es ==> r == (es, [], false)
    ensures e !in es && (exists x :: x in es && SameKey(x, e)) ==>
      r.2 && r.1 == [Delete(e.switch, table, e), Add(e.switch, table, e)] && r.0 == RemoveKey(es, e) + [e]
    ensures (forall x :: x in es ==> !SameKey(x, e)) ==>
      r == (es + [e], [Add(e.switch, table, e)], true)
    ensures e in r.0
    ensures forall x :: x in r.0 ==> x == e || x in es
    ensures forall x :: x in es && !SameKey(x, e) ==> x in r.0
    ensures UniqueKeys(es) ==> UniqueKeys(r.0)
  {
    if e in es then (es, [], false)
    else if KeyIndex(es, e).Some? then
      var (es1, ops) := UpdateIn(es, table, e).value;
      assert UniqueKeys(es) ==> UniqueKeys(es1) by {
        if UniqueKeys(es) {
          RemoveKeyUnique(es, e);
          AppendFreshKey(RemoveKey(es, e), e);
        }
      }
      (es1, ops, true)
    else
      var (es1, ops) := AddIn(es, table, e);
      assert UniqueKeys(es) ==> UniqueKeys(es1) by {
        if UniqueKeys(es) {
          AppendFreshKey(es, e);
        }
      }
      (es1, ops, true)
  }

  lemma AppendFreshKey(es: seq<Entry>, e: Entry)
    requires UniqueKeys(es)
    requires forall x :: x in es ==> !SameKey(x, e)
    ensures UniqueKeys(es + [e])
  {
    var r := es + [e];
    forall i, j | 0 <= i < j < |r| ensures !SameKey(r[i], r[j]) {
      if j == |es| {
        assert r[i] in es;
      }
    }
  }

  /** `add_table_entry` */
  function AddTableEntry(m: Manager, table: string, e: Entry): (r: Result<(Manager, seq<DriverOp>)>)
    ensures r.Ok? <==> table in m.tables
    ensures r.Err? ==> r.error == TableNotFound
    ensures r.Ok? ==> (r.value.0.tables == m.tables[table := m.tables[table] + [e]]
      && r.value.1 == [Add(e.switch, table, e)])
  {
    var es :- GetTableEntries(m, table);
    var (es1, ops) := AddIn(es, table, e);
    Ok((m.(tables := m.tables[table := es1]), ops))
  }

  /** `__remove_table_entry` */
  function RemoveTableEntry(m: Manager, table: string, e: Entry): (r: Result<(Manager, seq<DriverOp>)>)
    ensures table !in m.tables ==> r == Err(TableNotFound)
    ensures table in m.tables ==> (r.Ok? <==> exists x :: x in m.tables[table] && SameKey(x, e))
    ensures table in m.tables && r.Err? ==> r.error == EntryNotFound
    ensures r.Ok? ==> (r.value.0.tables == m.tables[table := RemoveKey(m.tables[table], e)]
      && r.value.1 == [Delete(e.switch, table, e)])
  {
    var es :- GetTableEntries(m, table);
    var (es1, ops) :- RemoveIn(es, table, e);
    Ok((m.(tables := m.tables[table := es1]), ops))
  }

  /** `update_entry` */
  function UpdateEntry(m: Manager, table: string, e: Entry): (r: Result<(Manager, seq<DriverOp>)>)
    ensures table !in m.tables ==> r == Err(TableNotFound)
    ensures table in m.tables ==> (r.Ok? <==> exists x :: x in m.tables[table] && SameKey(x, e))
    ensures table in m.tables && r.Err? ==> r.error == EntryNotFound
    ensures r.Ok? ==> (r.value.0.tables == m.tables[table := RemoveKey(m.tables[table], e) + [e]]
      && r.value.1 == [Delete(e.switch, table, e), Add(e.switch, table, e)])
  {
    var es :- GetTableEntries(m, table);
    var (es1, ops) :- UpdateIn(es, table, e);
    Ok((m.(tables := m.tables[table := es1]), ops))
  }

  /** `handle_table_entry` */
  function HandleTableEntry(m: Manager, table: string, e: Entry): (r: Result<(Manager, seq<DriverOp>, bool)>)
    ensures r.Ok? <==> table in m.tables
    ensures r.Err? ==> r.error == TableNotFound
    ensures r.Ok? ==> ((
      var (es, ops, changed) := HandleIn(m.tables[table], table, e);
      && r.value.0 == m.(tables := m.tables[table := es])
      && r.value.1 == ops && r.value.2 == changed))
  {
    var es :- GetTableEntries(m, table);
    var (es1, ops, changed) := HandleIn(es, table, e);
    Ok((m.(tables := m.tables[table := es1]), ops, changed))
  }

  /** Handling the same entry twice: the second call writes nothing and reports
      False. */
  lemma HandleIdempotent(es: seq<Entry>, table: string, e: Entry)
    ensures var once := HandleIn(es, table, e).0;
      HandleIn(once, table, e) == (once, [], false)
  {
  }

  /** The entries of the switch whose match fields are not valid, in table order. */
  predicate Invalid(x: Entry, sw: string, valid: seq<Fields>) {
    x.switch == sw && x.matchFields !in valid
  }

  /** The stored list with the switch's invalid entries dropped. */
  function KeepValid(es: seq<Entry>, sw: string, valid: seq<Fields>): (r: seq<Entry>)
    ensures forall x :: x in r <==> x in es && !Invalid(x, sw, valid)
  {
    if es == [] then []
    else
      assert forall x :: x in es <==> x == es[0] || x in es[1..];
      (if Invalid(es[0], sw, valid) then [] else [es[0]]) + KeepValid(es[1..], sw, valid)
  }

  /** The loop of `remove_invalid_entries` over a snapshot `todo`: every entry
      whose match fields are not valid is removed by key. */
  function RemoveEach(es: seq<Entry>, table: string, todo: seq<Entry>, valid: seq<Fields>): (r: Result<(seq<Entry>, seq<DriverOp>)>)
    ensures r.Err? ==> r.error == EntryNotFound
    ensures r.Ok? ==> (forall op :: op in r.value.1 ==>
      op.Delete? && op.table == table && op.entry in todo && op.entry.matchFields !in valid
      && op.switch == op.entry.switch)
    ensures r.Ok? ==> forall x :: x in r.value.0 ==> x in es
    decreases |todo|
  {
    if todo == [] then Ok((es, []))
    else if todo[0].matchFields in valid then
      var r := RemoveEach(es, table, todo[1..], valid);
      assert forall x :: x in todo[1..] ==> x in todo;
      r
    else
      var (es1, ops1) :- RemoveIn(es, table, todo[0]);
      var (es2, ops2) :- RemoveEach(es1, table, todo[1..], valid);
      assert forall x :: x in todo[1..] ==> x in todo;
      Ok((es2, ops1 + ops2))
  }

  /** `remove_invalid_entries`: iterates a snapshot of the switch's entries and
      removes each one whose match fields are not in `valid`. */
  function RemoveInvalidEntries(m: Manager, table: string, sw: string, valid: seq<Fields>): (r: Result<(Manager, seq<DriverOp>)>)
    ensures table !in m.tables ==> r == Err(TableNotFound)
    ensures r.Ok? ==> table in m.tables && table in r.value.0.tables
    ensures r.Ok? ==> r.value.0 == m.(tables := m.tables[table := r.value.0.tables[table]])
    ensures r.Ok? ==> (forall op :: op in r.value.1 ==>
      op.Delete? && op.table == table && op.entry in m.tables[table] && Invalid(op.entry, sw, valid))
    ensures r.Ok? ==> table in r.value.0.tables && forall x :: x in r.value.0.tables[table] ==> x in m.tables[table]
  {
    var es :- GetTableEntries(m, table);
    var (es1, ops) :- RemoveEach(es, table, EntriesForSwitch(es, sw), valid);
    Ok((m.(tables := m.tables[table := es1]), ops))
  }

  /** Every entry of `todo` in `es`, and `y` too. */
  lemma {:induction false} KeepValidSnapshot(es: seq<Entry>, all: seq<Entry>, sw: string, valid: seq<Fields>)
    requires forall x :: x in es ==> x in all
    ensures Drop(es, EntriesForSwitch(all, sw), valid) == KeepValid(es, sw, valid)
  {
    if es != [] {
      KeepValidSnapshot(es[1..], all, sw, valid);
    }
  }

  /** `es` with the invalid entries of `todo` dropped. */
  function Drop(es: seq<Entry>, todo: seq<Entry>, valid: seq<Fields>): seq<Entry> {
    if es == [] then []
    else (if es[0] in todo && es[0].matchFields !in valid then [] else [es[0]]) + Drop(es[1..], todo, valid)
  }

  /** `es` without the entry `x`. */
  function Without(es: seq<Entry>, x: Entry): (r: seq<Entry>)
    ensures forall y :: y in r <==> y in es && y != x
  {
    if es == [] then []
    else
      assert forall y :: y in es <==> y == es[0] || y in es[1..];
      (if es[0] == x then [] else [es[0]]) + Without(es[1..], x)
  }

  /** In a list with unique keys, removing by the key of a stored entry removes
      just that entry. */
  lemma {:induction false} RemoveKeyIsWithout(es: seq<Entry>, x: Entry)
    requires UniqueKeys(es) && x in es
    ensures RemoveKey(es, x) == Without(es, x)
  {
    UniqueKeysCons(es);
    if es[0] == x {
      WithoutAbsent(es[1..], x);
    } else {
      assert x in es[1..];
      assert !SameKey(es[0], x);
      RemoveKeyIsWithout(es[1..], x);
    }
  }

  lemma {:induction false} WithoutAbsent(es: seq<Entry>, x: Entry)
    requires x !in es
    ensures Without(es, x) == es
  {
    if es != [] {
      WithoutAbsent(es[1..], x);
    }
  }

  lemma {:induction false} DropCons(es: seq<Entry>, x: Entry, rest: seq<Entry>, valid: seq<Fields>)
    ensures x.matchFields !in valid ==> Drop(Without(es, x), rest, valid) == Drop(es, [x] + rest, valid)
    ensures x.matchFields in valid ==> Drop(es, rest, valid) == Drop(es, [x] + rest, valid)
  {
    if es != [] {
      DropCons(es[1..], x, rest, valid);
      assert es[0] in [x] + rest <==> es[0] == x || es[0] in rest;
      if es[0] != x {
        var w := Without(es, x);
        assert w == [es[0]] + Without(es[1..], x);
        assert w[0] == es[0] && w[1..] == Without(es[1..], x);
        if x.matchFields !in valid {
          calc {
            Drop(w, rest, valid);
            (if es[0] in rest && es[0].matchFields !in valid then [] else [es[0]]) + Drop(Without(es[1..], x), rest, valid);
            (if es[0] in [x] + rest && es[0].matchFields !in valid then [] else [es[0]]) + Drop(es[1..], [x] + rest, valid);
            Drop(es, [x] + rest, valid);
          }
        }
      } else if x.matchFields !in valid {
        assert Without(es, x) == Without(es[1..], x);
      }
    }
  }

  lemma {:induction false} UniqueKeysWithout(es: seq<Entry>, x: Entry)
    requires UniqueKeys(es)
    ensures UniqueKeys(Without(es, x))
  {
    if es != [] {
      UniqueKeysCons(es);
      UniqueKeysWithout(es[1..], x);
      if es[0] != x {
        var r := Without(es, x);
        assert r[1..] == Without(es[1..], x);
        UniqueKeysCons(r);
      }
    }
  }

  /** The removal loop over a duplicate-free snapshot of stored entries, on a list
      with unique keys, never fails and leaves exactly `Drop`. */
  lemma {:induction false} RemoveEachExact(es: seq<Entry>, table: string, todo: seq<Entry>, valid: seq<Fields>)
    requires UniqueKeys(es) && NoDuplicates(todo)
    requires forall x :: x in todo ==> x in es
    ensures RemoveEach(es, table, todo, valid).Ok?
    ensures RemoveEach(es, table, todo, valid).value.0 == Drop(es, todo, valid)
    decreases |todo|
  {
    if todo == [] {
      DropNone(es, valid);
    } else {
      var x := todo[0];
      assert forall y :: y in todo[1..] ==> y in todo && y != x;
      if x.matchFields in valid {
        RemoveEachExact(es, table, todo[1..], valid);
        DropCons(es, x, todo[1..], valid);
        assert todo == [x] + todo[1..];
      } else {
        RemoveKeyIsWithout(es, x);
        var es1 := Without(es, x);
        UniqueKeysWithout(es, x);
        RemoveEachExact(es1, table, todo[1..], valid);
        DropCons(es, x, todo[1..], valid);
        assert todo == [x] + todo[1..];
      }
    }
  }

  lemma {:induction false} DropNone(es: seq<Entry>, valid: seq<Fields>)
    ensures Drop(es, [], valid) == es
  {
    if es != [] {
      DropNone(es[1..], valid);
    }
  }

  lemma {:induction false} EntriesForSwitchNoDuplicates(es: seq<Entry>, sw: string)
    requires UniqueKeys(es)
    ensures NoDuplicates(EntriesForSwitch(es, sw))
  {
    if es != [] {
      UniqueKeysCons(es);
      EntriesForSwitchNoDuplicates(es[1..], sw);
      var rest := EntriesForSwitch(es[1..], sw);
      var r := EntriesForSwitch(es, sw);
      if es[0].switch == sw {
        assert es[0] !in rest;
        assert r == [es[0]] + rest;
        NoDuplicatesCons(es[0], rest);
      }
    }
  }

  /** `remove_invalid_entries` on a table with unique keys deletes exactly the
      switch's entries whose match fields are not valid: entries of other
      switches and valid entries stay, in order. */
  lemma RemoveInvalidExact(m: Manager, table: string, sw: string, valid: seq<Fields>)
    requires table in m.tables && UniqueKeys(m.tables[table])
    ensures RemoveInvalidEntries(m, table, sw, valid).Ok?
    ensures RemoveInvalidEntries(m, table, sw, valid).value.0.tables[table] == KeepValid(m.tables[table], sw, valid)
  {
    var es := m.tables[table];
    EntriesForSwitchNoDuplicates(es, sw);
    RemoveEachExact(es, table, EntriesForSwitch(es, sw), valid);
    KeepValidSnapshot(es, es, sw, valid);
  }

  /** The match fields of a list of entries, in order. */
  function MatchKeys(gen: seq<Entry>): (r: seq<Fields>)
    ensures |r| == |gen| && forall i :: 0 <= i < |gen| ==> r[i] == gen[i].matchFields
  {
    if gen == [] then [] else [gen[0].matchFields] + MatchKeys(gen[1..])
  }

  /** A controller's pass: `handle_table_entry` for each computed entry in turn. */
  function HandleAll(es: seq<Entry>, table: string, gen: seq<Entry>): (r: (seq<Entry>, seq<DriverOp>))
    ensures gen == [] ==> r == (es, [])
    ensures forall op :: op in r.1 ==> op.table == table && op.entry in gen && op.switch == op.entry.switch
    decreases |gen|
  {
    if gen == [] then (es, [])
    else
      var (es1, ops1, _) := HandleIn(es, table, gen[0]);
      var (es2, ops2) := HandleAll(es1, table, gen[1..]);
      assert forall g :: g in gen[1..] ==> g in gen;
      (es2, ops1 + ops2)
  }

  /** After a pass over entries with distinct keys, every computed entry is stored,
      every stored entry was computed or stored before, stored entries whose key
      nothing computed survive, and keys stay unique. */
  lemma {:induction false} HandleAllFacts(es: seq<Entry>, table: string, gen: seq<Entry>)
    requires UniqueKeys(es) && UniqueKeys(gen)
    ensures var es1 := HandleAll(es, table, gen).0;
      && UniqueKeys(es1)
      && (forall g :: g in gen ==> g in es1)
      && (forall x :: x in es1 ==> x in gen || x in es)
      && (forall x :: x in es && (forall g :: g in gen ==> !SameKey(x, g)) ==> x in es1)
    decreases |gen|
  {
    if gen != [] {
      UniqueKeysCons(gen);
      var es0 := HandleIn(es, table, gen[0]).0;
      var es1 := HandleAll(es, table, gen).0;
      HandleAllFacts(es0, table, gen[1..]);
      assert es1 == HandleAll(es0, table, gen[1..]).0;
      assert forall g :: g in gen <==> g == gen[0] || g in gen[1..];
      assert gen[0] in es1 by {
        assert gen[0] in es0;
        assert forall g :: g in gen[1..] ==> !SameKey(gen[0], g);
      }
      forall x | x in es && (forall g :: g in gen ==> !SameKey(x, g)) ensures x in es1 {
        assert !SameKey(x, gen[0]);
        assert x in es0;
      }
    }
  }

  /** A pass keeps keys unique. */
  lemma {:induction false} HandleAllUnique(es: seq<Entry>, table: string, gen: seq<Entry>)
    requires UniqueKeys(es)
    ensures UniqueKeys(HandleAll(es, table, gen).0)
    decreases |gen|
  {
    if gen != [] {
      HandleAllUnique(HandleIn(es, table, gen[0]).0, table, gen[1..]);
    }
  }

  /** A pass over entries that are all stored already writes nothing. */
  lemma {:induction false} HandleAllStored(es: seq<Entry>, table: string, gen: seq<Entry>)
    requires forall g :: g in gen ==> g in es
    ensures HandleAll(es, table, gen) == (es, [])
    decreases |gen|
  {
    if gen != [] {
      assert gen[0] in gen;
      assert forall g :: g in gen[1..] ==> g in gen;
      assert HandleIn(es, table, gen[0]) == (es, [], false);
      HandleAllStored(es, table, gen[1..]);
      var none: seq<DriverOp> := [];
      assert none + none == none;
    }
  }

  /** The removal loop over a snapshot with no invalid entry removes nothing. */
  lemma {:induction false} RemoveEachNothingInvalid(es: seq<Entry>, table: string, todo: seq<Entry>, valid: seq<Fields>)
    requires forall x :: x in todo ==> x.matchFields in valid
    ensures RemoveEach(es, table, todo, valid) == Ok((es, []))
    decreases |todo|
  {
    if todo != [] {
      assert todo[0] in todo;
      assert forall x :: x in todo[1..] ==> x in todo;
      RemoveEachNothingInvalid(es, table, todo[1..], valid);
    }
  }

  /** A controller's full reconciliation of one switch's entries in one table:
      handle every computed entry, then remove the switch's entries whose match
      fields were not computed. */
  function Reconcile(m: Manager, table: string, sw: string, gen: seq<Entry>): (r: Result<(Manager, seq<DriverOp>)>)
    ensures r.Ok? ==> table in m.tables && table in r.value.0.tables
    ensures table !in m.tables ==> r == Err(TableNotFound)
  {
    var es :- GetTableEntries(m, table);
    var pass := HandleAll(es, table, gen);
    var purge :- RemoveInvalidEntries(m.(tables := m.tables[table := pass.0]), table, sw, MatchKeys(gen));
    Ok((purge.0, pass.1 + purge.1))
  }

  /** Reconciliation converges: starting from a table with unique keys and
      computing entries for `sw` with distinct keys, the switch's stored entries
      become exactly the computed ones, other switches' entries are untouched,
      keys stay unique, and running the same reconciliation again writes
      nothing. */
  lemma {:induction false} ReconcileConverges(m: Manager, table: string, sw: string, gen: seq<Entry>)
    requires table in m.tables && UniqueKeys(m.tables[table])
    requires UniqueKeys(gen) && forall g :: g in gen ==> g.switch == sw
    ensures Reconcile(m, table, sw, gen).Ok?
    ensures var m1 := Reconcile(m, table, sw, gen).value.0;
      && UniqueKeys(m1.tables[table])
      && (forall x :: x in m1.tables[table] && x.switch == sw <==> x in gen)
      && (forall x: Entry :: x.switch != sw ==> (x in m1.tables[table] <==> x in m.tables[table]))
      && Reconcile(m1, table, sw, gen) == Ok((m1, []))
  {
    var es := m.tables[table];
    var es1 := HandleAll(es, table, gen).0;
    var fin := KeepValid(es1, sw, MatchKeys(gen));
    ReconcileTable(m, table, sw, gen);
    HandleAllFacts(es, table, gen);
    SwitchEntriesAreComputed(es, es1, sw, gen);
    ReconcileStable(m.(tables := m.tables[table := fin]), table, sw, gen);
  }

  /** The table after one reconciliation, on a table with unique keys. */
  lemma ReconcileTable(m: Manager, table: string, sw: string, gen: seq<Entry>)
    requires table in m.tables && UniqueKeys(m.tables[table]) && UniqueKeys(gen)
    ensures Reconcile(m, table, sw, gen).Ok?
    ensures Reconcile(m, table, sw, gen).value.0 ==
      m.(tables := m.tables[table := KeepValid(HandleAll(m.tables[table], table, gen).0, sw, MatchKeys(gen))])
  {
    var es1 := HandleAll(m.tables[table], table, gen).0;
    HandleAllUnique(m.tables[table], table, gen);
    var mid := m.(tables := m.tables[table := es1]);
    RemoveInvalidExact(mid, table, sw, MatchKeys(gen));
    var r := RemoveInvalidEntries(mid, table, sw, MatchKeys(gen));
    assert Reconcile(m, table, sw, gen) == Ok((r.value.0, HandleAll(m.tables[table], table, gen).1 + r.value.1));
  }

  /** After the pass and the purge, the switch's entries are exactly the computed
      ones and the rest are the ones stored before. */
  lemma SwitchEntriesAreComputed(es: seq<Entry>, es1: seq<Entry>, sw: string, gen: seq<Entry>)
    requires UniqueKeys(es1) && forall g :: g in gen ==> g.switch == sw && g in es1
    requires forall x :: x in es1 ==> x in gen || x in es
    requires forall x :: x in es && (forall g :: g in gen ==> !SameKey(x, g)) ==> x in es1
    ensures var fin := KeepValid(es1, sw, MatchKeys(gen));
      && UniqueKeys(fin)
      && (forall x :: x in fin && x.switch == sw <==> x in gen)
      && (forall x: Entry :: x.switch != sw ==> (x in fin <==> x in es))
  {
    var keys := MatchKeys(gen);
    var fin := KeepValid(es1, sw, keys);
    KeepValidUnique(es1, sw, keys);
    forall x | x in fin && x.switch == sw ensures x in gen {
      var i :| 0 <= i < |keys| && keys[i] == x.matchFields;
      assert gen[i] in gen && SameKey(gen[i], x);
      UniqueKeysSameKey(es1, gen[i], x);
    }
    forall g | g in gen ensures g in fin {
      var i :| 0 <= i < |gen| && gen[i] == g;
      assert keys[i] == g.matchFields;
    }
    forall x: Entry | x.switch != sw && x in es ensures x in fin {
      assert forall g :: g in gen ==> !SameKey(x, g);
    }
  }

  /** A table whose switch entries are exactly the computed ones is a fixed point
      of reconciliation with no driver call. */
  lemma ReconcileStable(m: Manager, table: string, sw: string, gen: seq<Entry>)
    requires table in m.tables
    requires forall x :: x in m.tables[table] && x.switch == sw <==> x in gen
    ensures Reconcile(m, table, sw, gen) == Ok((m, []))
  {
    var es := m.tables[table];
    var keys := MatchKeys(gen);
    HandleAllStored(es, table, gen);
    assert m.(tables := m.tables[table := es]) == m;
    forall x | x in es && x.switch == sw ensures x.matchFields in keys {
      var i :| 0 <= i < |gen| && gen[i] == x;
      assert keys[i] == x.matchFields;
    }
    RemoveInvalidNone(m, table, sw, keys);
    var none: seq<DriverOp> := [];
    assert none + none == none;
  }

  /** A purge with a valid list that covers every entry of the switch removes
      nothing. */
  lemma RemoveInvalidNone(m: Manager, table: string, sw: string, valid: seq<Fields>)
    requires table in m.tables
    requires forall x :: x in m.tables[table] && x.switch == sw ==> x.matchFields in valid
    ensures RemoveInvalidEntries(m, table, sw, valid) == Ok((m, []))
  {
    var es := m.tables[table];
    RemoveEachNothingInvalid(es, table, EntriesForSwitch(es, sw), valid);
    assert m.(tables := m.tables[table := es]) == m;
  }

  /** Two stored entries of a list with unique keys that share a key are equal. */
  lemma UniqueKeysSameKey(es: seq<Entry>, a: Entry, b: Entry)
    requires UniqueKeys(es) && a in es && b in es && SameKey(a, b)
    ensures a == b
  {
    var i :| 0 <= i < |es| && es[i] == a;
    var j :| 0 <= j < |es| && es[j] == b;
    assert SameKey(es[i], es[j]);
    assert i == j;
  }

  lemma {:induction false} KeepValidUnique(es: seq<Entry>, sw: string, valid: seq<Fields>)
    requires UniqueKeys(es)
    ensures UniqueKeys(KeepValid(es, sw, valid))
  {
    if es != [] {
      UniqueKeysCons(es);
      KeepValidUnique(es[1..], sw, valid);
      var r := KeepValid(es, sw, valid);
      if !Invalid(es[0], sw, valid) {
        assert r == [es[0]] + KeepValid(es[1..], sw, valid);
        assert r[1..] == KeepValid(es[1..], sw, valid);
        UniqueKeysCons(r);
      }
    }
  }

  /** The entries a computation produced, and the exception that stopped it. */
  datatype Gen = Gen(entries: seq<Entry>, failure: Option<Error>)

  /** `f` followed by `g`, unless `f` stopped with an exception. */
  function Then(f: Gen, g: Gen): (r: Gen)
    ensures f.failure.Some? ==> r == f
    ensures f.failure.None? ==> r.entries == f.entries + g.entries && r.failure == g.failure
  {
    if f.failure.Some? then f else Gen(f.entries + g.entries, g.failure)
  }

  /** Every entry is meant for the switch. */
  predicate ForSwitch(es: seq<Entry>, switch: string) {
    forall e :: e in es ==> e.switch == switch
  }

  /** How every controller drives the engine: it handles each computed entry as
      it goes and, once all are computed, purges the switch's entries whose match
      fields it did not compute. `failure` is the exception that stopped the
      computation after `gen`, if any: the entries handled before it stay and
      nothing is purged. An uninitialised table fails at the first handled
      entry, or at the purge when there is none. */
  function Sync(m: Manager, table: string, sw: string, gen: seq<Entry>, failure: Option<Error>): (r: (Manager, seq<DriverOp>, Option<Error>))
    ensures table !in m.tables ==> r == (m, [], Some(if gen == [] then failure.GetOr(TableNotFound) else TableNotFound))
    ensures table in m.tables && failure.None? ==> (r.2.None? <==> Reconcile(m, table, sw, gen).Ok?)
    ensures table in m.tables && failure.None? && r.2.None? ==> Reconcile(m, table, sw, gen) == Ok((r.0, r.1))
    ensures table in m.tables && failure.Some? ==> (r.2 == failure && table in r.0.tables
      && forall x :: x in m.tables[table] && (forall g :: g in gen ==> !SameKey(x, g)) ==> x in r.0.tables[table])
  {
    if table !in m.tables then (m, [], Some(if gen == [] then failure.GetOr(TableNotFound) else TableNotFound))
    else
      var pass := HandleAll(m.tables[table], table, gen);
      var m1 := m.(tables := m.tables[table := pass.0]);
      if failure.Some? then
        HandleAllKeeps(m.tables[table], table, gen);
        (m1, pass.1, failure)
      else
        match RemoveInvalidEntries(m1, table, sw, MatchKeys(gen))
        case Ok(purge) => (purge.0, pass.1 + purge.1, None)
        case Err(e) => (m1, pass.1, Some(e))
  }

  /** A pass keeps every stored entry whose key it does not compute. */
  lemma {:induction false} HandleAllKeeps(es: seq<Entry>, table: string, gen: seq<Entry>)
    ensures forall x :: x in es && (forall g :: g in gen ==> !SameKey(x, g)) ==> x in HandleAll(es, table, gen).0
    decreases |gen|
  {
    if gen != [] {
      var es0 := HandleIn(es, table, gen[0]).0;
      HandleAllKeeps(es0, table, gen[1..]);
      forall x | x in es && (forall g :: g in gen ==> !SameKey(x, g)) ensures x in HandleAll(es, table, gen).0 {
        assert gen[0] in gen;
        assert x in es0;
        assert forall g :: g in gen[1..] ==> g in gen;
      }
    }
  }

  /** A complete controller pass converges: the switch's entries become exactly
      the computed ones, other switches keep theirs, and the same pass over the
      result writes nothing. */
  lemma SyncConverges(m: Manager, table: string, sw: string, gen: seq<Entry>)
    requires table in m.tables && UniqueKeys(m.tables[table])
    requires UniqueKeys(gen) && forall g :: g in gen ==> g.switch == sw
    ensures var r := Sync(m, table, sw, gen, None);
      && r.2.None? && table in r.0.tables
      && UniqueKeys(r.0.tables[table])
      && (forall x :: x in r.0.tables[table] && x.switch == sw <==> x in gen)
      && (forall x: Entry :: x.switch != sw ==> (x in r.0.tables[table] <==> x in m.tables[table]))
      && Sync(r.0, table, sw, gen, None) == (r.0, [], None)
  {
    ReconcileConverges(m, table, sw, gen);
    var m1 := Reconcile(m, table, sw, gen).value.0;
    var none: seq<DriverOp> := [];
    assert none + none == none;
  }

  /** When a pass computes several entries with the same key, the last one is
      the one left stored. */
  lemma {:induction false} HandleAllLastWins(es: seq<Entry>, table: string, gen: seq<Entry>, i: int)
    requires 0 <= i < |gen| && forall j :: i < j < |gen| ==> !SameKey(gen[j], gen[i])
    ensures gen[i] in HandleAll(es, table, gen).0
    decreases |gen|
  {
    var es0 := HandleIn(es, table, gen[0]).0;
    if i == 0 {
      HandleAllKeeps(es0, table, gen[1..]);
      forall g | g in gen[1..] ensures !SameKey(gen[0], g) {
        var j :| 0 <= j < |gen[1..]| && gen[1..][j] == g;
        assert gen[j + 1] == g;
      }
    } else {
      HandleAllLastWins(es0, table, gen[1..], i - 1);
    }
  }

  /** After a complete pass over a table with unique keys, the last computed
      entry of every key is stored. */
  lemma SyncLastWins(m: Manager, table: string, sw: string, gen: seq<Entry>, i: int)
    requires table in m.tables && UniqueKeys(m.tables[table])
    requires 0 <= i < |gen| && forall j :: i < j < |gen| ==> !SameKey(gen[j], gen[i])
    ensures Sync(m, table, sw, gen, None).2.None?
    ensures gen[i] in Sync(m, table, sw, gen, None).0.tables[table]
  {
    var es1 := HandleAll(m.tables[table], table, gen).0;
    HandleAllLastWins(m.tables[table], table, gen, i);
    HandleAllUnique(m.tables[table], table, gen);
    var m1 := m.(tables := m.tables[table := es1]);
    RemoveInvalidExact(m1, table, sw, MatchKeys(gen));
    assert MatchKeys(gen)[i] == gen[i].matchFields;
  }

  /** A pass stores nothing but computed entries and entries stored before. */
  lemma {:induction false} HandleAllFrom(es: seq<Entry>, table: string, gen: seq<Entry>)
    ensures forall x :: x in HandleAll(es, table, gen).0 ==> x in gen || x in es
    decreases |gen|
  {
    if gen != [] {
      HandleAllFrom(HandleIn(es, table, gen[0]).0, table, gen[1..]);
      assert forall g :: g in gen[1..] ==> g in gen;
    }
  }

  /** `handle_table_entry` for each entry in turn, with no purge afterwards. An
      uninitialised table raises TableNotFound at the first entry. */
  function HandleEntries(m: Manager, table: string, gen: seq<Entry>): (r: (Manager, seq<DriverOp>, Option<Error>))
    ensures table !in m.tables ==> r == (m, [], if gen == [] then None else Some(TableNotFound))
    ensures table in m.tables ==> r.2.None? && table in r.0.tables && r.0 == m.(tables := m.tables[table := r.0.tables[table]])
    ensures table in m.tables ==> forall i :: 0 <= i < |gen| && (forall j :: i < j < |gen| ==> !SameKey(gen[j], gen[i])) ==>
      gen[i] in r.0.tables[table]
    ensures table in m.tables ==> forall x :: x in m.tables[table] && (forall g :: g in gen ==> !SameKey(x, g)) ==>
      x in r.0.tables[table]
    ensures table in m.tables ==> forall x :: x in r.0.tables[table] ==> x in gen || x in m.tables[table]
    ensures table in m.tables && UniqueKeys(m.tables[table]) ==> UniqueKeys(r.0.tables[table])
  {
    if table !in m.tables then (m, [], if gen == [] then None else Some(TableNotFound))
    else
      var es := m.tables[table];
      var pass := HandleAll(es, table, gen);
      assert forall i :: 0 <= i < |gen| && (forall j :: i < j < |gen| ==> !SameKey(gen[j], gen[i])) ==> gen[i] in pass.0 by {
        forall i | 0 <= i < |gen| && (forall j :: i < j < |gen| ==> !SameKey(gen[j], gen[i])) ensures gen[i] in pass.0 {
          HandleAllLastWins(es, table, gen, i);
        }
      }
      HandleAllKeeps(es, table, gen);
      HandleAllFrom(es, table, gen);
      assert UniqueKeys(es) ==> UniqueKeys(pass.0) by {
        if UniqueKeys(es) {
          HandleAllUnique(es, table, gen);
        }
      }
      (m.(tables := m.tables[table := pass.0]), pass.1, None)
  }

  /** A complete pass over one switch's entries leaves every other switch's
      entries as they were. */
  lemma SyncOtherSwitches(m: Manager, table: string, sw: string, gen: seq<Entry>, failure: Option<Error>)
    requires table in m.tables && UniqueKeys(m.tables[table])
    requires ForSwitch(gen, sw)
    ensures var r := Sync(m, table, sw, gen, failure);
      table in r.0.tables && forall x: Entry :: x.switch != sw ==> (x in r.0.tables[table] <==> x in m.tables[table])
  {
    var es := m.tables[table];
    var es1 := HandleAll(es, table, gen).0;
    HandleAllKeeps(es, table, gen);
    HandleAllFrom(es, table, gen);
    HandleAllUnique(es, table, gen);
    RemoveInvalidExact(m.(tables := m.tables[table := es1]), table, sw, MatchKeys(gen));
  }

  /** No later computed entry shares the key of `gen[i]`. */
  predicate LastOfKey(gen: seq<Entry>, i: int)
    requires 0 <= i < |gen|
  {
    forall k :: i < k < |gen| ==> !SameKey(gen[k], gen[i])
  }

  /** The position of the last computed entry sharing the key of `gen[j]`. */
  function LastIndex(gen: seq<Entry>, j: int): (i: int)
    requires 0 <= j < |gen|
    ensures j <= i < |gen| && SameKey(gen[i], gen[j]) && LastOfKey(gen, i)
    decreases |gen|
  {
    var n := |gen| - 1;
    if n == j || SameKey(gen[n], gen[j]) then n
    else
      var i := LastIndex(gen[..n], j);
      assert forall k :: i < k < n ==> gen[k] == gen[..n][k];
      i
  }

  /** `x` is the last computed entry of its key: the one a pass leaves stored. */
  ghost predicate Final(gen: seq<Entry>, x: Entry) {
    exists i :: 0 <= i < |gen| && gen[i] == x && LastOfKey(gen, i)
  }

  /** A complete pass over one switch's entries on a table with unique keys
      succeeds and leaves exactly the last computed entry of every key for that
      switch; other switches keep theirs. */
  lemma SyncExact(m: Manager, table: string, sw: string, gen: seq<Entry>)
    requires table in m.tables && UniqueKeys(m.tables[table])
    requires ForSwitch(gen, sw)
    ensures var r := Sync(m, table, sw, gen, None);
      && r.2.None? && table in r.0.tables && UniqueKeys(r.0.tables[table])
      && (forall x: Entry :: x.switch == sw ==> (x in r.0.tables[table] <==> Final(gen, x)))
      && (forall x: Entry :: x.switch != sw ==> (x in r.0.tables[table] <==> x in m.tables[table]))
  {
    var es1 := HandleAll(m.tables[table], table, gen).0;
    var keys := MatchKeys(gen);
    HandleAllUnique(m.tables[table], table, gen);
    KeepValidUnique(es1, sw, keys);
    var m1 := m.(tables := m.tables[table := es1]);
    RemoveInvalidExact(m1, table, sw, keys);
    SyncOtherSwitches(m, table, sw, gen, None);
    var fin := Sync(m, table, sw, gen, None).0.tables[table];
    assert fin == KeepValid(es1, sw, keys);
    forall x: Entry | x.switch == sw ensures x in fin <==> Final(gen, x) {
      if Final(gen, x) {
        var i :| 0 <= i < |gen| && gen[i] == x && LastOfKey(gen, i);
        SyncLastWins(m, table, sw, gen, i);
      }
      if x in fin {
        var j :| 0 <= j < |keys| && keys[j] == x.matchFields;
        var i := LastIndex(gen, j);
        SyncLastWins(m, table, sw, gen, i);
        assert gen[i] in gen;
        UniqueKeysSameKey(fin, gen[i], x);
      }
    }
  }

  /** The final entries of two computations with no key in common are those of
      each. */
  lemma FinalConcat(a: seq<Entry>, b: seq<Entry>, x: Entry)
    requires forall p, q :: p in a && q in b ==> !SameKey(p, q)
    ensures Final(a + b, x) <==> Final(a, x) || Final(b, x)
  {
    if Final(a + b, x) {
      FinalConcatSplit(a, b, x);
    }
    if Final(a, x) {
      FinalConcatLeft(a, b, x);
    }
    if Final(b, x) {
      FinalConcatRight(a, b, x);
    }
  }

  /** A final entry of a concatenation is final in the part it comes from. */
  lemma FinalConcatSplit(a: seq<Entry>, b: seq<Entry>, x: Entry)
    requires Final(a + b, x)
    ensures Final(a, x) || Final(b, x)
  {
    var ab := a + b;
    var i :| 0 <= i < |ab| && ab[i] == x && LastOfKey(ab, i);
    if i < |a| {
      assert a[i] == x;
      assert LastOfKey(a, i) by {
        forall k | i < k < |a| ensures !SameKey(a[k], a[i]) {
          assert ab[k] == a[k];
        }
      }
    } else {
      assert b[i - |a|] == x;
      assert LastOfKey(b, i - |a|) by {
        forall k | i - |a| < k < |b| ensures !SameKey(b[k], b[i - |a|]) {
          assert ab[k + |a|] == b[k];
        }
      }
    }
  }

  /** A final entry of the first part stays final when no key of the second
      part matches it. */
  lemma FinalConcatLeft(a: seq<Entry>, b: seq<Entry>, x: Entry)
    requires forall p, q :: p in a && q in b ==> !SameKey(p, q)
    requires Final(a, x)
    ensures Final(a + b, x)
  {
    var ab := a + b;
    var i :| 0 <= i < |a| && a[i] == x && LastOfKey(a, i);
    assert ab[i] == x;
    forall k | i < k < |ab| ensures !SameKey(ab[k], ab[i]) {
      if k >= |a| {
        assert ab[k] == b[k - |a|];
        assert b[k - |a|] in b && a[i] in a;
      } else {
        assert ab[k] == a[k];
      }
    }
    assert LastOfKey(ab, i);
  }

  /** A final entry of the second part stays final after anything. */
  lemma FinalConcatRight(a: seq<Entry>, b: seq<Entry>, x: Entry)
    requires Final(b, x)
    ensures Final(a + b, x)
  {
    var ab := a + b;
    var i :| 0 <= i < |b| && b[i] == x && LastOfKey(b, i);
    assert ab[i + |a|] == x;
    forall k | i + |a| < k < |ab| ensures !SameKey(ab[k], ab[i + |a|]) {
      assert ab[k] == b[k - |a|];
    }
    assert LastOfKey(ab, i + |a|);
  }

  /** Among computed entries that all share one key, only the last is final. */
  lemma FinalUniform(a: seq<Entry>, x: Entry)
    requires a != [] && forall i, j :: 0 <= i < |a| && 0 <= j < |a| ==> SameKey(a[i], a[j])
    ensures Final(a, x) <==> x == a[|a| - 1]
  {
    if Final(a, x) {
      var i :| 0 <= i < |a| && a[i] == x && LastOfKey(a, i);
      OnlyLastOfKey(a, i);
    }
    if x == a[|a| - 1] {
      assert LastOfKey(a, |a| - 1);
    }
  }

  /** When all entries share one key, only the last position is the last of
      its key. */
  lemma OnlyLastOfKey(a: seq<Entry>, i: int)
    requires 0 <= i < |a| && forall p, q :: 0 <= p < |a| && 0 <= q < |a| ==> SameKey(a[p], a[q])
    ensures LastOfKey(a, i) ==> i == |a| - 1
  {
    if i < |a| - 1 {
      assert SameKey(a[|a| - 1], a[i]);
    }
  }

  /** A block of entries sharing one key, followed by entries with other keys:
      the block contributes only its last entry to the final ones. */
  lemma FinalPrepend(first: seq<Entry>, rest: seq<Entry>, x: Entry)
    requires first != [] && forall i, j :: 0 <= i < |first| && 0 <= j < |first| ==> SameKey(first[i], first[j])
    requires forall p, q :: p in first && q in rest ==> !SameKey(p, q)
    ensures Final(first + rest, x) <==> x == first[|first| - 1] || Final(rest, x)
  {
    FinalConcat(first, rest, x);
    FinalUniform(first, x);
  }

  /** When computed entries that share a key are identical, every computed
      entry is final. */
  lemma FinalAll(gen: seq<Entry>, x: Entry)
    requires forall i, j :: 0 <= i < |gen| && 0 <= j < |gen| && SameKey(gen[i], gen[j]) ==> gen[i] == gen[j]
    ensures Final(gen, x) <==> x in gen
  {
    if x in gen {
      var j :| 0 <= j < |gen| && gen[j] == x;
      var i := LastIndex(gen, j);
    }
  }
}
