/** The local controller's `MacController`: one layer-2 rewrite rule per
    neighbour of the switch, keyed on the egress port towards it. */
module MacController {
  import opened Wrappers
  import opened Seqs
  import D = Devices
  import TM = TopologyManager
  import G = TableEntryManager
  import L = LocalTableEntryManager

  const MacTable := "egress.mac_c.adjust_mac"
  const EgressPort := "standard_metadata.egress_port"

  /** The rewrite rule for a neighbour behind `port`: source MAC the switch's own,
      destination MAC the neighbour's. */
  function MacEntry(port: int, src: string, dst: string): L.Entry {
    L.Entry(map[EgressPort := G.Int(port)], "egress.mac_c.set_mac",
      map["srcAddr" := G.Str(src), "dstAddr" := G.Str(dst)], None)
  }

  /** Every neighbour in the binding list is a registered device. */
  predicate NeighboursRegistered(s: TM.Store, pm: D.PortMap) {
    forall i :: 0 <= i < |pm| ==> TM.ExistsDevice(s, pm[i].neighbour)
  }

  /** The rule for one binding of the switch's neighbour map. */
  function NeighbourRule(s: TM.Store, self: D.Device, b: D.Binding): L.Entry
    requires TM.ExistsDevice(s, b.neighbour)
  {
    MacEntry(b.port, self.mac, TM.GetDevice(s, b.neighbour).value.mac)
  }

  /** The loop of `update_mac_entry` over the neighbour map: a neighbour missing
      from the registry raises DeviceNotFound, after the rules of the earlier
      neighbours. */
  function RulesFor(s: TM.Store, self: D.Device, pm: D.PortMap): (r: (seq<L.Entry>, Option<Error>))
    ensures r.1.None? <==> NeighboursRegistered(s, pm)
    ensures r.1.Some? ==> r.1 == Some(DeviceNotFound)
    ensures r.1.None? ==> |r.0| == |pm| && forall i :: 0 <= i < |pm| ==> r.0[i] == NeighbourRule(s, self, pm[i])
    decreases |pm|
  {
    if pm == [] then ([], None)
    else match TM.GetDevice(s, pm[0].neighbour)
      case Err(e) => ([], Some(e))
      case Ok(dev) =>
        var (rest, f) := RulesFor(s, self, pm[1..]);
        assert NeighboursRegistered(s, pm) <==> TM.ExistsDevice(s, pm[0].neighbour) && NeighboursRegistered(s, pm[1..]) by {
          assert forall i :: 0 < i < |pm| ==> pm[i] == pm[1..][i - 1];
        }
        ([MacEntry(pm[0].port, self.mac, dev.mac)] + rest, f)
  }

  /** The rule set of `update_mac_entry` and whether its computation failed. */
  function MacRules(s: TM.Store, me: string): (r: (seq<L.Entry>, Option<Error>))
    ensures !TM.ExistsDevice(s, me) ==> r == ([], Some(DeviceNotFound))
    ensures TM.ExistsDevice(s, me) ==> r == RulesFor(s, TM.GetDevice(s, me).value, TM.GetDevice(s, me).value.ports)
  {
    match TM.GetDevice(s, me)
    case Err(e) => ([], Some(e))
    case Ok(self) => RulesFor(s, self, self.ports)
  }

  /** `update_mac_entry`: handle every rule, then, if nothing failed, purge the
      rules whose egress port was not generated. */
  function UpdateMacEntry(m: L.Manager, s: TM.Store, me: string): (r: (L.Manager, seq<L.DriverOp>, Option<Error>))
    ensures MacTable !in m.tables ==> r.0 == m && r.1 == [] && r.2.Some?
    ensures !TM.ExistsDevice(s, me) ==> r.2 == Some(DeviceNotFound)
    ensures TM.ExistsDevice(s, me) && !NeighboursRegistered(s, TM.GetDevice(s, me).value.ports) ==> r.2.Some?
    ensures forall op :: op in r.1 ==> op.table == MacTable
  {
    var (es, failure) := MacRules(s, me);
    L.Sync(m, MacTable, es, failure)
  }

  /** Distinct egress ports give distinct keys. */
  lemma {:induction false} RulesKeysDistinct(s: TM.Store, self: D.Device, pm: D.PortMap)
    requires NeighboursRegistered(s, pm) && NoDuplicates(D.Ports(pm))
    ensures L.UniqueKeys(RulesFor(s, self, pm).0)
  {
    var es := RulesFor(s, self, pm).0;
    forall i, j | 0 <= i < j < |es| ensures es[i].matchFields != es[j].matchFields {
      RuleKeysApart(s, self, pm, i, j);
    }
  }

  /** The rules of two bindings are keyed on their two ports. */
  lemma RuleKeysApart(s: TM.Store, self: D.Device, pm: D.PortMap, i: int, j: int)
    requires NeighboursRegistered(s, pm) && NoDuplicates(D.Ports(pm)) && 0 <= i < j < |pm|
    ensures RulesFor(s, self, pm).0[i].matchFields != RulesFor(s, self, pm).0[j].matchFields
  {
    var es := RulesFor(s, self, pm).0;
    var ps := D.Ports(pm);
    assert ps[i] != ps[j];
    assert es[i].matchFields[EgressPort] == G.Int(pm[i].port);
    assert es[j].matchFields[EgressPort] == G.Int(pm[j].port);
  }

  /** With every neighbour registered and one neighbour per port, the table ends
      up holding the rule of every neighbour, from the switch's MAC to the
      neighbour's, keyed on its port, and no other table changes. Whatever else
      stays is a stale rule of a port without a neighbour: the live-list purge
      removes all of them exactly when no two are neighbours in the handled
      table, and the table then holds one rule per neighbour. */
  lemma MacInstalled(m: L.Manager, s: TM.Store, me: string)
    requires MacTable in m.tables && L.UniqueKeys(m.tables[MacTable])
    requires TM.ExistsDevice(s, me)
    requires NeighboursRegistered(s, TM.GetDevice(s, me).value.ports)
    requires NoDuplicates(D.Ports(TM.GetDevice(s, me).value.ports))
    ensures var r := UpdateMacEntry(m, s, me);
      var self := TM.GetDevice(s, me).value;
      var es := RulesFor(s, self, self.ports).0;
      && r.2 == None
      && MacTable in r.0.tables
      && r.0 == m.(tables := m.tables[MacTable := r.0.tables[MacTable]])
      && L.UniqueKeys(r.0.tables[MacTable])
      && (forall i :: 0 <= i < |self.ports| ==> NeighbourRule(s, self, self.ports[i]) in r.0.tables[MacTable])
      && (forall x :: x in r.0.tables[MacTable] ==>
            (exists i :: 0 <= i < |self.ports| && x == NeighbourRule(s, self, self.ports[i]))
            || (x in m.tables[MacTable] && x.matchFields !in L.Keys(es)))
      && ((forall x :: x in r.0.tables[MacTable] <==> exists i :: 0 <= i < |self.ports| && x == NeighbourRule(s, self, self.ports[i]))
          <==> L.NoAdjacentInvalid(L.HandleAllList(m.tables[MacTable], es), L.Keys(es)))
      && (L.NoAdjacentInvalid(L.HandleAllList(m.tables[MacTable], es), L.Keys(es)) ==> |r.0.tables[MacTable]| == |self.ports|)
  {
    var self := TM.GetDevice(s, me).value;
    var es := RulesFor(s, self, self.ports).0;
    assert UpdateMacEntry(m, s, me) == L.Sync(m, MacTable, es, None);
    RulesInstalled(m, s, self, es);
  }

  /** The pass over the rules of a switch whose neighbours are all registered. */
  lemma RulesInstalled(m: L.Manager, s: TM.Store, self: D.Device, es: seq<L.Entry>)
    requires MacTable in m.tables && L.UniqueKeys(m.tables[MacTable])
    requires NeighboursRegistered(s, self.ports) && NoDuplicates(D.Ports(self.ports))
    requires es == RulesFor(s, self, self.ports).0
    ensures var r := L.Sync(m, MacTable, es, None);
      && r.2 == None
      && MacTable in r.0.tables
      && r.0 == m.(tables := m.tables[MacTable := r.0.tables[MacTable]])
      && L.UniqueKeys(r.0.tables[MacTable])
      && (forall i :: 0 <= i < |self.ports| ==> NeighbourRule(s, self, self.ports[i]) in r.0.tables[MacTable])
      && (forall x :: x in r.0.tables[MacTable] ==>
            (exists i :: 0 <= i < |self.ports| && x == NeighbourRule(s, self, self.ports[i]))
            || (x in m.tables[MacTable] && x.matchFields !in L.Keys(es)))
      && ((forall x :: x in r.0.tables[MacTable] <==> exists i :: 0 <= i < |self.ports| && x == NeighbourRule(s, self, self.ports[i]))
          <==> L.NoAdjacentInvalid(L.HandleAllList(m.tables[MacTable], es), L.Keys(es)))
      && (L.NoAdjacentInvalid(L.HandleAllList(m.tables[MacTable], es), L.Keys(es)) ==> |r.0.tables[MacTable]| == |self.ports|)
  {
    RulesKeysDistinct(s, self, self.ports);
    L.SyncExact(m, MacTable, es);
    var t := L.Sync(m, MacTable, es, None).0.tables[MacTable];
    RulesMembers(s, self, es);
    if L.NoAdjacentInvalid(L.HandleAllList(m.tables[MacTable], es), L.Keys(es)) {
      L.UniqueKeysSameLength(t, es);
    }
  }

  lemma RulesMembers(s: TM.Store, self: D.Device, es: seq<L.Entry>)
    requires NeighboursRegistered(s, self.ports)
    requires es == RulesFor(s, self, self.ports).0
    ensures |es| == |self.ports|
    ensures forall x :: x in es <==> exists i :: 0 <= i < |self.ports| && x == NeighbourRule(s, self, self.ports[i])
  {
    forall x ensures x in es <==> exists i :: 0 <= i < |self.ports| && x == NeighbourRule(s, self, self.ports[i]) {
      if x in es {
        var i :| 0 <= i < |es| && es[i] == x;
      }
    }
  }

  /** The purge as written, on a switch that lost every neighbour: of the rules
      left in the table, the first is deleted and the second, stale as well,
      survives the pass. */
  lemma StaleMacRuleSurvives(m: L.Manager, s: TM.Store, me: string)
    requires MacTable in m.tables && L.UniqueKeys(m.tables[MacTable]) && |m.tables[MacTable]| >= 2
    requires TM.ExistsDevice(s, me) && TM.GetDevice(s, me).value.ports == []
    ensures var r := UpdateMacEntry(m, s, me);
      && r.2 == None
      && MacTable in r.0.tables
      && m.tables[MacTable][0] !in r.0.tables[MacTable]
      && m.tables[MacTable][1] in r.0.tables[MacTable]
  {
    var t := m.tables[MacTable];
    var self := TM.GetDevice(s, me).value;
    assert RulesFor(s, self, self.ports) == ([], None);
    assert UpdateMacEntry(m, s, me) == L.Sync(m, MacTable, [], None);
    L.SyncShape(m, MacTable, []);
    assert L.HandleAllList(t, []) == t;
    assert L.Keys([]) == [];
    assert L.LiveKeep(t, []) == [t[1]] + L.LiveKeep(t[2..], []);
    assert t[0] !in t[2..] by {
      forall k | 0 <= k < |t[2..]| ensures t[2..][k] != t[0] {
        assert t[2..][k] == t[k + 2];
      }
    }
    assert t[0] != t[1] by {
      assert t[0].matchFields != t[1].matchFields;
    }
  }

  /** Re-running `update_mac_entry` with an unchanged neighbour map only purges
      again: it issues no driver writes when the first run left no stale rule,
      and otherwise deletes at least one more. */
  lemma MacRerunSilent(m: L.Manager, s: TM.Store, me: string)
    requires MacTable in m.tables && L.UniqueKeys(m.tables[MacTable])
    requires TM.ExistsDevice(s, me)
    requires NeighboursRegistered(s, TM.GetDevice(s, me).value.ports)
    requires NoDuplicates(D.Ports(TM.GetDevice(s, me).value.ports))
    ensures var m1 := UpdateMacEntry(m, s, me).0;
      var self := TM.GetDevice(s, me).value;
      var es := RulesFor(s, self, self.ports).0;
      var h := L.HandleAllList(m.tables[MacTable], es);
      && MacTable in m1.tables
      && (L.NoAdjacentInvalid(h, L.Keys(es)) ==> UpdateMacEntry(m1, s, me) == (m1, [], None))
      && (!L.NoAdjacentInvalid(h, L.Keys(es)) ==>
            MacTable in UpdateMacEntry(m1, s, me).0.tables
            && |UpdateMacEntry(m1, s, me).0.tables[MacTable]| < |m1.tables[MacTable]|)
  {
    var self := TM.GetDevice(s, me).value;
    RulesKeysDistinct(s, self, self.ports);
    L.SyncIdempotent(m, MacTable, RulesFor(s, self, self.ports).0);
  }
}
