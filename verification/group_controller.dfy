/** The local controller's `GroupController`: per multicast address, the list
    of ports on which hosts joined (fed by IGMP packets), turned into native
    multicast groups 2, 3, … and one table rule per non-empty group. */
module GroupController {
  import opened Wrappers
  import opened Seqs
  import D = Devices
  import TM = TopologyManager
  import G = TableEntryManager
  import L = LocalTableEntryManager

  const McTable := "ingress.ipv4_c.ipv4_mc"
  const DstAddr := "hdr.ipv4.dstAddr"
  const IgmpJoin := 0x16
  const IgmpLeave := 0x17
  /** Group 1 floods; the per-address groups start after it. */
  const FirstGroupId := 2

  /** One key of `mcgrp_to_port`. */
  datatype Group = Group(addr: string, ports: seq<int>)

  /** `mcgrp_to_port`, a `defaultdict(list)`, in insertion order. */
  type Groups = seq<Group>

  predicate UniqueAddrs(gs: Groups) {
    forall i, j :: 0 <= i < j < |gs| ==> gs[i].addr != gs[j].addr
  }

  /** Index of the group of an address. */
  function IndexOf(gs: Groups, a: string): (r: Option<nat>)
    ensures r.Some? ==> r.value < |gs| && gs[r.value].addr == a
    ensures r.None? ==> forall i :: 0 <= i < |gs| ==> gs[i].addr != a
  {
    if gs == [] then None
    else if gs[0].addr == a then Some(0)
    else match IndexOf(gs[1..], a)
      case Some(i) => Some(i + 1)
      case None => None
  }

  /** The ports of an address; an address never seen has none. */
  function PortsOf(gs: Groups, a: string): seq<int> {
    match IndexOf(gs, a)
    case Some(i) => gs[i].ports
    case None => []
  }

  /** Reading `mcgrp_to_port[a]` creates the key with an empty list; then the
      list is replaced by `ps`. */
  function Modify(gs: Groups, a: string, ps: seq<int>): (r: Groups)
    requires UniqueAddrs(gs)
    ensures UniqueAddrs(r)
    ensures IndexOf(r, a).Some? && PortsOf(r, a) == ps
    ensures forall b :: b != a ==> PortsOf(r, b) == PortsOf(gs, b)
  {
    match IndexOf(gs, a)
    case Some(i) =>
      ModifyInPlace(gs, i, a, ps);
      gs[i := Group(a, ps)]
    case None =>
      ModifyAppend(gs, a, ps);
      gs + [Group(a, ps)]
  }

  lemma ModifyInPlace(gs: Groups, i: nat, a: string, ps: seq<int>)
    requires UniqueAddrs(gs) && i < |gs| && gs[i].addr == a
    ensures var r := gs[i := Group(a, ps)];
      && UniqueAddrs(r)
      && IndexOf(r, a) == IndexOf(gs, a) == Some(i)
      && forall b :: IndexOf(r, b) == IndexOf(gs, b)
  {
    var r := gs[i := Group(a, ps)];
    forall b ensures IndexOf(r, b) == IndexOf(gs, b) {
      SameAddrsIndex(gs, r, b);
    }
    var k := IndexOf(gs, a).value;
    assert k == i;
  }

  lemma ModifyAppend(gs: Groups, a: string, ps: seq<int>)
    requires UniqueAddrs(gs) && IndexOf(gs, a).None?
    ensures var r := gs + [Group(a, ps)];
      && UniqueAddrs(r)
      && IndexOf(r, a) == Some(|gs|)
      && forall b :: b != a ==> IndexOf(r, b) == IndexOf(gs, b)
  {
    var g := Group(a, ps);
    forall b | b != a ensures IndexOf(gs + [g], b) == IndexOf(gs, b) {
      AppendIndex(gs, g, b);
    }
    AppendIndex(gs, g, a);
  }

  /** Replacing port lists in place keeps every lookup index. */
  lemma {:induction false} SameAddrsIndex(gs: Groups, r: Groups, b: string)
    requires |r| == |gs| && forall i :: 0 <= i < |gs| ==> r[i].addr == gs[i].addr
    ensures IndexOf(r, b) == IndexOf(gs, b)
  {
    if gs != [] {
      SameAddrsIndex(gs[1..], r[1..], b);
    }
  }

  /** Appending a group leaves the lookup of other addresses alone, and finds a
      fresh address at the end. */
  lemma {:induction false} AppendIndex(gs: Groups, g: Group, b: string)
    ensures b != g.addr ==> IndexOf(gs + [g], b) == IndexOf(gs, b)
    ensures b == g.addr && IndexOf(gs, b).None? ==> IndexOf(gs + [g], b) == Some(|gs|)
  {
    if gs != [] {
      assert (gs + [g])[1..] == gs[1..] + [g];
      AppendIndex(gs[1..], g, b);
    } else {
      assert [] + [g] == [g];
    }
  }

  /** IGMP join: the port is added to the address's list unless already there. */
  function Join(gs: Groups, a: string, port: int): (r: Groups)
    requires UniqueAddrs(gs)
    ensures UniqueAddrs(r)
    ensures PortsOf(r, a) == if port in PortsOf(gs, a) then PortsOf(gs, a) else PortsOf(gs, a) + [port]
    ensures NoDuplicates(PortsOf(gs, a)) ==> NoDuplicates(PortsOf(r, a))
    ensures forall b :: b != a ==> PortsOf(r, b) == PortsOf(gs, b)
  {
    var ps := PortsOf(gs, a);
    if port in ps then Modify(gs, a, ps)
    else
      if NoDuplicates(ps) then
        NoDuplicatesAppend(ps, port);
        Modify(gs, a, ps + [port])
      else Modify(gs, a, ps + [port])
  }

  /** IGMP leave: the port is removed from the address's list if there;
      otherwise nothing changes but the key's creation. */
  function Leave(gs: Groups, a: string, port: int): (r: Groups)
    requires UniqueAddrs(gs)
    ensures UniqueAddrs(r)
    ensures PortsOf(r, a) == RemoveFirst(PortsOf(gs, a), port)
    ensures port !in PortsOf(gs, a) ==> PortsOf(r, a) == PortsOf(gs, a)
    ensures NoDuplicates(PortsOf(gs, a)) ==> port !in PortsOf(r, a)
    ensures forall b :: b != a ==> PortsOf(r, b) == PortsOf(gs, b)
  {
    Modify(gs, a, RemoveFirst(PortsOf(gs, a), port))
  }

  /** Joining twice is joining once. */
  lemma JoinIdempotent(gs: Groups, a: string, port: int)
    requires UniqueAddrs(gs)
    ensures PortsOf(Join(Join(gs, a, port), a, port), a) == PortsOf(Join(gs, a, port), a)
  {
  }

  /** A leave undoes the join of a port that was not in the list. */
  lemma LeaveUndoesJoin(gs: Groups, a: string, port: int)
    requires UniqueAddrs(gs)
    requires port !in PortsOf(gs, a)
    ensures PortsOf(Leave(Join(gs, a, port), a, port), a) == PortsOf(gs, a)
    ensures forall b :: PortsOf(Leave(Join(gs, a, port), a, port), b) == PortsOf(gs, b)
  {
    RemoveAppended(PortsOf(gs, a), port);
  }

  /** The fields of an IGMP report the handler reads. */
  datatype IgmpPacket = IgmpPacket(mcAddress: string, srcIp: string, kind: int)

  /** The port of `update_igmp`: the switch's port towards the device with the
      packet's source ip. Each lookup raises DeviceNotFound when it fails. */
  function IngressPort(s: TM.Store, me: string, ip: string): (r: Result<int>)
    ensures r.Err? ==> r.error == DeviceNotFound
    ensures r.Ok? <==> (TM.ExistsDevice(s, me) && TM.GetDeviceByIp(s, ip).Ok?
      && TM.GetDeviceByIp(s, ip).value.name in D.Neighbours(TM.GetDevice(s, me).value.ports))
    ensures r.Ok? ==> D.Binding(TM.GetDeviceByIp(s, ip).value.name, r.value) in TM.GetDevice(s, me).value.ports
  {
    var switch :- TM.GetDevice(s, me);
    var src :- TM.GetDeviceByIp(s, ip);
    D.GetDeviceToPort(switch.ports, src.name)
  }

  /** The bookkeeping of `update_igmp`: a join adds the ingress port, a leave
      removes it, any other packet type changes nothing; a failed lookup leaves
      the lists as they were. */
  function UpdatePorts(gs: Groups, s: TM.Store, me: string, pkt: IgmpPacket): (r: Result<Groups>)
    requires UniqueAddrs(gs)
    ensures r.Ok? ==> UniqueAddrs(r.value)
    ensures r.Ok? <==> IngressPort(s, me, pkt.srcIp).Ok?
    ensures r.Err? ==> r.error == DeviceNotFound
    ensures r.Ok? && pkt.kind != IgmpJoin && pkt.kind != IgmpLeave ==> r.value == gs
    ensures r.Ok? ==> forall b :: b != pkt.mcAddress ==> PortsOf(r.value, b) == PortsOf(gs, b)
    ensures r.Ok? && pkt.kind == IgmpJoin ==> (
      var port := IngressPort(s, me, pkt.srcIp).value;
      PortsOf(r.value, pkt.mcAddress) == if port in PortsOf(gs, pkt.mcAddress) then PortsOf(gs, pkt.mcAddress) else PortsOf(gs, pkt.mcAddress) + [port])
    ensures r.Ok? && pkt.kind == IgmpLeave ==>
      PortsOf(r.value, pkt.mcAddress) == RemoveFirst(PortsOf(gs, pkt.mcAddress), IngressPort(s, me, pkt.srcIp).value)
  {
    var port :- IngressPort(s, me, pkt.srcIp);
    if pkt.kind == IgmpJoin then Ok(Join(gs, pkt.mcAddress, port))
    else if pkt.kind == IgmpLeave then Ok(Leave(gs, pkt.mcAddress, port))
    else Ok(gs)
  }

  /** The groups with at least one port, in order: the ones `update_mc_table`
      programs. */
  function NonEmpty(gs: Groups): (r: Groups)
    ensures forall g :: g in r <==> g in gs && g.ports != []
    ensures |r| <= |gs|
  {
    if gs == [] then []
    else
      assert forall g :: g in gs <==> g == gs[0] || g in gs[1..];
      (if gs[0].ports != [] then [gs[0]] else []) + NonEmpty(gs[1..])
  }

  /** The rule of a programmed group: destination address to group id. */
  function McEntry(addr: string, id: int): L.Entry {
    L.Entry(map[DstAddr := G.Str(addr)], "ingress.ipv4_c.set_mc_grp", map["grp" := G.Int(id)], None)
  }

  /** A native multicast group as `update_mc_group` programs it. */
  datatype McGroup = McGroup(id: int, ports: seq<int>)

  /** An address with the multicast group assigned to it. */
  datatype Assigned = Assigned(addr: string, group: McGroup)

  /** The loop of `update_mc_table` from group id `next`: each non-empty group
      gets the next id; empty groups are skipped without consuming one. */
  function Assign(gs: Groups, next: int): seq<Assigned>
    decreases |gs|
  {
    if gs == [] then []
    else if gs[0].ports == [] then Assign(gs[1..], next)
    else [Assigned(gs[0].addr, McGroup(next, gs[0].ports))] + Assign(gs[1..], next + 1)
  }

  /** The i-th non-empty group gets id `next + i`. */
  lemma {:induction false} AssignNumbered(gs: Groups, next: int)
    ensures |Assign(gs, next)| == |NonEmpty(gs)|
    ensures forall i :: 0 <= i < |NonEmpty(gs)| ==>
      Assign(gs, next)[i] == Assigned(NonEmpty(gs)[i].addr, McGroup(next + i, NonEmpty(gs)[i].ports))
    decreases |gs|
  {
    if gs != [] {
      if gs[0].ports == [] {
        AssignNumbered(gs[1..], next);
        assert NonEmpty(gs) == NonEmpty(gs[1..]);
      } else {
        AssignNumbered(gs[1..], next + 1);
        var ne := NonEmpty(gs[1..]);
        var a := Assign(gs[1..], next + 1);
        assert NonEmpty(gs) == [gs[0]] + ne;
        assert Assign(gs, next) == [Assigned(gs[0].addr, McGroup(next, gs[0].ports))] + a;
        forall i | 0 < i < |ne| + 1 ensures ([Assigned(gs[0].addr, McGroup(next, gs[0].ports))] + a)[i]
          == Assigned(([gs[0]] + ne)[i].addr, McGroup(next + i, ([gs[0]] + ne)[i].ports)) {
          assert ([gs[0]] + ne)[i] == ne[i - 1];
        }
      }
    }
  }

  /** The rules and the programmed groups of the assigned addresses. */
  function McRules(gs: Groups, next: int): (r: (seq<L.Entry>, seq<McGroup>))
    ensures |r.0| == |r.1| == |NonEmpty(gs)|
    ensures forall i :: 0 <= i < |r.1| ==> r.1[i].ports != []
  {
    var a := Assign(gs, next);
    AssignNumbered(gs, next);
    assert forall i :: 0 <= i < |a| ==> a[i].group.ports != [] by {
      forall i | 0 <= i < |a| ensures a[i].group.ports != [] {
        assert NonEmpty(gs)[i] in NonEmpty(gs);
      }
    }
    (seq(|a|, i requires 0 <= i < |a| => McEntry(a[i].addr, a[i].group.id)),
     seq(|a|, i requires 0 <= i < |a| => a[i].group))
  }

  /** The i-th non-empty group gets id `next + i`, one programmed group and one
      rule. */
  lemma McRulesNumbered(gs: Groups, next: int)
    ensures var r := McRules(gs, next);
      && |r.0| == |NonEmpty(gs)| && |r.1| == |NonEmpty(gs)|
      && forall i :: 0 <= i < |NonEmpty(gs)| ==>
        r.0[i] == McEntry(NonEmpty(gs)[i].addr, next + i) && r.1[i] == McGroup(next + i, NonEmpty(gs)[i].ports)
  {
    forall i | 0 <= i < |NonEmpty(gs)|
      ensures McRules(gs, next).0[i] == McEntry(NonEmpty(gs)[i].addr, next + i)
      ensures McRules(gs, next).1[i] == McGroup(next + i, NonEmpty(gs)[i].ports)
    {
      McRulesAt(gs, next, i);
    }
  }

  lemma McRulesAt(gs: Groups, next: int, i: int)
    requires 0 <= i < |NonEmpty(gs)|
    ensures McRules(gs, next).0[i] == McEntry(NonEmpty(gs)[i].addr, next + i)
    ensures McRules(gs, next).1[i] == McGroup(next + i, NonEmpty(gs)[i].ports)
  {
    AssignNumbered(gs, next);
    var a := Assign(gs, next);
    assert a[i] == Assigned(NonEmpty(gs)[i].addr, McGroup(next + i, NonEmpty(gs)[i].ports));
  }

  /** `update_mc_table`: program the groups from id 2, handle their rules, then
      purge rules of addresses no longer programmed. */
  function UpdateMcTable(m: L.Manager, gs: Groups): (r: (L.Manager, seq<L.DriverOp>, seq<McGroup>, Option<Error>))
    ensures |r.2| == |NonEmpty(gs)|
    ensures forall i :: 0 <= i < |r.2| ==> r.2[i] == McGroup(FirstGroupId + i, NonEmpty(gs)[i].ports)
    ensures McTable !in m.tables ==> r.0 == m && r.1 == [] && r.3 == Some(TableNotFound)
    ensures forall op :: op in r.1 ==> op.table == McTable
  {
    var (es, ps) := McRules(gs, FirstGroupId);
    McRulesNumbered(gs, FirstGroupId);
    var (m1, ops, f) := L.Sync(m, McTable, es, None);
    assert McTable !in m.tables ==> f == Some(TableNotFound);
    (m1, ops, ps, f)
  }

  /** Distinct addresses give distinct rule keys. */
  lemma {:induction false} McKeysDistinct(gs: Groups, next: int)
    requires UniqueAddrs(gs)
    ensures L.UniqueKeys(McRules(gs, next).0)
  {
    var ne := NonEmpty(gs);
    var es := McRules(gs, next).0;
    McRulesNumbered(gs, next);
    NonEmptyUnique(gs);
    forall i, j | 0 <= i < j < |es| ensures es[i].matchFields != es[j].matchFields {
      assert es[i].matchFields[DstAddr] == G.Str(ne[i].addr);
      assert es[j].matchFields[DstAddr] == G.Str(ne[j].addr);
    }
  }

  /** Filtering keeps addresses unique. */
  lemma {:induction false} NonEmptyUnique(gs: Groups)
    requires UniqueAddrs(gs)
    ensures UniqueAddrs(NonEmpty(gs))
  {
    if gs != [] {
      NonEmptyUnique(gs[1..]);
      var rest := NonEmpty(gs[1..]);
      forall g | g in rest ensures g.addr != gs[0].addr {
        var k :| 0 <= k < |gs[1..]| && gs[1..][k] == g;
        assert gs[k + 1] == g;
      }
      if gs[0].ports != [] {
        var r := [gs[0]] + rest;
        forall i, j | 0 <= i < j < |r| ensures r[i].addr != r[j].addr {
          assert r[j] == rest[j - 1];
          if i > 0 {
            assert r[i] == rest[i - 1];
          } else {
            assert rest[j - 1] in rest;
          }
        }
      }
    }
  }

  /** After `update_mc_table` the table holds the rule of every non-empty group,
      the i-th of them mapping its address to group 2 + i, and no other table
      changes. Whatever else stays is a stale rule of an address not
      programmed: the live-list purge removes all of them exactly when no two
      are neighbours in the handled table, and then the rule of every address
      whose list became empty is gone. */
  lemma McInstalled(m: L.Manager, gs: Groups)
    requires McTable in m.tables && L.UniqueKeys(m.tables[McTable])
    requires UniqueAddrs(gs)
    ensures var r := UpdateMcTable(m, gs);
      var ne := NonEmpty(gs);
      var es := McRules(gs, FirstGroupId).0;
      var exact := L.NoAdjacentInvalid(L.HandleAllList(m.tables[McTable], es), L.Keys(es));
      && r.3 == None
      && McTable in r.0.tables
      && r.0 == m.(tables := m.tables[McTable := r.0.tables[McTable]])
      && (forall i :: 0 <= i < |ne| ==> McEntry(ne[i].addr, FirstGroupId + i) in r.0.tables[McTable])
      && (forall x :: x in r.0.tables[McTable] ==>
            (exists i :: 0 <= i < |ne| && x == McEntry(ne[i].addr, FirstGroupId + i))
            || (x in m.tables[McTable] && x.matchFields !in L.Keys(es)))
      && ((forall x :: x in r.0.tables[McTable] <==> exists i :: 0 <= i < |ne| && x == McEntry(ne[i].addr, FirstGroupId + i))
          <==> exact)
      && (exact ==> forall g, x :: g in gs && g.ports == [] && x in r.0.tables[McTable] ==> x.matchFields != map[DstAddr := G.Str(g.addr)])
  {
    var es := McRules(gs, FirstGroupId).0;
    McKeysDistinct(gs, FirstGroupId);
    L.SyncExact(m, McTable, es);
    assert UpdateMcTable(m, gs).0 == L.Sync(m, McTable, es, None).0;
    McMembers(gs, es);
  }

  /** The rules are the numbered entries of the non-empty groups, and none is
      keyed on an address with no ports. */
  lemma McMembers(gs: Groups, es: seq<L.Entry>)
    requires UniqueAddrs(gs)
    requires es == McRules(gs, FirstGroupId).0
    ensures var ne := NonEmpty(gs);
      && (forall x :: x in es <==> exists i :: 0 <= i < |ne| && x == McEntry(ne[i].addr, FirstGroupId + i))
      && (forall g, x :: g in gs && g.ports == [] && x in es ==> x.matchFields != map[DstAddr := G.Str(g.addr)])
  {
    var ne := NonEmpty(gs);
    McRulesNumbered(gs, FirstGroupId);
    forall x ensures x in es <==> exists i :: 0 <= i < |ne| && x == McEntry(ne[i].addr, FirstGroupId + i) {
      if x in es {
        var i :| 0 <= i < |es| && es[i] == x;
      }
    }
    forall g, x | g in gs && g.ports == [] && x in es ensures x.matchFields != map[DstAddr := G.Str(g.addr)] {
      var i :| 0 <= i < |ne| && x == McEntry(ne[i].addr, FirstGroupId + i);
      assert ne[i] in ne;
      var a :| 0 <= a < |gs| && gs[a] == g;
      var b :| 0 <= b < |gs| && gs[b] == ne[i];
      assert a != b;
      assert x.matchFields[DstAddr] == G.Str(ne[i].addr);
    }
  }

  /** The whole IGMP handler: bookkeeping, then the table update. A failed
      lookup is logged by the event registry and changes nothing. */
  function UpdateIgmp(m: L.Manager, gs: Groups, s: TM.Store, me: string, pkt: IgmpPacket): (r: (L.Manager, Groups, seq<L.DriverOp>, seq<McGroup>, Option<Error>))
    requires UniqueAddrs(gs)
    ensures UniqueAddrs(r.1)
    ensures UpdatePorts(gs, s, me, pkt).Err? ==> r == (m, gs, [], [], Some(DeviceNotFound))
    ensures UpdatePorts(gs, s, me, pkt).Ok? ==> (r.1 == UpdatePorts(gs, s, me, pkt).value
      && |r.3| == |NonEmpty(r.1)|)
  {
    match UpdatePorts(gs, s, me, pkt)
    case Err(e) => (m, gs, [], [], Some(e))
    case Ok(gs1) =>
      var (m1, ops, ps, f) := UpdateMcTable(m, gs1);
      (m1, gs1, ops, ps, f)
  }
}
