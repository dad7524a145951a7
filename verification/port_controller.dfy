/** The local controller's `PortController`: it keeps the last reported status
    of every port, writes the switch's live-port bit string into a one-rule
    table, and on a port-down notification drops the neighbour on that port. */
module PortController {
  import opened Wrappers
  import opened Seqs
  import B = Bitmask
  import D = Devices
  import TM = TopologyManager
  import G = TableEntryManager
  import L = LocalTableEntryManager

  const PortStatusTable := "ingress.port_c.port_status"

  /** The recorded port statuses; a port never reported is up (the
      `defaultdict(lambda: 1)`). */
  type Statuses = map<int, int>

  predicate IsUp(st: Statuses, port: int) {
    port !in st || st[port] == 1
  }

  /** The neighbour ports whose status is up, in the map's order. */
  function LivePorts(ports: seq<int>, st: Statuses): (r: seq<int>)
    ensures forall p :: p in r <==> p in ports && IsUp(st, p)
  {
    if ports == [] then []
    else
      assert forall p :: p in ports <==> p == ports[0] || p in ports[1..];
      (if IsUp(st, ports[0]) then [ports[0]] else []) + LivePorts(ports[1..], st)
  }

  lemma NoneLive(ports: seq<int>, st: Statuses)
    ensures (forall p :: p in ports ==> !IsUp(st, p)) ==> LivePorts(ports, st) == []
  {
    var live := LivePorts(ports, st);
    EmptyIfNoMember(live);
  }

  /** The live-port bit string of `update`: the OR of `int(2**(p-1))` over the live
      ports, with a trailing 0 so that no live port gives 0. Port p owns bit p-1;
      ports below 1 contribute nothing. */
  function LiveString(ports: seq<int>, st: Statuses): (r: nat)
    ensures forall k: int :: B.HasId(r, k) <==> k >= 1 && k in ports && IsUp(st, k)
    ensures (forall p :: p in ports ==> !IsUp(st, p)) ==> r == 0
  {
    NoneLive(ports, st);
    B.OrIds(LivePorts(ports, st))
  }

  /** The rule `write_port_entry` hands to the table manager: no match fields, so
      it is the table's only possible key. */
  function PortEntry(bits: nat): L.Entry {
    L.Entry(map[], "ingress.port_c.set_port_status", map["livePorts" := G.Int(bits)], None)
  }

  /** What the port-status table holds between updates: at most one rule, keyed
      on no field. */
  predicate SingleRule(m: L.Manager) {
    && PortStatusTable in m.tables
    && |m.tables[PortStatusTable]| <= 1
    && forall x :: x in m.tables[PortStatusTable] ==> x.matchFields == map[]
  }

  /** `write_port_entry`: the table ends up holding exactly the new rule; the
      driver is called only when the bit string differs from the stored one. */
  function WritePortEntry(m: L.Manager, bits: nat): (r: Result<(L.Manager, seq<L.DriverOp>, bool)>)
    ensures PortStatusTable !in m.tables ==> r == Err(TableNotFound)
    ensures PortStatusTable in m.tables && m.tables[PortStatusTable] == [PortEntry(bits)] ==> r == Ok((m, [], false))
    ensures SingleRule(m) ==> (r.Ok?
      && SingleRule(r.value.0)
      && r.value.0 == m.(tables := m.tables[PortStatusTable := [PortEntry(bits)]]))
    ensures SingleRule(m) && m.tables[PortStatusTable] != [] && m.tables[PortStatusTable][0] != PortEntry(bits) ==> (r.Ok?
      && r.value.1 == [L.Delete(PortStatusTable, PortEntry(bits)), L.Add(PortStatusTable, PortEntry(bits))]
      && r.value.2)
  {
    var e := PortEntry(bits);
    if SingleRule(m) then
      var es := m.tables[PortStatusTable];
      L.HandleShape(m, PortStatusTable, e);
      assert es != [] ==> es[0] in es;
      assert es != [] && es[0] != e ==> L.KeyIndex(es, e.matchFields) == Some(0) && e !in es;
      assert es != [] ==> es[..0] + es[1..] == [];
      assert L.HandleList(es, e) == [e];
      L.HandleTableEntry(m, PortStatusTable, e)
    else
      L.HandleTableEntry(m, PortStatusTable, e)
  }

  /** `update` on topology_change: the live ports among the switch's neighbour
      ports, written as one rule. */
  function Update(m: L.Manager, s: TM.Store, me: string, st: Statuses): (r: Result<(L.Manager, seq<L.DriverOp>, bool)>)
    ensures !TM.ExistsDevice(s, me) ==> r == Err(DeviceNotFound)
    ensures TM.ExistsDevice(s, me) && PortStatusTable !in m.tables ==> r == Err(TableNotFound)
    ensures TM.ExistsDevice(s, me) && SingleRule(m) ==> (r.Ok? && SingleRule(r.value.0)
      && r.value.0 == m.(tables := m.tables[PortStatusTable := [PortEntry(LiveString(D.Ports(TM.GetDevice(s, me).value.ports), st))]]))
  {
    var device :- TM.GetDevice(s, me);
    WritePortEntry(m, LiveString(D.Ports(device.ports), st))
  }

  /** The effect of one port-status notification: the new statuses and store,
      whether topology_change was triggered, and the status reported to the
      controller (`status == 1`) unless an exception ended the handling. */
  datatype Notice = Notice(store: TM.Store, statuses: Statuses, topologyChange: bool, reported: Option<bool>, failure: Option<Error>)

  /** The handling of one `PRT|` message in `monitor_messages`: record the status;
      on status 0 remove the neighbour on that port from the switch and trigger
      topology_change; then report the status. */
  function OnPortStatus(s: TM.Store, me: string, st: Statuses, port: int, status: int): (r: Notice)
    ensures r.statuses == st[port := status]
    ensures r.failure.None? <==> r.reported.Some?
    ensures r.reported.Some? ==> r.reported.value == (status == 1)
    ensures status != 0 ==> r == Notice(s, st[port := status], false, Some(status == 1), None)
    ensures status == 0 && !TM.ExistsDevice(s, me) ==> r.failure == Some(DeviceNotFound) && r.store == s && !r.topologyChange
    ensures status == 0 && TM.ExistsDevice(s, me) && port !in D.Ports(TM.GetDevice(s, me).value.ports) ==>
      r.failure == Some(KeyError) && r.store == s && !r.topologyChange
    ensures status == 0 && TM.ExistsDevice(s, me) && port in D.Ports(TM.GetDevice(s, me).value.ports) ==> (
      var dev := TM.GetDevice(s, me).value;
      && r.failure.None? && r.topologyChange
      && r.store == TM.UpdateDevice(s, me, dev.(ports := D.RemovePort(dev.ports, port).value)))
    ensures forall n :: n != me ==> TM.GetDevice(r.store, n) == TM.GetDevice(s, n)
    ensures TM.StoreValid(s) ==> TM.StoreValid(r.store)
  {
    var st1 := st[port := status];
    if status != 0 then Notice(s, st1, false, Some(status == 1), None)
    else match TM.GetDevice(s, me)
      case Err(e) => Notice(s, st1, false, None, Some(e))
      case Ok(dev) =>
        match D.RemovePort(dev.ports, port)
        case Err(e) => Notice(s, st1, false, None, Some(e))
        case Ok(pm) => Notice(TM.UpdateDevice(s, me, dev.(ports := pm)), st1, true, Some(false), None)
  }

  /** A port-down notification unbinds exactly the first neighbour on that port
      from the switch, and the live-port bit string then leaves the port out. */
  lemma PortDownUnbinds(s: TM.Store, me: string, st: Statuses, port: int)
    requires TM.ExistsDevice(s, me)
    requires D.UniqueNeighbours(TM.GetDevice(s, me).value.ports)
    requires port in D.Ports(TM.GetDevice(s, me).value.ports)
    ensures var r := OnPortStatus(s, me, st, port, 0);
      var before := TM.GetDevice(s, me).value.ports;
      var after := TM.GetDevice(r.store, me).value.ports;
      var gone := D.NeighbourByPort(before, port).value;
      && TM.GetDevice(r.store, me).Ok?
      && D.Find(after, gone) == None
      && (forall n :: n != gone ==> D.Find(after, n) == D.Find(before, n))
      && !B.HasId(LiveString(D.Ports(after), r.statuses), port)
  {
    D.RemovePortUnbindsOne(TM.GetDevice(s, me).value.ports, port);
  }
}
