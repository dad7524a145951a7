/** The IPv4 controller: unicast forwarding rules along the shortest paths of
    domain 0 with a decapsulation rule for the switch's own address, and, on
    ingress switches, the rules that put a BIER header on multicast packets. */
module IPv4Controller {
  import opened Wrappers
  import opened Bitmask
  import opened Devices
  import opened Seqs
  import T = Topology
  import TM = TopologyManager
  import GM = GroupManager
  import E = TableEntryManager
  import B = BierComputation
  import C = Configuration

  const Ipv4Table := "ingress.ipv4_c.ipv4"
  const DstAddr := "hdr.ipv4.dstAddr"
  const PortStatus := "meta.ports.status"
  const Forward := "ingress.ipv4_c.forward"
  const Decap := "ingress.ipv4_c.decap"

  /** Packets for the host route `ip`/32 leave on `port` while the port is up. */
  function ForwardEntry(switch: string, ip: string, port: int): E.Entry {
    var portBit := IdToBitstring(port);
    E.Entry(switch, map[DstAddr := E.Lpm(ip, 32), PortStatus := E.Ternary(portBit, portBit)],
      Forward, map["port" := E.Int(port)], Some(1))
  }

  /** Packets for the switch's own address `ip`/32 are decapsulated. */
  function DecapEntry(switch: string, ip: string): E.Entry {
    E.Entry(switch, map[DstAddr := E.Lpm(ip, 32)], Decap, map[], Some(1))
  }

  /** `paths.get(switch, {})`: the shortest-path rows of the switch. */
  function Routes(paths: T.PathTable, switch: string): (r: seq<T.Route>)
    ensures switch in paths ==> r == paths[switch]
    ensures switch !in paths ==> r == []
  {
    if switch in paths then paths[switch] else []
  }

  /** One iteration of the destination loop of `update_ipv4_entries`: the
      destination's device, the next hop toward it in domain 0 and the port of
      the current device `cur` toward that next hop. */
  function RouteEntry(s: TM.Store, sp: T.Graph -> T.PathTable, switch: string, cur: Device, dest: string): (r: Result<E.Entry>)
    ensures r.Ok? <==> (TM.ExistsDevice(s, dest) && TM.GetNextHop(s, sp, switch, dest, 0).Ok?
      && TM.GetNextHop(s, sp, switch, dest, 0).value.name in Neighbours(cur.ports))
    ensures r.Err? ==> r.error == DeviceNotFound || r.error == DomainNotFound || r.error == NextHopNotFound
    ensures r.Ok? ==> (
      var nh := TM.GetNextHop(s, sp, switch, dest, 0).value.name;
      exists port :: Binding(nh, port) in cur.ports && r.value == ForwardEntry(switch, TM.GetDevice(s, dest).value.ip, port))
  {
    var dst :- TM.GetDevice(s, dest);
    var nh :- TM.GetNextHop(s, sp, switch, dest, 0);
    var port :- GetDeviceToPort(cur.ports, nh.name);
    Ok(ForwardEntry(switch, dst.ip, port))
  }

  /** The destination loop: a rule per row whose destination is not the switch
      itself, stopping at the first exception. */
  function RoutesEntries(s: TM.Store, sp: T.Graph -> T.PathTable, switch: string, cur: Device, routes: seq<T.Route>): (r: E.Gen)
    ensures E.ForSwitch(r.entries, switch)
    ensures r.failure.None? <==> forall rt :: rt in routes && rt.dest != switch ==> RouteEntry(s, sp, switch, cur, rt.dest).Ok?
    ensures r.failure.Some? ==> r.failure.value == DeviceNotFound || r.failure.value == DomainNotFound || r.failure.value == NextHopNotFound
    decreases |routes|
  {
    if routes == [] then E.Gen([], None)
    else
      assert forall rt :: rt in routes <==> rt == routes[0] || rt in routes[1..];
      var rest := RoutesEntries(s, sp, switch, cur, routes[1..]);
      if routes[0].dest == switch then rest
      else match RouteEntry(s, sp, switch, cur, routes[0].dest)
        case Err(e) => E.Gen([], Some(e))
        case Ok(x) => E.Then(E.Gen([x], None), rest)
  }

  /** A completed destination loop holds the rule of every row. */
  lemma {:induction false} RoutesEntriesComplete(s: TM.Store, sp: T.Graph -> T.PathTable, switch: string, cur: Device, routes: seq<T.Route>)
    ensures var r := RoutesEntries(s, sp, switch, cur, routes);
      r.failure.None? ==> forall rt :: rt in routes && rt.dest != switch ==> RouteEntry(s, sp, switch, cur, rt.dest).value in r.entries
    decreases |routes|
  {
    if routes != [] {
      var r := RoutesEntries(s, sp, switch, cur, routes);
      var rest := RoutesEntries(s, sp, switch, cur, routes[1..]);
      RoutesEntriesComplete(s, sp, switch, cur, routes[1..]);
      if r.failure.None? {
        assert rest.failure.None?;
        forall rt | rt in routes && rt.dest != switch
          ensures RouteEntry(s, sp, switch, cur, rt.dest).value in r.entries
        {
          if rt != routes[0] {
            assert rt in routes[1..];
            assert RouteEntry(s, sp, switch, cur, rt.dest).value in rest.entries;
          }
        }
      }
    }
  }

  /** Every rule of the destination loop is the rule of one of its rows. */
  lemma {:induction false} RoutesEntriesSound(s: TM.Store, sp: T.Graph -> T.PathTable, switch: string, cur: Device, routes: seq<T.Route>)
    ensures var r := RoutesEntries(s, sp, switch, cur, routes);
      forall e :: e in r.entries ==> exists rt :: rt in routes && rt.dest != switch && RouteEntry(s, sp, switch, cur, rt.dest) == Ok(e)
    decreases |routes|
  {
    if routes != [] {
      var r := RoutesEntries(s, sp, switch, cur, routes);
      var rest := RoutesEntries(s, sp, switch, cur, routes[1..]);
      RoutesEntriesSound(s, sp, switch, cur, routes[1..]);
      forall e | e in r.entries
        ensures exists rt :: rt in routes && rt.dest != switch && RouteEntry(s, sp, switch, cur, rt.dest) == Ok(e)
      {
        if e in rest.entries {
          var rt :| rt in routes[1..] && rt.dest != switch && RouteEntry(s, sp, switch, cur, rt.dest) == Ok(e);
          assert rt in routes;
        } else {
          assert RouteEntry(s, sp, switch, cur, routes[0].dest) == Ok(e);
        }
      }
    }
  }

  /** The rules of `update_ipv4_entries` once the path table of the rebuilt
      registry `s` is known: a forwarding rule per destination of the switch's
      shortest paths, then the decapsulation rule of the switch's own address. */
  function SwitchRules(s: TM.Store, sp: T.Graph -> T.PathTable, paths: T.PathTable, switch: string): (r: E.Gen)
    ensures !TM.ExistsDevice(s, switch) ==> r == E.Gen([], Some(DeviceNotFound))
    ensures TM.NamesMatch(s) ==> E.ForSwitch(r.entries, switch)
    ensures r.failure.None? ==> (TM.ExistsDevice(s, switch) && |r.entries| >= 1
      && r.entries[|r.entries| - 1] == DecapEntry(TM.GetDevice(s, switch).value.name, TM.GetDevice(s, switch).value.ip))
  {
    match TM.GetDevice(s, switch)
    case Err(e) => E.Gen([], Some(e))
    case Ok(cur) =>
      assert TM.NamesMatch(s) ==> cur.name == switch;
      E.Then(RoutesEntries(s, sp, switch, cur, Routes(paths, switch)), E.Gen([DecapEntry(cur.name, cur.ip)], None))
  }

  /** A successful computation has the forwarding rule of every destination in
      the switch's shortest paths. */
  lemma SwitchRulesComplete(s: TM.Store, sp: T.Graph -> T.PathTable, paths: T.PathTable, switch: string, rt: T.Route)
    requires SwitchRules(s, sp, paths, switch).failure.None?
    requires rt in Routes(paths, switch) && rt.dest != switch
    ensures var cur := TM.GetDevice(s, switch).value;
      && RouteEntry(s, sp, switch, cur, rt.dest).Ok?
      && RouteEntry(s, sp, switch, cur, rt.dest).value in SwitchRules(s, sp, paths, switch).entries
  {
    RoutesEntriesComplete(s, sp, switch, TM.GetDevice(s, switch).value, Routes(paths, switch));
  }

  /** On a registry with unique, consistent names whose graph's nodes are
      registered and whose edges follow the port maps, with the table of a
      shortest-path routine that keeps its promise, the rules of a registered
      switch are computed without an exception. */
  lemma SwitchRulesSucceed(s: TM.Store, sp: T.Graph -> T.PathTable, switch: string)
    requires TM.NamesMatch(s) && TM.UniqueNames(s.devices) && TM.GetTopology(s, 0).Ok? && TM.ExistsDevice(s, switch)
    requires var g := TM.GetTopology(s, 0).value.graph;
      && T.IsShortestPathTable(g, sp(g))
      && (forall m :: m in g.nodes ==> TM.ExistsDevice(s, m))
      && EdgesFromPorts(s, g)
    ensures SwitchRules(s, sp, sp(TM.GetTopology(s, 0).value.graph), switch).failure.None?
  {
    var paths := sp(TM.GetTopology(s, 0).value.graph);
    var cur := TM.GetDevice(s, switch).value;
    forall rt | rt in Routes(paths, switch) && rt.dest != switch ensures RouteEntry(s, sp, switch, cur, rt.dest).Ok? {
      RouteSucceeds(s, sp, TM.GetTopology(s, 0).value.graph, switch, cur, rt);
    }
  }

  /** `update_ipv4_entries`: `get_paths(0)` rebuilds domain 0 in the registry,
      then the switch's rules on the rebuilt registry. Returns the registry
      after the rebuild and the rules whose match fields form the valid list. */
  function SwitchEntries(s: TM.Store, roster: seq<string>, sp: T.Graph -> T.PathTable, switch: string): (r: (TM.Store, E.Gen))
    ensures r.0.devices == s.devices
    ensures !TM.ExistsDevice(s, switch) ==> r.1.failure.Some? && r.1.entries == []
    ensures TM.NamesMatch(s) ==> E.ForSwitch(r.1.entries, switch)
  {
    match TM.GetPaths(s, roster, sp, 0)
    case Err(e) => (s, E.Gen([], Some(e)))
    case Ok((s1, paths)) =>
      assert TM.ExistsDevice(s1, switch) == TM.ExistsDevice(s, switch);
      (s1, SwitchRules(s1, sp, paths, switch))
  }

  /** On a registry with unique, consistent names whose domain-0 neighbours are
      all registered, and with a shortest-path routine that keeps its promise,
      `update_ipv4_entries` for a registered switch raises nothing: every
      destination of its paths is a registered node, the next hop exists, and it
      is a neighbour of the switch with a port. */
  lemma SwitchEntriesSucceed(s: TM.Store, roster: seq<string>, sp: T.Graph -> T.PathTable, switch: string)
    requires TM.StoreValid(s) && TM.NamesMatch(s) && TM.ExistsDevice(s, switch)
    requires forall d :: d in s.devices && 0 in d.domains ==> TM.NeighboursRegistered(s, d)
    requires var g := TM.GetTopology(TM.GetPaths(s, roster, sp, 0).value.0, 0).value.graph;
      T.IsShortestPathTable(g, sp(g))
    ensures SwitchEntries(s, roster, sp, switch).1.failure.None?
  {
    var s1 := TM.GetPaths(s, roster, sp, 0).value.0;
    TM.GetPathsBuilds(s, roster, sp, 0);
    RebuiltGraph(s, roster, s1);
    assert TM.ExistsDevice(s1, switch) && TM.NamesMatch(s1);
    SwitchRulesSucceed(s1, sp, switch);
  }

  /** Every edge a->b of the graph leaves a registered device that has b as a
      neighbour. */
  ghost predicate EdgesFromPorts(s: TM.Store, g: T.Graph) {
    forall e :: e in g.edges ==> exists d :: d in s.devices && d.name == e.src && e.dst in Neighbours(d.device.ports)
  }

  /** The rebuilt domain-0 graph: its nodes are registered devices and its
      edges follow the devices' port maps. */
  lemma RebuiltGraph(s: TM.Store, roster: seq<string>, s1: TM.Store)
    requires TM.BuildDomain(s, roster, 0) == Ok(s1)
    ensures s1.devices == s.devices && TM.GetTopology(s1, 0).Ok?
    ensures forall m :: m in TM.GetTopology(s1, 0).value.graph.nodes ==> TM.ExistsDevice(s1, m)
    ensures EdgesFromPorts(s1, TM.GetTopology(s1, 0).value.graph)
  {
    var g := TM.GetTopology(s1, 0).value.graph;
    forall m | m in g.nodes ensures TM.ExistsDevice(s1, m) {
      var d :| d in s.devices && 0 in d.domains && d.name == m;
      var i :| 0 <= i < |s.devices| && s.devices[i] == d;
      assert s1.devices[i].name == m;
    }
    forall e | e in g.edges ensures exists d :: d in s1.devices && d.name == e.src && e.dst in Neighbours(d.device.ports) {
      assert TM.DomainEdge(s, s.devices, 0, e);
    }
  }

  /** One destination of the switch's shortest paths yields its rule. */
  lemma RouteSucceeds(s: TM.Store, sp: T.Graph -> T.PathTable, g: T.Graph, switch: string, cur: Device, rt: T.Route)
    requires TM.NamesMatch(s) && TM.UniqueNames(s.devices) && TM.GetTopology(s, 0).Ok? && TM.GetTopology(s, 0).value.graph == g
    requires T.IsShortestPathTable(g, sp(g)) && (forall m :: m in g.nodes ==> TM.ExistsDevice(s, m)) && EdgesFromPorts(s, g)
    requires switch in sp(g) && rt in sp(g)[switch] && rt.dest != switch && TM.GetDevice(s, switch) == Ok(cur)
    ensures RouteEntry(s, sp, switch, cur, rt.dest).Ok?
  {
    var paths := sp(g);
    var i :| 0 <= i < |paths[switch]| && paths[switch][i] == rt;
    TM.NextHopExists(s, sp, switch, rt.dest, 0, rt.path);
    NeighbourOnEdge(s, g, switch, TM.GetNextHop(s, sp, switch, rt.dest, 0).value.name);
  }

  /** The head of an edge is a neighbour of the device at its tail. */
  lemma NeighbourOnEdge(s: TM.Store, g: T.Graph, a: string, b: string)
    requires TM.UniqueNames(s.devices) && EdgesFromPorts(s, g) && T.Edge(a, b) in g.edges
    ensures TM.GetDevice(s, a).Ok? && b in Neighbours(TM.GetDevice(s, a).value.ports)
  {
    var d :| d in s.devices && d.name == a && b in Neighbours(d.device.ports);
    TM.GetDeviceOfEntry(s, d);
  }

  /** The valid list of `update_ipv4_rules` for one switch: the match fields of
      its computed rules and of the static rules written for it. */
  function ValidFor(gen: seq<E.Entry>, staticRules: seq<E.Entry>, switch: string): (r: seq<E.Fields>)
    ensures forall f :: f in r <==> ((exists g :: g in gen && g.matchFields == f)
      || exists x :: x in staticRules && x.switch == switch && x.matchFields == f)
  {
    var keys, staticKeys := E.MatchKeys(gen), E.MatchKeys(E.EntriesForSwitch(staticRules, switch));
    assert forall f :: f in keys <==> exists g :: g in gen && g.matchFields == f by {
      forall f | f in keys ensures exists g :: g in gen && g.matchFields == f {
        var i :| 0 <= i < |keys| && keys[i] == f;
        assert gen[i] in gen;
      }
      forall g | g in gen ensures g.matchFields in keys {
        var i :| 0 <= i < |gen| && gen[i] == g;
        assert keys[i] == g.matchFields;
      }
    }
    var mine := E.EntriesForSwitch(staticRules, switch);
    assert forall f :: f in staticKeys <==> exists x :: x in mine && x.matchFields == f by {
      forall f | f in staticKeys ensures exists x :: x in mine && x.matchFields == f {
        var i :| 0 <= i < |staticKeys| && staticKeys[i] == f;
        assert mine[i] in mine;
      }
      forall x | x in mine ensures x.matchFields in staticKeys {
        var i :| 0 <= i < |mine| && mine[i] == x;
        assert staticKeys[i] == x.matchFields;
      }
    }
    keys + staticKeys
  }

  /** The handler's state: the table manager, the topology registry, the driver
      calls made and the exception that ended the handler, if any. */
  datatype Outcome = Outcome(manager: E.Manager, store: TM.Store, ops: seq<E.DriverOp>, failure: Option<Error>)

  /** One switch of the first loop of `update_ipv4_rules`: compute its rules,
      handling each one as it is computed. */
  function SwitchPass(m: E.Manager, s: TM.Store, roster: seq<string>, sp: T.Graph -> T.PathTable, switch: string): (r: (Outcome, seq<E.Entry>))
    ensures r.1 == SwitchEntries(s, roster, sp, switch).1.entries
    ensures r.0.ops == [] || Ipv4Table in m.tables
    ensures r.0.failure.None? <==> SwitchEntries(s, roster, sp, switch).1.failure.None? && (Ipv4Table in m.tables || r.1 == [])
    ensures TM.NamesMatch(s) ==> E.ForSwitch(r.1, switch)
    ensures r.0.store.devices == s.devices
    ensures Ipv4Table in m.tables && E.UniqueKeys(m.tables[Ipv4Table]) ==>
      Ipv4Table in r.0.manager.tables && E.UniqueKeys(r.0.manager.tables[Ipv4Table])
  {
    var (s1, g) := SwitchEntries(s, roster, sp, switch);
    var (m1, ops1, err) := E.HandleEntries(m, Ipv4Table, g.entries);
    (Outcome(m1, s1, ops1, if err.Some? then err else g.failure), g.entries)
  }

  /** The first loop of `update_ipv4_rules` over the connected switches, up to
      the first exception; collects every switch's computed rules for the
      purge. */
  function ConnectionsPass(m: E.Manager, s: TM.Store, roster: seq<string>, sp: T.Graph -> T.PathTable, switches: seq<string>): (r: (Outcome, seq<seq<E.Entry>>))
    ensures |r.1| <= |switches|
    ensures r.0.failure.None? ==> |r.1| == |switches|
    ensures TM.NamesMatch(s) ==> forall i :: 0 <= i < |r.1| ==> E.ForSwitch(r.1[i], switches[i])
    ensures Ipv4Table in m.tables && E.UniqueKeys(m.tables[Ipv4Table]) ==>
      Ipv4Table in r.0.manager.tables && E.UniqueKeys(r.0.manager.tables[Ipv4Table])
    ensures r.0.store.devices == s.devices
    decreases |switches|
  {
    if switches == [] then (Outcome(m, s, [], None), [])
    else
      var (first, gen) := SwitchPass(m, s, roster, sp, switches[0]);
      if first.failure.Some? then (first, [])
      else
        var (rest, gens) := ConnectionsPass(first.manager, first.store, roster, sp, switches[1..]);
        var all := [gen] + gens;
        assert TM.NamesMatch(s) ==> forall i :: 0 <= i < |all| ==> E.ForSwitch(all[i], switches[i]) by {
          if TM.NamesMatch(s) {
            assert TM.NamesMatch(first.store);
            ForSwitchCons(gen, gens, switches);
          }
        }
        (rest.(ops := first.ops + rest.ops), all)
  }

  /** Rule lists for the switches, one list longer at the front. */
  lemma ForSwitchCons(gen: seq<E.Entry>, gens: seq<seq<E.Entry>>, switches: seq<string>)
    requires 0 < |switches| && |gens| < |switches|
    requires E.ForSwitch(gen, switches[0])
    requires forall i :: 0 <= i < |gens| ==> E.ForSwitch(gens[i], switches[1..][i])
    ensures forall i :: 0 <= i < |[gen] + gens| ==> E.ForSwitch(([gen] + gens)[i], switches[i])
  {
    var all := [gen] + gens;
    forall i | 0 <= i < |all| ensures E.ForSwitch(all[i], switches[i]) {
      if i > 0 {
        assert all[i] == gens[i - 1] && switches[i] == switches[1..][i - 1];
      }
    }
  }

  /** The purge loop of `update_ipv4_rules`: for each connected switch,
      `remove_invalid_entries` with its valid list. With no switch the loop
      body never runs, so nothing is looked up and nothing raises. */
  function PurgeAll(m: E.Manager, table: string, switches: seq<string>, valids: seq<seq<E.Fields>>): (r: (E.Manager, seq<E.DriverOp>, Option<Error>))
    requires |valids| == |switches|
    ensures switches == [] ==> r == (m, [], None)
    ensures table !in m.tables ==> r.0 == m && r.1 == [] && (switches != [] ==> r.2 == Some(TableNotFound))
    ensures table in m.tables ==>
      && table in r.0.tables
      && r.0 == m.(tables := m.tables[table := r.0.tables[table]])
      && forall x :: x in r.0.tables[table] ==> x in m.tables[table]
    decreases |switches|
  {
    if switches == [] then (m, [], None)
    else
      match E.RemoveInvalidEntries(m, table, switches[0], valids[0])
      case Err(e) => (m, [], Some(e))
      case Ok((m1, ops1)) =>
        var (m2, ops2, err) := PurgeAll(m1, table, switches[1..], valids[1..]);
        (m2, ops1 + ops2, err)
  }

  /** No listed switch has the entry outside its valid list. */
  predicate Kept(x: E.Entry, switches: seq<string>, valids: seq<seq<E.Fields>>) {
    forall i :: 0 <= i < |switches| && i < |valids| ==> !E.Invalid(x, switches[i], valids[i])
  }

  /** After the purge loop over a table with unique keys, an entry stays exactly
      when it was stored and no listed switch has it outside its valid list. */
  lemma {:induction false} PurgeAllExact(m: E.Manager, table: string, switches: seq<string>, valids: seq<seq<E.Fields>>)
    requires |valids| == |switches|
    requires table in m.tables && E.UniqueKeys(m.tables[table])
    ensures PurgeAll(m, table, switches, valids).2.None?
    ensures var fin := PurgeAll(m, table, switches, valids).0;
      && table in fin.tables && E.UniqueKeys(fin.tables[table])
      && fin == m.(tables := m.tables[table := fin.tables[table]])
      && forall x :: x in fin.tables[table] <==> x in m.tables[table] && Kept(x, switches, valids)
    decreases |switches|
  {
    if switches != [] {
      PurgeStep(m, table, switches[0], valids[0]);
      var m1 := E.RemoveInvalidEntries(m, table, switches[0], valids[0]).value.0;
      PurgeAllExact(m1, table, switches[1..], valids[1..]);
      KeptCons(switches, valids);
    }
  }

  /** One purge on a table with unique keys keeps the valid entries and the
      unique keys. */
  lemma PurgeStep(m: E.Manager, table: string, sw: string, valid: seq<E.Fields>)
    requires table in m.tables && E.UniqueKeys(m.tables[table])
    ensures E.RemoveInvalidEntries(m, table, sw, valid).Ok?
    ensures var m1 := E.RemoveInvalidEntries(m, table, sw, valid).value.0;
      && table in m1.tables && E.UniqueKeys(m1.tables[table])
      && m1 == m.(tables := m.tables[table := m1.tables[table]])
      && forall x :: x in m1.tables[table] <==> x in m.tables[table] && !E.Invalid(x, sw, valid)
  {
    E.RemoveInvalidExact(m, table, sw, valid);
    E.KeepValidUnique(m.tables[table], sw, valid);
  }

  lemma KeptCons(switches: seq<string>, valids: seq<seq<E.Fields>>)
    requires |valids| == |switches| > 0
    ensures forall x :: Kept(x, switches, valids) <==> !E.Invalid(x, switches[0], valids[0]) && Kept(x, switches[1..], valids[1..])
  {
    assert forall i :: 1 <= i < |switches| ==> switches[i] == switches[1..][i - 1] && valids[i] == valids[1..][i - 1];
  }

  /** The valid lists of the purge, switch by switch. */
  function ValidLists(gens: seq<seq<E.Entry>>, staticRules: seq<E.Entry>, switches: seq<string>): (r: seq<seq<E.Fields>>)
    requires |gens| == |switches|
    ensures |r| == |switches| && forall i :: 0 <= i < |switches| ==> r[i] == ValidFor(gens[i], staticRules, switches[i])
  {
    if switches == [] then [] else [ValidFor(gens[0], staticRules, switches[0])] + ValidLists(gens[1..], staticRules, switches[1..])
  }

  /** `update_ipv4_rules`, the handler of topology changes. A port update skips
      it when the `update` option is set and does not list "ipv4". Otherwise it
      computes and handles the rules of every connected switch, handles the
      static rules (already read from their files), and finally purges each
      connected switch's rules whose match fields are neither computed nor
      staticRules for it. `connections` are the keys of the controller's connection
      dictionary, so distinct. */
  function UpdateIpv4Rules(m: E.Manager, s: TM.Store, roster: seq<string>, sp: T.Graph -> T.PathTable,
                           updateOption: Option<seq<string>>, portUpdate: bool,
                           connections: seq<string>, staticRules: seq<E.Entry>): (r: Outcome)
    ensures portUpdate && updateOption.Some? && "ipv4" !in updateOption.value ==> r == Outcome(m, s, [], None)
    ensures r.store.devices == s.devices
  {
    if portUpdate && updateOption.Some? && "ipv4" !in updateOption.value then Outcome(m, s, [], None)
    else
      var (p, gens) := ConnectionsPass(m, s, roster, sp, connections);
      if p.failure.Some? then p
      else
        var (m2, ops2, err) := E.HandleEntries(p.manager, Ipv4Table, staticRules);
        if err.Some? then Outcome(m2, p.store, p.ops + ops2, err)
        else
          var (m3, ops3, err3) := PurgeAll(m2, Ipv4Table, connections, ValidLists(gens, staticRules, connections));
          Outcome(m3, p.store, p.ops + ops2 + ops3, err3)
  }

  /** After a complete `update_ipv4_rules` on a table with unique keys, keys
      stay unique and every rule of a connected switch has the match fields of
      a rule computed for it or of a static rule written for it; the rest of the
      table holds what the handling left. */
  lemma Ipv4RulesPurged(m: E.Manager, s: TM.Store, roster: seq<string>, sp: T.Graph -> T.PathTable,
                        updateOption: Option<seq<string>>, portUpdate: bool,
                        connections: seq<string>, staticRules: seq<E.Entry>)
    requires Ipv4Table in m.tables && E.UniqueKeys(m.tables[Ipv4Table])
    requires !(portUpdate && updateOption.Some? && "ipv4" !in updateOption.value)
    requires UpdateIpv4Rules(m, s, roster, sp, updateOption, portUpdate, connections, staticRules).failure.None?
    ensures var r := UpdateIpv4Rules(m, s, roster, sp, updateOption, portUpdate, connections, staticRules);
      var gens := ConnectionsPass(m, s, roster, sp, connections).1;
      && |gens| == |connections|
      && Ipv4Table in r.manager.tables && E.UniqueKeys(r.manager.tables[Ipv4Table])
      && forall x, i :: x in r.manager.tables[Ipv4Table] && 0 <= i < |connections| && x.switch == connections[i] ==>
        x.matchFields in ValidFor(gens[i], staticRules, connections[i])
  {
    var (p, gens) := ConnectionsPass(m, s, roster, sp, connections);
    assert p.failure.None?;
    var (m2, ops2, err) := E.HandleEntries(p.manager, Ipv4Table, staticRules);
    assert err.None?;
    PurgedFields(m2, Ipv4Table, connections, gens, staticRules);
  }

  /** The purge with the valid lists of `gens` leaves, for each listed switch,
      only entries whose match fields are in its valid list. */
  lemma PurgedFields(m: E.Manager, table: string, switches: seq<string>, gens: seq<seq<E.Entry>>, staticRules: seq<E.Entry>)
    requires |gens| == |switches|
    requires table in m.tables && E.UniqueKeys(m.tables[table])
    ensures var (fin, _, err) := PurgeAll(m, table, switches, ValidLists(gens, staticRules, switches));
      && err.None? && table in fin.tables && E.UniqueKeys(fin.tables[table])
      && forall x, i :: x in fin.tables[table] && 0 <= i < |switches| && x.switch == switches[i] ==>
        x.matchFields in ValidFor(gens[i], staticRules, switches[i])
  {
    var valids := ValidLists(gens, staticRules, switches);
    PurgeAllExact(m, table, switches, valids);
    var fin := PurgeAll(m, table, switches, valids).0;
    forall x, i | x in fin.tables[table] && 0 <= i < |switches| && x.switch == switches[i]
      ensures x.matchFields in ValidFor(gens[i], staticRules, switches[i])
    {
      assert !E.Invalid(x, switches[i], valids[i]);
    }
  }
}
