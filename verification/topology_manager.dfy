/** The controller's device and domain registry (`TopologyManager`): registered
    devices with the domains they belong to, and one topology per domain. */
module TopologyManager {
  import opened Wrappers
  import opened Devices
  import T = Topology
  import opened Seqs

  datatype DeviceEntry = DeviceEntry(name: string, domains: seq<int>, device: Device)

  datatype DomainEntry = DomainEntry(id: int, topology: T.Topology, tunnelNode: Option<string>)

  /** The registry dictionary `{'total', 'devices', 'domains'}`. */
  datatype Store = Store(total: int, devices: seq<DeviceEntry>, domains: seq<DomainEntry>)

  const EmptyStore := Store(0, [], [])

  predicate UniqueNames(devs: seq<DeviceEntry>) {
    forall i, j :: 0 <= i < j < |devs| ==> devs[i].name != devs[j].name
  }

  predicate UniqueDomainIds(doms: seq<DomainEntry>) {
    forall i, j :: 0 <= i < j < |doms| ==> doms[i].id != doms[j].id
  }

  /** What every registry built by the operations below keeps. */
  predicate StoreValid(s: Store) {
    s.total == |s.devices| && UniqueNames(s.devices) && UniqueDomainIds(s.domains)
  }

  /** Index of the first entry with the name. */
  function FirstNamed(devs: seq<DeviceEntry>, name: string): (r: Option<nat>)
    ensures r.Some? ==> (r.value < |devs| && devs[r.value].name == name
      && forall j :: 0 <= j < r.value ==> devs[j].name != name)
    ensures r.None? ==> forall j :: 0 <= j < |devs| ==> devs[j].name != name
  {
    if devs == [] then None
    else if devs[0].name == name then Some(0)
    else match FirstNamed(devs[1..], name)
      case Some(i) => Some(i + 1)
      case None => None
  }

  /** Index of the first entry whose device has the ip. */
  function FirstWithIp(devs: seq<DeviceEntry>, ip: string): (r: Option<nat>)
    ensures r.Some? ==> (r.value < |devs| && devs[r.value].device.ip == ip
      && forall j :: 0 <= j < r.value ==> devs[j].device.ip != ip)
    ensures r.None? ==> forall j :: 0 <= j < |devs| ==> devs[j].device.ip != ip
  {
    if devs == [] then None
    else if devs[0].device.ip == ip then Some(0)
    else match FirstWithIp(devs[1..], ip)
      case Some(i) => Some(i + 1)
      case None => None
  }

  /** Index of the first domain with the id. */
  function FirstDomain(doms: seq<DomainEntry>, id: int): (r: Option<nat>)
    ensures r.Some? ==> (r.value < |doms| && doms[r.value].id == id
      && forall j :: 0 <= j < r.value ==> doms[j].id != id)
    ensures r.None? ==> forall j :: 0 <= j < |doms| ==> doms[j].id != id
  {
    if doms == [] then None
    else if doms[0].id == id then Some(0)
    else match FirstDomain(doms[1..], id)
      case Some(i) => Some(i + 1)
      case None => None
  }

  /** `exists_device` */
  function ExistsDevice(s: Store, name: string): (r: bool)
    ensures r <==> exists i :: 0 <= i < |s.devices| && s.devices[i].name == name
  {
    FirstNamed(s.devices, name).Some?
  }

  /** `add_device`: appends an entry with domain list `[domain]` unless the name is
      taken, and recounts `total`. */
  function AddDevice(s: Store, name: string, domain: int, device: Device): (r: Store)
    ensures r.total == |r.devices| && r.domains == s.domains
    ensures ExistsDevice(r, name)
    ensures ExistsDevice(s, name) ==> r.devices == s.devices
    ensures !ExistsDevice(s, name) ==> r.devices == s.devices + [DeviceEntry(name, [domain], device)]
    ensures UniqueNames(s.devices) ==> UniqueNames(r.devices)
    ensures StoreValid(s) ==> StoreValid(r)
    ensures forall n :: n != name ==> GetDevice(r, n) == GetDevice(s, n)
  {
    if ExistsDevice(s, name) then s.(total := |s.devices|)
    else
      var e := DeviceEntry(name, [domain], device);
      var devs := s.devices + [e];
      assert devs[|s.devices|].name == name;
      assert forall n :: n != name ==> FirstNamed(devs, n) == FirstNamed(s.devices, n) by {
        forall n | n != name ensures FirstNamed(devs, n) == FirstNamed(s.devices, n) {
          FirstNamedAppend(s.devices, e, n);
        }
      }
      s.(devices := devs, total := |devs|)
  }

  /** Appending an entry with another name leaves the first entry of a name
      where it was. */
  lemma {:induction false} FirstNamedAppend(devs: seq<DeviceEntry>, e: DeviceEntry, n: string)
    requires e.name != n
    ensures FirstNamed(devs + [e], n) == FirstNamed(devs, n)
  {
    if devs != [] && devs[0].name != n {
      assert (devs + [e])[1..] == devs[1..] + [e];
      FirstNamedAppend(devs[1..], e, n);
    }
  }

  /** `get_device`: the device of the first entry with the name. */
  function GetDevice(s: Store, name: string): (r: Result<Device>)
    ensures r.Ok? <==> ExistsDevice(s, name)
    ensures r.Err? ==> r.error == DeviceNotFound
    ensures r.Ok? ==> exists i :: 0 <= i < |s.devices| && s.devices[i].name == name && s.devices[i].device == r.value
  {
    match FirstNamed(s.devices, name)
    case Some(i) => Ok(s.devices[i].device)
    case None => Err(DeviceNotFound)
  }

  /** `get_device_by_ip`: the first device with the ip. */
  function GetDeviceByIp(s: Store, ip: string): (r: Result<Device>)
    ensures r.Ok? <==> exists i :: 0 <= i < |s.devices| && s.devices[i].device.ip == ip
    ensures r.Err? ==> r.error == DeviceNotFound
    ensures r.Ok? ==> r.value.ip == ip
  {
    match FirstWithIp(s.devices, ip)
    case Some(i) => Ok(s.devices[i].device)
    case None => Err(DeviceNotFound)
  }

  /** `get_domain_for_device`: the domain list of the first entry with the name. */
  function GetDomainForDevice(s: Store, name: string): (r: Result<seq<int>>)
    ensures r.Ok? <==> ExistsDevice(s, name)
    ensures r.Err? ==> r.error == DeviceNotFound
    ensures r.Ok? ==> exists i :: 0 <= i < |s.devices| && s.devices[i].name == name && s.devices[i].domains == r.value
  {
    match FirstNamed(s.devices, name)
    case Some(i) => Ok(s.devices[i].domains)
    case None => Err(DeviceNotFound)
  }

  /** `get_domain`: the domain entry with the id. */
  function GetDomain(s: Store, id: int): (r: Result<DomainEntry>)
    ensures r.Ok? <==> exists i :: 0 <= i < |s.domains| && s.domains[i].id == id
    ensures r.Err? ==> r.error == DomainNotFound
    ensures r.Ok? ==> r.value in s.domains && r.value.id == id
  {
    match FirstDomain(s.domains, id)
    case Some(i) => Ok(s.domains[i])
    case None => Err(DomainNotFound)
  }

  /** `get_topology`: the topology of the domain with the id. */
  function GetTopology(s: Store, id: int): (r: Result<T.Topology>)
    ensures r.Ok? <==> exists i :: 0 <= i < |s.domains| && s.domains[i].id == id
    ensures r.Err? ==> r.error == DomainNotFound
    ensures r.Ok? ==> exists i :: 0 <= i < |s.domains| && s.domains[i].id == id && s.domains[i].topology == r.value
  {
    match FirstDomain(s.domains, id)
    case Some(i) => Ok(s.domains[i].topology)
    case None => Err(DomainNotFound)
  }

  /** `get_tunnel_node` */
  function GetTunnelNode(s: Store, id: int): (r: Result<Option<string>>)
    ensures r.Ok? <==> GetDomain(s, id).Ok?
    ensures r.Ok? ==> r.value == GetDomain(s, id).value.tunnelNode
    ensures r.Err? ==> r.error == DomainNotFound
  {
    var d :- GetDomain(s, id);
    Ok(d.tunnelNode)
  }

  /** `get_next_hop`: the device at position 1 of the shortest path from start to
      destination in the domain's full graph. The shortest-path routine is the
      parameter `sp`. A missing source row, a missing destination, an empty row or
      a path shorter than two nodes raise NextHopNotFound. */
  function GetNextHop(s: Store, sp: T.Graph -> T.PathTable, start: string, dest: string, domainId: int): (r: Result<Device>)
    ensures GetTopology(s, domainId).Err? ==> r == Err(DomainNotFound)
    ensures r.Err? ==> r.error == DomainNotFound || r.error == NextHopNotFound || r.error == DeviceNotFound
    ensures r.Ok? ==> exists path ::
      && GetTopology(s, domainId).Ok?
      && start in sp(GetTopology(s, domainId).value.graph)
      && T.RouteTo(sp(GetTopology(s, domainId).value.graph)[start], dest) == Some(path)
      && |path| >= 2
      && GetDevice(s, path[1]) == Ok(r.value)
    ensures GetTopology(s, domainId).Ok? ==> (
      var paths := sp(GetTopology(s, domainId).value.graph);
      (start !in paths || paths[start] == [] || T.RouteTo(paths[start], dest).None?
       || |T.RouteTo(paths[start], dest).value| < 2) <==> r == Err(NextHopNotFound))
  {
    var top :- GetTopology(s, domainId);
    var paths := sp(top.graph);
    if start !in paths || paths[start] == [] then Err(NextHopNotFound)
    else match T.RouteTo(paths[start], dest)
      case None => Err(NextHopNotFound)
      case Some(path) =>
        if |path| < 2 then Err(NextHopNotFound)
        else GetDevice(s, path[1])
  }

  /** `link_to_number`: the stored number of the link plus the number of switches of
      the domain, so link numbers never collide with BFR-ids 1..#switches. */
  function LinkToNumber(s: Store, linkName: string, domainId: int): (r: Result<int>)
    ensures GetTopology(s, domainId).Err? ==> r == Err(DomainNotFound)
    ensures GetTopology(s, domainId).Ok? ==> (
      var top := GetTopology(s, domainId).value;
      && (r.Ok? <==> linkName in top.links)
      && (r.Err? ==> r.error == LinkNotFound)
      && (r.Ok? ==> r.value == top.links[linkName] + |top.switchGraph.nodes|))
  {
    var top :- GetTopology(s, domainId);
    if linkName !in top.links then Err(LinkNotFound)
    else Ok(top.links[linkName] + |top.switchGraph.nodes|)
  }

  /** `get_device_by_domain_and_id`: the name of the first device whose id in the
      domain equals `id`. Hosts have no `get_bfr_id`: reaching one before a match
      raises AttributeError. */
  function GetDeviceByDomainAndId(s: Store, domain: int, id: int): (r: Result<string>)
    ensures r.Ok? ==> exists i :: (0 <= i < |s.devices| && s.devices[i].name == r.value
      && s.devices[i].device.kind.Switch? && GetBfrId(s.devices[i].device, domain) == id
      && forall j :: 0 <= j < i ==> PassedOver(s.devices[j], domain, id))
    ensures r.Err? ==> r.error == DeviceNotFound || r.error == AttributeError
    ensures r == Err(DeviceNotFound) <==> forall i :: 0 <= i < |s.devices| ==> PassedOver(s.devices[i], domain, id)
    ensures r == Err(AttributeError) ==> exists i :: 0 <= i < |s.devices| && s.devices[i].device.kind.Host?
    ensures (forall i :: 0 <= i < |s.devices| ==> s.devices[i].device.kind.Switch?) ==>
      (r.Ok? <==> exists i :: 0 <= i < |s.devices| && GetBfrId(s.devices[i].device, domain) == id)
  {
    var r := DeviceWithId(s.devices, domain, id);
    assert (forall i :: 0 <= i < |s.devices| ==> s.devices[i].device.kind.Switch?) ==>
      (r.Ok? <==> exists i :: 0 <= i < |s.devices| && GetBfrId(s.devices[i].device, domain) == id) by {
      if forall i :: 0 <= i < |s.devices| ==> s.devices[i].device.kind.Switch? {
        if r.Err? {
          assert r == Err(DeviceNotFound);
          assert forall i :: 0 <= i < |s.devices| ==> PassedOver(s.devices[i], domain, id);
        }
      }
    }
    r
  }

  /** A switch whose id in the domain is not the one looked for. */
  predicate PassedOver(e: DeviceEntry, domain: int, id: int) {
    e.device.kind.Switch? && GetBfrId(e.device, domain) != id
  }

  function DeviceWithId(devs: seq<DeviceEntry>, domain: int, id: int): (r: Result<string>)
    ensures r.Ok? ==> exists i :: (0 <= i < |devs| && devs[i].name == r.value
      && devs[i].device.kind.Switch? && GetBfrId(devs[i].device, domain) == id
      && forall j :: 0 <= j < i ==> PassedOver(devs[j], domain, id))
    ensures r.Err? ==> r.error == DeviceNotFound || r.error == AttributeError
    ensures r == Err(DeviceNotFound) <==> forall i :: 0 <= i < |devs| ==> PassedOver(devs[i], domain, id)
    ensures r == Err(AttributeError) ==> exists i :: 0 <= i < |devs| && devs[i].device.kind.Host?
    decreases |devs|
  {
    if devs == [] then Err(DeviceNotFound)
    else if devs[0].device.kind.Host? then Err(AttributeError)
    else if GetBfrId(devs[0].device, domain) == id then Ok(devs[0].name)
    else
      var r := DeviceWithId(devs[1..], domain, id);
      DeviceWithIdTail(devs, domain, id, r);
      r
  }

  /** The contract of `DeviceWithId` carried from the tail to the whole list when
      the head is passed over. */
  lemma DeviceWithIdTail(devs: seq<DeviceEntry>, domain: int, id: int, r: Result<string>)
    requires |devs| >= 1 && PassedOver(devs[0], domain, id)
    requires r.Ok? ==> exists i :: (0 <= i < |devs[1..]| && devs[1..][i].name == r.value
      && devs[1..][i].device.kind.Switch? && GetBfrId(devs[1..][i].device, domain) == id
      && forall j :: 0 <= j < i ==> PassedOver(devs[1..][j], domain, id))
    requires r == Err(DeviceNotFound) <==> forall i :: 0 <= i < |devs[1..]| ==> PassedOver(devs[1..][i], domain, id)
    requires r == Err(AttributeError) ==> exists i :: 0 <= i < |devs[1..]| && devs[1..][i].device.kind.Host?
    ensures r.Ok? ==> exists i :: (0 <= i < |devs| && devs[i].name == r.value
      && devs[i].device.kind.Switch? && GetBfrId(devs[i].device, domain) == id
      && forall j :: 0 <= j < i ==> PassedOver(devs[j], domain, id))
    ensures r == Err(DeviceNotFound) <==> forall i :: 0 <= i < |devs| ==> PassedOver(devs[i], domain, id)
    ensures r == Err(AttributeError) ==> exists i :: 0 <= i < |devs| && devs[i].device.kind.Host?
  {
    if r.Ok? {
      var i :| (0 <= i < |devs[1..]| && devs[1..][i].name == r.value
        && devs[1..][i].device.kind.Switch? && GetBfrId(devs[1..][i].device, domain) == id
        && forall j :: 0 <= j < i ==> PassedOver(devs[1..][j], domain, id));
      assert devs[i + 1] == devs[1..][i];
      forall j | 0 <= j < i + 1 ensures PassedOver(devs[j], domain, id) {
        if j > 0 {
          assert devs[j] == devs[1..][j - 1];
        }
      }
    }
    assert forall i :: 0 <= i < |devs[1..]| ==> devs[1..][i] == devs[i + 1];
    if r == Err(AttributeError) {
      var i :| 0 <= i < |devs[1..]| && devs[1..][i].device.kind.Host?;
      assert devs[i + 1].device.kind.Host?;
    }
    if forall i :: 0 <= i < |devs| ==> PassedOver(devs[i], domain, id) {
      assert forall i :: 0 <= i < |devs[1..]| ==> PassedOver(devs[1..][i], domain, id);
    }
  }

  /** `add_device_to_domain`: appends the domain to the first entry with the name
      unless it is listed already; an unknown name changes nothing. */
  function AddDeviceToDomain(s: Store, name: string, domain: int): (r: Store)
    ensures !ExistsDevice(s, name) ==> r == s
    ensures |r.devices| == |s.devices| && r.total == s.total && r.domains == s.domains
    ensures forall i :: 0 <= i < |s.devices| ==> r.devices[i].name == s.devices[i].name && r.devices[i].device == s.devices[i].device
    ensures ExistsDevice(s, name) ==> (
      var i := FirstNamed(s.devices, name).value;
      && (forall d :: d in r.devices[i].domains <==> d in s.devices[i].domains || d == domain)
      && (forall j :: 0 <= j < |s.devices| && j != i ==> r.devices[j] == s.devices[j]))
    ensures forall i :: 0 <= i < |s.devices| && NoDuplicates(s.devices[i].domains) ==> NoDuplicates(r.devices[i].domains)
    ensures StoreValid(s) ==> StoreValid(r)
  {
    match FirstNamed(s.devices, name)
    case None => s
    case Some(i) =>
      var e := s.devices[i];
      if domain in e.domains then s
      else s.(devices := s.devices[i := e.(domains := e.domains + [domain])])
  }

  /** `set_topology`: replaces the topology of the domain with the id, or appends a
      new domain with no tunnel node. */
  function SetTopology(s: Store, domainId: int, top: T.Topology): (r: Store)
    ensures r.devices == s.devices && r.total == s.total
    ensures GetTopology(r, domainId) == Ok(top)
    ensures forall other :: other != domainId ==> GetDomain(r, other) == GetDomain(s, other)
    ensures GetDomain(s, domainId).Ok? ==> (|r.domains| == |s.domains|
      && GetDomain(r, domainId).value.tunnelNode == GetDomain(s, domainId).value.tunnelNode)
    ensures GetDomain(s, domainId).Err? ==> r.domains == s.domains + [DomainEntry(domainId, top, None)]
    ensures UniqueDomainIds(s.domains) ==> UniqueDomainIds(r.domains)
    ensures StoreValid(s) ==> StoreValid(r)
  {
    match FirstDomain(s.domains, domainId)
    case Some(i) =>
      var r := s.(domains := s.domains[i := s.domains[i].(topology := top)]);
      assert FirstDomain(r.domains, domainId) == Some(i) by {
        FirstDomainPrefix(s.domains, r.domains, domainId, i);
      }
      forall other | other != domainId ensures GetDomain(r, other) == GetDomain(s, other) {
        FirstDomainOther(s.domains, i, s.domains[i].(topology := top), other);
      }
      r
    case None =>
      var r := s.(domains := s.domains + [DomainEntry(domainId, top, None)]);
      assert FirstDomain(r.domains, domainId) == Some(|s.domains|) by {
        FirstDomainPrefix(s.domains + [DomainEntry(domainId, top, None)], r.domains, domainId, |s.domains|);
      }
      forall other | other != domainId ensures GetDomain(r, other) == GetDomain(s, other) {
        FirstDomainAppend(s.domains, DomainEntry(domainId, top, None), other);
      }
      r
  }

  /** The first match is decided by the prefix up to and including it. */
  lemma {:induction false} FirstDomainPrefix(doms: seq<DomainEntry>, other: seq<DomainEntry>, id: int, i: nat)
    requires i < |doms| && i < |other| && other[i].id == id
    requires forall j :: 0 <= j < i ==> other[j].id != id
    ensures FirstDomain(other, id) == Some(i)
  {
    if i > 0 {
      FirstDomainPrefix(doms[1..], other[1..], id, i - 1);
    }
  }

  lemma {:induction false} FirstDomainOther(doms: seq<DomainEntry>, i: nat, e: DomainEntry, other: int)
    requires i < |doms| && e.id == doms[i].id && doms[i].id != other
    ensures FirstDomain(doms[i := e], other) == FirstDomain(doms, other)
    ensures FirstDomain(doms, other).Some? ==> doms[i := e][FirstDomain(doms, other).value] == doms[FirstDomain(doms, other).value]
  {
    if i > 0 {
      assert doms[i := e][1..] == doms[1..][i - 1 := e];
      FirstDomainOther(doms[1..], i - 1, e, other);
    }
  }

  lemma {:induction false} FirstDomainAppend(doms: seq<DomainEntry>, e: DomainEntry, other: int)
    requires e.id != other
    ensures FirstDomain(doms + [e], other) == FirstDomain(doms, other)
  {
    if doms != [] {
      assert (doms + [e])[1..] == doms[1..] + [e];
      FirstDomainAppend(doms[1..], e, other);
    }
  }

  /** The device is registered and its first entry lists the domain. */
  predicate InDomain(s: Store, name: string, domain: int) {
    GetDomainForDevice(s, name).Ok? && domain in GetDomainForDevice(s, name).value
  }

  /** Every neighbour of the entry's device is registered. */
  predicate NeighboursRegistered(s: Store, e: DeviceEntry) {
    forall n :: n in Neighbours(e.device.ports) ==> ExistsDevice(s, n)
  }

  /** The edge a->b belongs to the domain graph of `devs`: a is an entry in the
      domain, b is one of its neighbours and b is in the domain too. */
  ghost predicate DomainEdge(s: Store, devs: seq<DeviceEntry>, domain: int, e: T.Edge) {
    exists d :: d in devs && domain in d.domains && d.name == e.src
      && e.dst in Neighbours(d.device.ports) && InDomain(s, e.dst, domain)
  }

  /** `build_domain`: a fresh topology for the domain holding every device listed in
      it, with an edge a->b whenever b is a neighbour of a in the same domain; the
      topology is then stored with `set_topology`. A neighbour missing from the
      registry raises DeviceNotFound and leaves the registry unchanged. */
  function BuildDomain(s: Store, roster: seq<string>, domain: int): (r: Result<Store>)
    ensures r.Ok? <==> forall d :: d in s.devices && domain in d.domains ==> NeighboursRegistered(s, d)
    ensures r.Err? ==> r.error == DeviceNotFound
    ensures r.Ok? ==> (GetTopology(r.value, domain).Ok? && (
      var top := GetTopology(r.value, domain).value;
      && T.Valid(top)
      && top.id == domain
      && (forall m :: m in top.graph.nodes <==> exists d :: d in s.devices && domain in d.domains && d.name == m)
      && (forall e :: e in top.graph.edges <==> DomainEdge(s, s.devices, domain, e))))
    ensures r.Ok? ==> (r.value.devices == s.devices
      && forall other :: other != domain ==> GetDomain(r.value, other) == GetDomain(s, other))
  {
    var top :- BuildFrom(s, s.devices, roster, domain, T.NewTopology(domain));
    forall m | m in top.graph.nodes ensures exists d :: d in s.devices && domain in d.domains && d.name == m {
      if !exists d :: d in s.devices && domain in d.domains && d.name == m {
        assert InDomain(s, m, domain);
        var i :| 0 <= i < |s.devices| && s.devices[i].name == m && s.devices[i].domains == GetDomainForDevice(s, m).value;
        assert s.devices[i] in s.devices;
      }
    }
    Ok(SetTopology(s, domain, top))
  }

  /** The device loop of `build_domain` over `devs`, extending `top`. */
  function BuildFrom(s: Store, devs: seq<DeviceEntry>, roster: seq<string>, domain: int, top: T.Topology): (r: Result<T.Topology>)
    requires T.Valid(top)
    ensures r.Ok? <==> forall d :: d in devs && domain in d.domains ==> NeighboursRegistered(s, d)
    ensures r.Err? ==> r.error == DeviceNotFound
    ensures r.Ok? ==> T.Valid(r.value) && r.value.id == top.id
    ensures r.Ok? ==> forall e :: e in r.value.graph.edges <==> e in top.graph.edges || DomainEdge(s, devs, domain, e)
    ensures r.Ok? ==> forall m :: m in r.value.graph.nodes <==>
      || m in top.graph.nodes
      || (exists d :: d in devs && domain in d.domains && d.name == m)
      || (InDomain(s, m, domain) && exists d :: d in devs && domain in d.domains && m in Neighbours(d.device.ports))
    decreases |devs|
  {
    if devs == [] then Ok(top)
    else
      var d0 := devs[0];
      assert forall d :: d in devs <==> d == d0 || d in devs[1..];
      if domain !in d0.domains then
        var r := BuildFrom(s, devs[1..], roster, domain, top);
        assert forall e :: DomainEdge(s, devs, domain, e) <==> DomainEdge(s, devs[1..], domain, e);
        r
      else
        var t1 := T.AddNode(top, d0.name, roster);
        var nbs := Neighbours(d0.device.ports);
        match AddNeighbourEdges(s, d0.name, nbs, domain, t1)
        case Err(err) => Err(err)
        case Ok(t2) =>
          var r := BuildFrom(s, devs[1..], roster, domain, t2);
          assert forall e :: DomainEdge(s, devs, domain, e) <==>
            (e.src == d0.name && e.dst in nbs && InDomain(s, e.dst, domain)) || DomainEdge(s, devs[1..], domain, e);
          r
  }

  /** The neighbour loop of `build_domain` for the device `name`. */
  function AddNeighbourEdges(s: Store, name: string, nbs: seq<string>, domain: int, top: T.Topology): (r: Result<T.Topology>)
    requires T.Valid(top)
    requires name in top.graph.nodes
    ensures r.Ok? <==> forall n :: n in nbs ==> ExistsDevice(s, n)
    ensures r.Err? ==> r.error == DeviceNotFound
    ensures r.Ok? ==> T.Valid(r.value) && r.value.id == top.id
    ensures r.Ok? ==> forall e :: e in r.value.graph.edges <==>
      e in top.graph.edges || (e.src == name && e.dst in nbs && InDomain(s, e.dst, domain))
    ensures r.Ok? ==> forall m :: m in r.value.graph.nodes <==>
      m in top.graph.nodes || (m in nbs && InDomain(s, m, domain))
    decreases |nbs|
  {
    if nbs == [] then Ok(top)
    else
      assert forall n :: n in nbs <==> n == nbs[0] || n in nbs[1..];
      match GetDomainForDevice(s, nbs[0])
      case Err(err) => Err(err)
      case Ok(doms) =>
        var t1 := if domain in doms then T.AddEdge(top, name, nbs[0]) else top;
        AddNeighbourEdges(s, name, nbs[1..], domain, t1)
  }

  /** With a shortest-path routine that meets its promise, the next hop toward any
      other node reachable in the domain graph exists whenever the graph's nodes are
      registered: it is the device named by the second node of the shortest path,
      a neighbour of the start in the graph. */
  lemma NextHopExists(s: Store, sp: T.Graph -> T.PathTable, start: string, dest: string, domain: int, path: seq<string>)
    requires NamesMatch(s)
    requires GetTopology(s, domain).Ok?
    requires var g := GetTopology(s, domain).value.graph;
      T.IsShortestPathTable(g, sp(g)) && T.IsPath(g, path) && path[0] == start && path[|path| - 1] == dest
    requires start != dest
    requires forall m :: m in GetTopology(s, domain).value.graph.nodes ==> ExistsDevice(s, m)
    ensures GetNextHop(s, sp, start, dest, domain).Ok?
    ensures T.Edge(start, GetNextHop(s, sp, start, dest, domain).value.name) in GetTopology(s, domain).value.graph.edges
  {
    var g := GetTopology(s, domain).value.graph;
    var paths := sp(g);
    T.NextHopOnPath(g, paths, path);
    var p := T.RouteTo(paths[start], dest).value;
    assert GetDevice(s, p[1]).Ok?;
    var i :| 0 <= i < |s.devices| && s.devices[i].name == p[1] && s.devices[i].device == GetDevice(s, p[1]).value;
  }

  /** `get_paths`: rebuilds the domain, then hands out the shortest-path table
      of its full graph; the registry keeps the rebuilt topology. */
  function GetPaths(s: Store, roster: seq<string>, sp: T.Graph -> T.PathTable, domain: int): (r: Result<(Store, T.PathTable)>)
    ensures r.Ok? <==> forall d :: d in s.devices && domain in d.domains ==> NeighboursRegistered(s, d)
    ensures r.Err? ==> r.error == DeviceNotFound
    ensures r.Ok? ==> (r.value.0.devices == s.devices && GetTopology(r.value.0, domain).Ok?
      && r.value.1 == sp(GetTopology(r.value.0, domain).value.graph))
  {
    var s1 :- BuildDomain(s, roster, domain);
    Ok((s1, sp(GetTopology(s1, domain).value.graph)))
  }

  /** The registry `get_paths` leaves is the rebuilt one. */
  lemma GetPathsBuilds(s: Store, roster: seq<string>, sp: T.Graph -> T.PathTable, domain: int)
    requires GetPaths(s, roster, sp, domain).Ok?
    ensures BuildDomain(s, roster, domain) == Ok(GetPaths(s, roster, sp, domain).value.0)
  {
  }

  /** With unique names, the device registered in an entry is the one
      `get_device` finds under its name. */
  lemma GetDeviceOfEntry(s: Store, e: DeviceEntry)
    requires UniqueNames(s.devices) && e in s.devices
    ensures GetDevice(s, e.name) == Ok(e.device)
  {
    var i :| 0 <= i < |s.devices| && s.devices[i] == e;
    var j :| 0 <= j < |s.devices| && s.devices[j].name == e.name && s.devices[j].device == GetDevice(s, e.name).value;
    assert i == j;
  }

  /** Replaces the device of the first entry with the name: the source mutates
      the registered device object in place. */
  function UpdateDevice(s: Store, name: string, d: Device): (r: Store)
    ensures |r.devices| == |s.devices| && r.total == s.total && r.domains == s.domains
    ensures forall i :: 0 <= i < |s.devices| ==> r.devices[i].name == s.devices[i].name && r.devices[i].domains == s.devices[i].domains
    ensures ExistsDevice(s, name) ==> GetDevice(r, name) == Ok(d)
    ensures forall n :: n != name ==> GetDevice(r, n) == GetDevice(s, n)
    ensures StoreValid(s) ==> StoreValid(r)
  {
    match FirstNamed(s.devices, name)
    case None => s
    case Some(i) =>
      var r := s.(devices := s.devices[i := s.devices[i].(device := d)]);
      assert forall j :: 0 <= j < |r.devices| ==> r.devices[j].name == s.devices[j].name;
      assert forall n :: FirstNamed(r.devices, n) == FirstNamed(s.devices, n) by {
        forall n ensures FirstNamed(r.devices, n) == FirstNamed(s.devices, n) {
          SameNamesSameFirst(r.devices, s.devices, n);
        }
      }
      r
  }

  lemma {:induction false} SameNamesSameFirst(a: seq<DeviceEntry>, b: seq<DeviceEntry>, n: string)
    requires |a| == |b| && forall j :: 0 <= j < |a| ==> a[j].name == b[j].name
    ensures FirstNamed(a, n) == FirstNamed(b, n)
  {
    if a != [] {
      SameNamesSameFirst(a[1..], b[1..], n);
    }
  }

  /** The port-status message a local controller forwards. */
  datatype PortMessage = PortMessage(switch: string, port: int, status: int)

  /** `react_to_port_change`: on a port-down message for a port with a neighbour,
      the first binding on that port is dropped from the switch, then the switch's
      port is dropped from the neighbour, and topology_change fires (the flag of the
      result) with the `delay` option as its sleep. Status 1 or a port without
      neighbour changes nothing. The neighbour is fetched again after the switch is
      updated, as the source shares the device objects. An exception keeps the
      removals made before it: a neighbour without a binding back to the switch
      raises DeviceNotFound after the switch lost its port, and an unset `delay`
      raises ConfigurationNotFound after both removals, before the event fires. */
  function ReactToPortChange(s: Store, msg: PortMessage, delay: Option<int>): (r: (Store, bool, Option<Error>))
    ensures msg.status == 1 ==> r == (s, false, None)
    ensures msg.status != 1 && GetDevice(s, msg.switch).Err? ==> r == (s, false, Some(DeviceNotFound))
    ensures (msg.status != 1 && GetDevice(s, msg.switch).Ok? &&
      msg.port !in Ports(GetDevice(s, msg.switch).value.ports)) ==> r == (s, false, None)
    ensures r.1 ==> r.2.None? && delay.Some? && msg.status != 1 && msg.port in Ports(GetDevice(s, msg.switch).value.ports)
    ensures r.2.Some? ==> !r.1 && (r.2.value == DeviceNotFound || (r.2.value == ConfigurationNotFound && delay.None?))
    ensures !r.1 && r.2.None? ==> r.0 == s
    ensures |r.0.devices| == |s.devices| && r.0.domains == s.domains
    ensures StoreValid(s) ==> StoreValid(r.0)
  {
    if msg.status == 1 then (s, false, None)
    else
      match GetDevice(s, msg.switch)
      case Err(e) => (s, false, Some(e))
      case Ok(dev) =>
        match NeighbourByPort(dev.ports, msg.port)
        case None => (s, false, None)
        case Some(nbName) =>
          if GetDevice(s, nbName).Err? then (s, false, Some(DeviceNotFound))
          else
            var ports := RemovePort(dev.ports, msg.port).value;
            var s1 := UpdateDevice(s, msg.switch, dev.(ports := ports));
            var nb := GetDevice(s1, nbName).value;
            match GetDeviceToPort(nb.ports, dev.name)
            case Err(e) => (s1, false, Some(e))
            case Ok(p) =>
              var nbPorts := RemovePort(nb.ports, p).value;
              var s2 := UpdateDevice(s1, nbName, nb.(ports := nbPorts));
              if delay.None? then (s2, false, Some(ConfigurationNotFound)) else (s2, true, None)
  }

  /** Each registered device is stored under its own name. */
  predicate NamesMatch(s: Store) {
    forall i :: 0 <= i < |s.devices| ==> s.devices[i].name == s.devices[i].device.name
  }

  /** A neighbour map that binds each neighbour once and uses each port once. */
  predicate WellFormedPorts(pm: PortMap) {
    UniqueNeighbours(pm) && forall i, j :: 0 <= i < j < |pm| ==> pm[i].port != pm[j].port
  }

  /** With well-formed neighbour maps and a link known at both ends, a port-down
      message removes the adjacency at both ends; topology_change fires exactly
      when the `delay` option is set, and ConfigurationNotFound is raised otherwise. */
  lemma ReactRemovesAdjacency(s: Store, msg: PortMessage, delay: Option<int>)
    requires NamesMatch(s)
    requires forall i :: 0 <= i < |s.devices| ==> WellFormedPorts(s.devices[i].device.ports)
    requires msg.status != 1 && GetDevice(s, msg.switch).Ok?
    requires msg.port in Ports(GetDevice(s, msg.switch).value.ports)
    requires var gone := NeighbourByPort(GetDevice(s, msg.switch).value.ports, msg.port).value;
      && gone != msg.switch
      && GetDevice(s, gone).Ok?
      && msg.switch in Neighbours(GetDevice(s, gone).value.ports)
    ensures ReactToPortChange(s, msg, delay).1 <==> delay.Some?
    ensures ReactToPortChange(s, msg, delay).2 == if delay.Some? then None else Some(ConfigurationNotFound)
    ensures var gone := NeighbourByPort(GetDevice(s, msg.switch).value.ports, msg.port).value;
      var s2 := ReactToPortChange(s, msg, delay).0;
      && GetDevice(s2, msg.switch).Ok? && Find(GetDevice(s2, msg.switch).value.ports, gone) == None
      && GetDevice(s2, gone).Ok? && Find(GetDevice(s2, gone).value.ports, msg.switch) == None
  {
    var dev := GetDevice(s, msg.switch).value;
    var gone := NeighbourByPort(dev.ports, msg.port).value;
    assert dev.name == msg.switch;
    RemovePortUnbindsOne(dev.ports, msg.port);
    var ports := RemovePort(dev.ports, msg.port).value;
    var s1 := UpdateDevice(s, msg.switch, dev.(ports := ports));
    var nb := GetDevice(s, gone).value;
    assert GetDevice(s1, gone) == Ok(nb);
    FindSome(nb.ports, msg.switch);
    var p := GetDeviceToPort(nb.ports, msg.switch).value;
    assert Binding(msg.switch, p) in nb.ports;
    assert NeighbourByPort(nb.ports, p) == Some(msg.switch);
    RemovePortUnbindsOne(nb.ports, p);
  }

  /** When the neighbour holds no binding back to the switch, the switch still
      loses its binding to the neighbour before DeviceNotFound is raised; the
      neighbour is left as it was and no event fires. */
  lemma ReactKeepsFirstRemoval(s: Store, msg: PortMessage, delay: Option<int>)
    requires NamesMatch(s)
    requires forall i :: 0 <= i < |s.devices| ==> WellFormedPorts(s.devices[i].device.ports)
    requires msg.status != 1 && GetDevice(s, msg.switch).Ok?
    requires msg.port in Ports(GetDevice(s, msg.switch).value.ports)
    requires var gone := NeighbourByPort(GetDevice(s, msg.switch).value.ports, msg.port).value;
      && gone != msg.switch
      && GetDevice(s, gone).Ok?
      && msg.switch !in Neighbours(GetDevice(s, gone).value.ports)
    ensures var r := ReactToPortChange(s, msg, delay);
      r.2 == Some(DeviceNotFound) && !r.1
    ensures var gone := NeighbourByPort(GetDevice(s, msg.switch).value.ports, msg.port).value;
      var s1 := ReactToPortChange(s, msg, delay).0;
      && GetDevice(s1, msg.switch).Ok? && Find(GetDevice(s1, msg.switch).value.ports, gone) == None
      && GetDevice(s1, gone) == GetDevice(s, gone)
  {
    var dev := GetDevice(s, msg.switch).value;
    var gone := NeighbourByPort(dev.ports, msg.port).value;
    assert dev.name == msg.switch;
    RemovePortUnbindsOne(dev.ports, msg.port);
  }
}
