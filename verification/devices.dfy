/** Devices of the network: switches and hosts with their neighbour-to-port map,
    and the per-domain BFR-id mapping a switch carries. */
module Devices {
  import opened Wrappers

  /** One entry of a device's neighbour->port dictionary. */
  datatype Binding = Binding(neighbour: string, port: int)

  /** The neighbour->port dictionary in insertion order; a key occurs at most once
      in every map the operations below build. */
  type PortMap = seq<Binding>

  predicate UniqueNeighbours(pm: PortMap) {
    forall i, j :: 0 <= i < j < |pm| ==> pm[i].neighbour != pm[j].neighbour
  }

  /** `dict.get(neighbour)`: the port bound to a neighbour, if any. */
  function Find(pm: PortMap, neighbour: string): Option<int> {
    if pm == [] then None
    else if pm[0].neighbour == neighbour then Some(pm[0].port)
    else Find(pm[1..], neighbour)
  }

  /** The keys of the dictionary, in order. */
  function Neighbours(pm: PortMap): (r: seq<string>)
    ensures |r| == |pm|
    ensures forall i :: 0 <= i < |pm| ==> r[i] == pm[i].neighbour
  {
    if pm == [] then [] else [pm[0].neighbour] + Neighbours(pm[1..])
  }

  /** The values of the dictionary, in order. */
  function Ports(pm: PortMap): (r: seq<int>)
    ensures |r| == |pm|
    ensures forall i :: 0 <= i < |pm| ==> r[i] == pm[i].port
  {
    if pm == [] then [] else [pm[0].port] + Ports(pm[1..])
  }

  lemma {:induction false} FindSome(pm: PortMap, neighbour: string)
    ensures Find(pm, neighbour).Some? <==> neighbour in Neighbours(pm)
    ensures Find(pm, neighbour).Some? ==>
      exists i :: 0 <= i < |pm| && pm[i] == Binding(neighbour, Find(pm, neighbour).value)
  {
    if pm != [] {
      FindSome(pm[1..], neighbour);
      assert Neighbours(pm) == [pm[0].neighbour] + Neighbours(pm[1..]);
      if Find(pm[1..], neighbour).Some? && pm[0].neighbour != neighbour {
        var i :| 0 <= i < |pm[1..]| && pm[1..][i] == Binding(neighbour, Find(pm[1..], neighbour).value);
        assert pm[i + 1] == pm[1..][i];
      }
    }
  }

  /** In a map with unique keys, the binding at index i is what `Find` returns. */
  lemma {:induction false} FindAt(pm: PortMap, i: int)
    requires UniqueNeighbours(pm)
    requires 0 <= i < |pm|
    ensures Find(pm, pm[i].neighbour) == Some(pm[i].port)
  {
    if i > 0 {
      FindAt(pm[1..], i - 1);
    }
  }

  /** `dict[neighbour] = port`: overwrite in place, or append a new key. */
  function Bind(pm: PortMap, neighbour: string, port: int): (r: PortMap)
    ensures Find(r, neighbour) == Some(port)
    ensures forall other :: other != neighbour ==> Find(r, other) == Find(pm, other)
  {
    if pm == [] then [Binding(neighbour, port)]
    else if pm[0].neighbour == neighbour then [Binding(neighbour, port)] + pm[1..]
    else [pm[0]] + Bind(pm[1..], neighbour, port)
  }

  /** `Bind` adds the neighbour to the keys, keeps the others, and keeps keys unique. */
  lemma {:induction false} BindKeys(pm: PortMap, neighbour: string, port: int)
    ensures forall n :: n in Neighbours(Bind(pm, neighbour, port)) <==> n in Neighbours(pm) || n == neighbour
    ensures UniqueNeighbours(pm) ==> UniqueNeighbours(Bind(pm, neighbour, port))
  {
    var r := Bind(pm, neighbour, port);
    if pm == [] {
    } else if pm[0].neighbour == neighbour {
      assert Neighbours(r) == [neighbour] + Neighbours(pm[1..]);
      assert Neighbours(pm) == [neighbour] + Neighbours(pm[1..]);
    } else {
      BindKeys(pm[1..], neighbour, port);
      assert Neighbours(r) == [pm[0].neighbour] + Neighbours(r[1..]);
      assert Neighbours(pm) == [pm[0].neighbour] + Neighbours(pm[1..]);
      if UniqueNeighbours(pm) {
        assert pm[0].neighbour !in Neighbours(pm[1..]);
        assert pm[0].neighbour !in Neighbours(r[1..]);
      }
    }
  }

  /** `Device.add_device_to_port`: binds the neighbour to the port unless
      `dict.get(neighbour, -1)` already equals the port; reports whether it wrote. */
  function AddDeviceToPort(pm: PortMap, neighbour: string, port: int): (r: (PortMap, bool))
    ensures r.1 <==> Find(pm, neighbour).GetOr(-1) != port
    ensures r.1 ==> r.0 == Bind(pm, neighbour, port)
    ensures !r.1 ==> r.0 == pm
  {
    if Find(pm, neighbour).GetOr(-1) != port then (Bind(pm, neighbour, port), true) else (pm, false)
  }

  /** `Device.get_device_to_port`: the port of a neighbour, DeviceNotFound if unbound. */
  function GetDeviceToPort(pm: PortMap, neighbour: string): (r: Result<int>)
    ensures r.Ok? <==> neighbour in Neighbours(pm)
    ensures r.Err? ==> r.error == DeviceNotFound
    ensures r.Ok? ==> Binding(neighbour, r.value) in pm
  {
    FindSome(pm, neighbour);
    match Find(pm, neighbour)
    case Some(p) => Ok(p)
    case None => Err(DeviceNotFound)
  }

  /** Index of the first binding that uses the port. */
  function FirstWithPort(pm: PortMap, port: int): (r: Option<nat>)
    ensures r.Some? ==> (r.value < |pm| && pm[r.value].port == port
      && forall j :: 0 <= j < r.value ==> pm[j].port != port)
    ensures r.None? ==> forall j :: 0 <= j < |pm| ==> pm[j].port != port
  {
    if pm == [] then None
    else if pm[0].port == port then Some(0)
    else match FirstWithPort(pm[1..], port)
      case Some(i) => Some(i + 1)
      case None => None
  }

  /** The neighbour reached through a port (first in dictionary order), if any. */
  function NeighbourByPort(pm: PortMap, port: int): (r: Option<string>)
    ensures r.Some? <==> port in Ports(pm)
    ensures r.Some? ==> Binding(r.value, port) in pm
  {
    match FirstWithPort(pm, port)
    case Some(i) => Some(pm[i].neighbour)
    case None => None
  }

  /** `Device.remove_port`: pops the first neighbour bound to the port; with no such
      neighbour the source pops the key `None`, which raises KeyError. */
  function RemovePort(pm: PortMap, port: int): (r: Result<PortMap>)
    ensures r.Ok? <==> port in Ports(pm)
    ensures r.Err? ==> r.error == KeyError
    ensures r.Ok? ==> exists i :: (0 <= i < |pm| && pm[i].port == port
      && (forall j :: 0 <= j < i ==> pm[j].port != port)
      && r.value == pm[..i] + pm[i + 1..])
  {
    match FirstWithPort(pm, port)
    case Some(i) => Ok(pm[..i] + pm[i + 1..])
    case None => Err(KeyError)
  }

  /** Removing one binding of a map with unique keys unbinds exactly that neighbour. */
  lemma {:induction false} RemoveAtFind(pm: PortMap, i: int, other: string)
    requires UniqueNeighbours(pm)
    requires 0 <= i < |pm|
    ensures UniqueNeighbours(pm[..i] + pm[i + 1..])
    ensures other == pm[i].neighbour ==> Find(pm[..i] + pm[i + 1..], other) == None
    ensures other != pm[i].neighbour ==> Find(pm[..i] + pm[i + 1..], other) == Find(pm, other)
  {
    var r := pm[..i] + pm[i + 1..];
    if i == 0 {
      assert r == pm[1..];
      if other == pm[0].neighbour {
        forall j | 0 <= j < |r| ensures r[j].neighbour != other {
          assert r[j] == pm[j + 1];
        }
        assert other !in Neighbours(r);
        FindSome(r, other);
      }
    } else {
      RemoveAtFind(pm[1..], i - 1, other);
      assert r == [pm[0]] + (pm[1..][..i - 1] + pm[1..][i..]);
    }
  }

  /** The effect of `remove_port`: exactly one neighbour that used
      the port is unbound and every other binding is kept. */
  lemma RemovePortUnbindsOne(pm: PortMap, port: int)
    requires UniqueNeighbours(pm)
    requires port in Ports(pm)
    ensures RemovePort(pm, port).Ok?
    ensures var gone := NeighbourByPort(pm, port).value;
      && Find(RemovePort(pm, port).value, gone) == None
      && Find(pm, gone) == Some(port)
      && (forall n :: n != gone ==> Find(RemovePort(pm, port).value, n) == Find(pm, n))
      && |RemovePort(pm, port).value| == |pm| - 1
  {
    var i := FirstWithPort(pm, port).value;
    FindAt(pm, i);
    forall n ensures n != pm[i].neighbour ==> Find(RemovePort(pm, port).value, n) == Find(pm, n) {
      RemoveAtFind(pm, i, n);
    }
    RemoveAtFind(pm, i, pm[i].neighbour);
  }

  /** After `add_device_to_port(d, p)` the neighbour is bound to p, except when d was
      unbound and p is -1, the default `dict.get` compares against. */
  lemma AddThenGet(pm: PortMap, neighbour: string, port: int)
    ensures port != -1 || neighbour in Neighbours(pm) ==>
      GetDeviceToPort(AddDeviceToPort(pm, neighbour, port).0, neighbour) == Ok(port)
    ensures port == -1 && neighbour !in Neighbours(pm) ==>
      GetDeviceToPort(AddDeviceToPort(pm, neighbour, port).0, neighbour) == Err(DeviceNotFound)
  {
    FindSome(pm, neighbour);
    var r := AddDeviceToPort(pm, neighbour, port).0;
    FindSome(r, neighbour);
  }

  /** Repeating `add_device_to_port` with the same arguments reports no change. */
  lemma AddTwiceUnchanged(pm: PortMap, neighbour: string, port: int)
    ensures var once := AddDeviceToPort(pm, neighbour, port).0;
      AddDeviceToPort(once, neighbour, port) == (once, false)
  {
    var once := AddDeviceToPort(pm, neighbour, port).0;
    if Find(pm, neighbour).GetOr(-1) != port {
      assert Find(once, neighbour) == Some(port);
    }
  }

  /** What distinguishes the two device classes of the source; a switch carries its
      domain -> BFR-id dictionary. */
  datatype Kind = Host | Switch(bfrIds: map<int, int>)

  datatype Device = Device(name: string, ip: string, mac: string, ports: PortMap, kind: Kind)

  /** `Switch(name, ip, mac, bfr_id)`: no neighbours, and the mapping `{0: bfr_id}`. */
  function NewSwitch(name: string, ip: string, mac: string, bfrId: int): (d: Device)
    ensures d.kind.Switch? && d.kind.bfrIds.Keys == {0}
    ensures GetBfrId(d, 0) == bfrId
    ensures forall dom :: dom != 0 ==> GetBfrId(d, dom) == -1
    ensures d.ports == [] && d.name == name
  {
    Device(name, ip, mac, [], Switch(map[0 := bfrId]))
  }

  function NewHost(name: string, ip: string, mac: string): (d: Device)
    ensures d.kind.Host? && d.ports == [] && d.name == name && d.ip == ip
  {
    Device(name, ip, mac, [], Host)
  }

  /** `Switch.get_bfr_id`: the id in a domain, -1 when the domain has none. Hosts
      have no such method; the model answers -1 for them as a placeholder.
      `TopologyManager.GetDeviceByDomainAndId`, `BierComputation.BfrIds` and
      `BierController.NodeTarget`, which can be handed a host, raise
      AttributeError there instead of asking. */
  function GetBfrId(d: Device, domain: int): (r: int)
    ensures d.kind.Switch? && domain in d.kind.bfrIds ==> r == d.kind.bfrIds[domain]
    ensures r != -1 ==> d.kind.Switch? && domain in d.kind.bfrIds
  {
    match d.kind
    case Switch(ids) => if domain in ids then ids[domain] else -1
    case Host => -1
  }

  /** `Switch.set_bfr_id`; a host has no mapping to set. */
  function SetBfrId(d: Device, domain: int, id: int): (r: Device)
    ensures d.kind.Switch? ==> GetBfrId(r, domain) == id
    ensures forall other :: other != domain ==> GetBfrId(r, other) == GetBfrId(d, other)
    ensures r.name == d.name && r.ip == d.ip && r.ports == d.ports
  {
    match d.kind
    case Switch(ids) => d.(kind := Switch(ids[domain := id]))
    case Host => d
  }

  /** `Switch.reset_bfr_mapping`: only the domain-0 id survives. */
  function ResetBfrMapping(d: Device): (r: Device)
    ensures GetBfrId(r, 0) == GetBfrId(d, 0)
    ensures forall dom :: dom != 0 ==> GetBfrId(r, dom) == -1
    ensures r.name == d.name && r.ip == d.ip && r.ports == d.ports
  {
    match d.kind
    case Switch(ids) => d.(kind := Switch(if 0 in ids then map[0 := ids[0]] else map[]))
    case Host => d
  }
}
