/** The controller's topology handler: a local controller forwards every
    topology packet it receives, and the handler registers hosts and records
    which neighbour sits behind which port of the reporting switch. */
module TopologyController {
  import opened Wrappers
  import opened Devices
  import T = Topology
  import TM = TopologyManager

  /** What a topology packet tells: device `name` (with its ip and mac) was
      seen by `switch` on `port`. */
  datatype TopologyPacket = TopologyPacket(ip: string, mac: string, name: string, port: int, switch: string)

  /** The payload of the `topology_change` event. */
  datatype Change = Change(srcDevice: string, dstDevice: string, port: int)

  /** The registry after the handler, the event it triggered, and the exception
      that ended it. */
  datatype Answer = Answer(store: TM.Store, change: Option<Change>, failure: Option<Error>)

  /** A host announcing itself is registered (unless known) and its port 1 is
      bound to the reporting switch; other packets leave the registry alone. */
  function HostStep(s: TM.Store, pkt: TopologyPacket): (r: TM.Store)
    ensures !T.IsHostName(pkt.name) ==> r == s
    ensures T.IsHostName(pkt.name) ==> (TM.ExistsDevice(r, pkt.name)
      && Find(TM.GetDevice(r, pkt.name).value.ports, pkt.switch) == Some(1))
    ensures forall n :: n != pkt.name ==> TM.GetDevice(r, n) == TM.GetDevice(s, n)
    ensures TM.StoreValid(s) ==> TM.StoreValid(r)
  {
    if !T.IsHostName(pkt.name) then s
    else
      var s1 := TM.AddDevice(s, pkt.name, 0, NewHost(pkt.name, pkt.ip, pkt.mac));
      var d := TM.GetDevice(s1, pkt.name).value;
      TM.UpdateDevice(s1, pkt.name, d.(ports := AddDeviceToPort(d.ports, pkt.switch, 1).0))
  }

  /** `handle_topology_answer`. Until the system is set up it does nothing.
      Otherwise it registers a host, binds the reported device to the port of
      the switch, and triggers `topology_change` exactly when that binding
      changed. An unregistered switch raises DeviceNotFound. */
  function HandleTopologyAnswer(s: TM.Store, systemDone: bool, pkt: TopologyPacket): (r: Answer)
    ensures !systemDone ==> r == Answer(s, None, None)
    ensures systemDone ==> (r.failure.Some? <==> !TM.ExistsDevice(HostStep(s, pkt), pkt.switch))
    ensures r.failure.Some? ==> r == Answer(HostStep(s, pkt), None, Some(DeviceNotFound))
    ensures r.change.Some? ==> r.change.value == Change(pkt.switch, pkt.name, pkt.port)
    ensures systemDone && r.failure.None? ==> var dev := TM.GetDevice(HostStep(s, pkt), pkt.switch).value;
      && (r.change.Some? <==> Find(dev.ports, pkt.name).GetOr(-1) != pkt.port)
      && TM.GetDevice(r.store, pkt.switch) == Ok(dev.(ports := AddDeviceToPort(dev.ports, pkt.name, pkt.port).0))
      && forall n :: n != pkt.switch ==> TM.GetDevice(r.store, n) == TM.GetDevice(HostStep(s, pkt), n)
    ensures TM.StoreValid(s) ==> TM.StoreValid(r.store)
  {
    if !systemDone then Answer(s, None, None)
    else
      var s1 := HostStep(s, pkt);
      match TM.GetDevice(s1, pkt.switch)
      case Err(e) => Answer(s1, None, Some(e))
      case Ok(dev) =>
        var (pm, changed) := AddDeviceToPort(dev.ports, pkt.name, pkt.port);
        var s2 := TM.UpdateDevice(s1, pkt.switch, dev.(ports := pm));
        Answer(s2, if changed then Some(Change(pkt.switch, pkt.name, pkt.port)) else None, None)
  }

  /** After a handled packet the switch binds the reported device to the
      reported port, unless the port is -1 and the device was never bound. */
  lemma AnswerBindsPort(s: TM.Store, pkt: TopologyPacket)
    requires HandleTopologyAnswer(s, true, pkt).failure.None?
    requires pkt.port != -1
    ensures GetDeviceToPort(TM.GetDevice(HandleTopologyAnswer(s, true, pkt).store, pkt.switch).value.ports, pkt.name) == Ok(pkt.port)
  {
    var dev := TM.GetDevice(HostStep(s, pkt), pkt.switch).value;
    AddThenGet(dev.ports, pkt.name, pkt.port);
  }

  /** The same packet handled twice triggers nothing the second time (for a
      device other than the switch itself). */
  lemma RepeatedPacketNoChange(s: TM.Store, pkt: TopologyPacket)
    requires pkt.name != pkt.switch
    requires HandleTopologyAnswer(s, true, pkt).failure.None?
    ensures var again := HandleTopologyAnswer(HandleTopologyAnswer(s, true, pkt).store, true, pkt);
      again.failure.None? && again.change.None?
  {
    var s1 := HostStep(s, pkt);
    var dev := TM.GetDevice(s1, pkt.switch).value;
    var r := HandleTopologyAnswer(s, true, pkt);
    var t1 := HostStep(r.store, pkt);
    assert TM.GetDevice(t1, pkt.switch) == TM.GetDevice(r.store, pkt.switch);
    var pm := AddDeviceToPort(dev.ports, pkt.name, pkt.port).0;
    assert Find(pm, pkt.name).GetOr(-1) == pkt.port;
  }
}
