/** The tunnel controller: BIER decapsulation rules on every switch (one per
    domain the switch belongs to), the IPv4 decapsulation rule of a newly
    connected switch, and the BIER encapsulation rules of the ingress switches,
    which it shares with the IPv4 controller. */
module TunnelController {
  import opened Wrappers
  import opened Bitmask
  import opened Devices
  import TM = TopologyManager
  import E = TableEntryManager
  import C = Configuration
  import ER = EncapRules

  const DecapBierTable := "ingress.tunnel_c.decap_bier"
  const DecapIpv4Table := "ingress.tunnel_c.decap_ipv4"
  const BitStringField := "hdr.bier[0].BitString"
  const DomainField := "hdr.bier[0].Domain"

  /** The controller's manager once its three tables are initialised: they are
      empty, and no other table is touched. */
  function InitTables(m: E.Manager): (r: E.Manager)
    ensures E.GetTableEntries(r, DecapBierTable) == Ok([])
    ensures E.GetTableEntries(r, DecapIpv4Table) == Ok([])
    ensures E.GetTableEntries(r, ER.TableOf(ER.TunnelEncap)) == Ok([])
    ensures forall t :: t != DecapBierTable && t != DecapIpv4Table && t != ER.TableOf(ER.TunnelEncap) ==>
      E.GetTableEntries(r, t) == E.GetTableEntries(m, t)
  {
    E.InitTable(E.InitTable(E.InitTable(m, DecapBierTable), DecapIpv4Table), ER.TableOf(ER.TunnelEncap))
  }

  /** Packets of `domain` whose BitString holds `bit` are decapsulated, clearing
      that bit. */
  function BierDecapEntry(switch: string, domain: int, bit: nat): E.Entry {
    E.Entry(switch, map[BitStringField := E.Ternary(bit, bit), DomainField := E.Int(domain)],
      "ingress.tunnel_c.bier_decap", map["decapBit" := E.Int(bit)], Some(1))
  }

  /** The decap rule of a switch in one of its domains: its own bit there. */
  function DomainDecap(switch: string, dev: Device, domain: int): E.Entry {
    BierDecapEntry(switch, domain, IdToBitstring(GetBfrId(dev, domain)))
  }

  /** The rules `update_bier_decap_rule` computes: one per domain of the switch,
      in its domain-list order. An unregistered switch raises DeviceNotFound. */
  function DecapRules(s: TM.Store, switch: string): (r: E.Gen)
    ensures r.failure.None? <==> TM.ExistsDevice(s, switch)
    ensures r.failure.Some? ==> r == E.Gen([], Some(DeviceNotFound))
    ensures E.ForSwitch(r.entries, switch)
    ensures r.failure.None? ==> forall x :: x in r.entries <==>
      exists d :: d in TM.GetDomainForDevice(s, switch).value && x == DomainDecap(switch, TM.GetDevice(s, switch).value, d)
  {
    match TM.GetDomainForDevice(s, switch)
    case Err(e) => E.Gen([], Some(e))
    case Ok(ds) =>
      var dev := TM.GetDevice(s, switch).value;
      var es := seq(|ds|, j requires 0 <= j < |ds| => DomainDecap(switch, dev, ds[j]));
      assert forall x :: x in es <==> exists d :: d in ds && x == DomainDecap(switch, dev, d) by {
        forall x | x in es ensures exists d :: d in ds && x == DomainDecap(switch, dev, d) {
          var j :| 0 <= j < |es| && es[j] == x;
          assert ds[j] in ds;
        }
        forall d | d in ds ensures DomainDecap(switch, dev, d) in es {
          var j :| 0 <= j < |ds| && ds[j] == d;
          assert es[j] == DomainDecap(switch, dev, d);
        }
      }
      E.Gen(es, None)
  }

  /** A decap rule is identified by its domain: two rules with the same key are
      the same rule. */
  lemma DecapKeyedByDomain(s: TM.Store, switch: string)
    ensures var es := DecapRules(s, switch).entries;
      forall i, j :: 0 <= i < |es| && 0 <= j < |es| && E.SameKey(es[i], es[j]) ==> es[i] == es[j]
  {
    var es := DecapRules(s, switch).entries;
    forall i, j | 0 <= i < |es| && 0 <= j < |es| && E.SameKey(es[i], es[j]) ensures es[i] == es[j] {
      assert es[i] in es && es[j] in es;
      if DecapRules(s, switch).failure.None? {
        var dev := TM.GetDevice(s, switch).value;
        var di :| di in TM.GetDomainForDevice(s, switch).value && es[i] == DomainDecap(switch, dev, di);
        var dj :| dj in TM.GetDomainForDevice(s, switch).value && es[j] == DomainDecap(switch, dev, dj);
        assert es[i].matchFields[DomainField] == E.Int(di);
        assert es[j].matchFields[DomainField] == E.Int(dj);
      }
    }
  }

  /** `update_bier_decap_rule`: handles the rule of every domain of the switch
      and purges the switch's other decap rules. */
  function UpdateBierDecapRule(m: E.Manager, s: TM.Store, switch: string): (r: (E.Manager, seq<E.DriverOp>, Option<Error>))
    ensures !TM.ExistsDevice(s, switch) ==> r.0 == m && r.1 == [] && r.2 == Some(DeviceNotFound)
  {
    var g := DecapRules(s, switch);
    E.Sync(m, DecapBierTable, switch, g.entries, g.failure)
  }

  /** On a table with unique keys, a registered switch ends with exactly one
      decap rule per domain it belongs to, matching its own bit in that domain;
      stale rules are gone and other switches' rules are untouched. */
  lemma DecapInstalled(m: E.Manager, s: TM.Store, switch: string)
    requires DecapBierTable in m.tables && E.UniqueKeys(m.tables[DecapBierTable])
    requires TM.ExistsDevice(s, switch)
    ensures var r := UpdateBierDecapRule(m, s, switch);
      && r.2.None? && DecapBierTable in r.0.tables && E.UniqueKeys(r.0.tables[DecapBierTable])
      && (forall x: E.Entry :: x.switch == switch ==> (x in r.0.tables[DecapBierTable] <==>
            exists d :: d in TM.GetDomainForDevice(s, switch).value && x == DomainDecap(switch, TM.GetDevice(s, switch).value, d)))
      && (forall x: E.Entry :: x.switch != switch ==> (x in r.0.tables[DecapBierTable] <==> x in m.tables[DecapBierTable]))
  {
    var g := DecapRules(s, switch);
    E.SyncExact(m, DecapBierTable, switch, g.entries);
    DecapKeyedByDomain(s, switch);
    forall x: E.Entry ensures E.Final(g.entries, x) <==> x in g.entries {
      E.FinalAll(g.entries, x);
    }
  }

  /** A decap rule matches exactly the bit of the switch's id in the domain,
      and no bit when the switch has no id there. */
  lemma DecapMatchesOwnBit(switch: string, dev: Device, domain: int)
    ensures var e := DomainDecap(switch, dev, domain);
      DomainField in e.matchFields && e.matchFields[DomainField] == E.Int(domain)
      && BitStringField in e.matchFields && e.matchFields[BitStringField].Ternary?
      && forall k :: HasId(e.matchFields[BitStringField].value, k) <==> k >= 1 && k == GetBfrId(dev, domain)
  {
    IdToBitstringSingleBit(GetBfrId(dev, domain));
  }

  /** The IPv4 decap rule of a switch: packets to its own address are
      decapsulated. */
  function Ipv4DecapEntry(switch: string, ip: string): E.Entry {
    E.Entry(switch, map[ER.DstAddr := E.Str(ip)], "ingress.tunnel_c.ipv4_decap", map[], None)
  }

  /** `add_ipv4_decap_rule`, the handler of a switch connection: handles the
      decap rule for the device's own address; there is no purge. An
      unregistered device raises DeviceNotFound and changes nothing. */
  function AddIpv4DecapRule(m: E.Manager, s: TM.Store, name: string): (r: (E.Manager, seq<E.DriverOp>, Option<Error>))
    ensures !TM.ExistsDevice(s, name) ==> r == (m, [], Some(DeviceNotFound))
    ensures TM.ExistsDevice(s, name) && DecapIpv4Table !in m.tables ==> r == (m, [], Some(TableNotFound))
    ensures TM.ExistsDevice(s, name) && DecapIpv4Table in m.tables ==> var dev := TM.GetDevice(s, name).value;
      && r.2.None? && DecapIpv4Table in r.0.tables
      && r.0 == m.(tables := m.tables[DecapIpv4Table := r.0.tables[DecapIpv4Table]])
      && Ipv4DecapEntry(dev.name, dev.ip) in r.0.tables[DecapIpv4Table]
      && (forall x :: x in r.0.tables[DecapIpv4Table] ==> x == Ipv4DecapEntry(dev.name, dev.ip) || x in m.tables[DecapIpv4Table])
      && (forall x :: x in m.tables[DecapIpv4Table] && !E.SameKey(x, Ipv4DecapEntry(dev.name, dev.ip)) ==> x in r.0.tables[DecapIpv4Table])
      && (E.UniqueKeys(m.tables[DecapIpv4Table]) ==> E.UniqueKeys(r.0.tables[DecapIpv4Table]))
  {
    match TM.GetDevice(s, name)
    case Err(e) => (m, [], Some(e))
    case Ok(dev) =>
      var e := Ipv4DecapEntry(dev.name, dev.ip);
      var r := E.HandleEntries(m, DecapIpv4Table, [e]);
      assert DecapIpv4Table in m.tables ==> [e][0] in r.0.tables[DecapIpv4Table];
      r
  }

  /** `update_based_on_topology`, the handler of topology changes:
      `update_bier_decap_rule` for every configured switch in turn, up to the
      first exception. */
  function UpdateBasedOnTopology(m: E.Manager, s: TM.Store, switches: seq<string>): (r: (E.Manager, seq<E.DriverOp>, Option<Error>))
    ensures switches == [] ==> r == (m, [], None)
    decreases |switches|
  {
    if switches == [] then (m, [], None)
    else
      var (m1, ops1, err) := UpdateBierDecapRule(m, s, switches[0]);
      if err.Some? then (m1, ops1, err)
      else
        var (m2, ops2, err2) := UpdateBasedOnTopology(m1, s, switches[1..]);
        (m2, ops1 + ops2, err2)
  }

  /** With every configured switch registered and a table with unique keys, the
      topology handler succeeds, every configured switch ends with exactly its
      decap rules, and unconfigured switches keep theirs. */
  lemma {:induction false} TopologyDecapExact(m: E.Manager, s: TM.Store, switches: seq<string>)
    requires DecapBierTable in m.tables && E.UniqueKeys(m.tables[DecapBierTable])
    requires forall sw :: sw in switches ==> TM.ExistsDevice(s, sw)
    ensures var r := UpdateBasedOnTopology(m, s, switches);
      && r.2.None? && DecapBierTable in r.0.tables && E.UniqueKeys(r.0.tables[DecapBierTable])
      && (forall x: E.Entry :: x.switch in switches ==> (x in r.0.tables[DecapBierTable] <==>
            exists d :: d in TM.GetDomainForDevice(s, x.switch).value && x == DomainDecap(x.switch, TM.GetDevice(s, x.switch).value, d)))
      && (forall x: E.Entry :: x.switch !in switches ==> (x in r.0.tables[DecapBierTable] <==> x in m.tables[DecapBierTable]))
    decreases |switches|
  {
    if switches != [] {
      DecapInstalled(m, s, switches[0]);
      var m1 := UpdateBierDecapRule(m, s, switches[0]).0;
      assert forall sw :: sw in switches[1..] ==> sw in switches;
      TopologyDecapExact(m1, s, switches[1..]);
      assert forall sw :: sw in switches <==> sw == switches[0] || sw in switches[1..];
    }
  }

  /** `update_based_on_group` of the tunnel controller: the tunnel-style encap
      rules of the ingress switches only. */
  function UpdateBasedOnGroup(m: E.Manager, s: TM.Store, gm: ER.GM.Store, cfg: seq<C.SwitchConfig>): (r: (E.Manager, seq<E.DriverOp>, Option<Error>))
    ensures ER.TableOf(ER.TunnelEncap) in m.tables && E.UniqueKeys(m.tables[ER.TableOf(ER.TunnelEncap)]) ==>
      (ER.TableOf(ER.TunnelEncap) in r.0.tables
      && forall x: E.Entry :: (forall c :: c in cfg && c.ingress ==> c.name != x.switch) ==>
        (x in r.0.tables[ER.TableOf(ER.TunnelEncap)] <==> x in m.tables[ER.TableOf(ER.TunnelEncap)]))
  {
    ER.UpdateBasedOnGroup(ER.TunnelEncap, m, s, gm, cfg)
  }
}
