/** The BIER controller: from the BIFTs of a switch it computes the switch's
    forwarding rules (a primary rule per destination, an optional BIER-FRR
    backup rule that tunnels around a failed next hop, and a decapsulation
    rule), installs them through the table-entry manager and purges the rest. */
module BierController {
  import opened Wrappers
  import opened Bitmask
  import opened Devices
  import T = Topology
  import TM = TopologyManager
  import E = TableEntryManager
  import opened BierComputation

  const Table := "ingress.bier_c.bift"
  const RemainingBits := "meta.bier_md.remainingBits"
  const PortStatus := "meta.ports.status"
  const Forward := "ingress.bier_c.forward"
  const ForwardEncap := "ingress.bier_c.forward_encap"
  const Decap := "ingress.bier_c.decap"

  /** The default rule towards a destination: packets whose remaining bits hold
      the destination's bit leave on `port` with the FBM, while the port is up. */
  function PrimaryEntry(switch: string, id: int, port: int, fbm: nat): E.Entry {
    var bits, portBit := IdToBitstring(id), IdToBitstring(port);
    E.Entry(switch,
      map[RemainingBits := E.Ternary(bits, bits), PortStatus := E.Ternary(portBit, portBit)],
      Forward, map["fbm" := E.Int(fbm), "port" := E.Int(port)], Some(1))
  }

  /** A BIER-FRR rule: while `port` is down, packets for the destination are
      encapsulated in an IP tunnel from `srcIp` to `dstIp` with the given FBM. */
  function BackupEntry(switch: string, id: int, port: int, fbm: nat, srcIp: string, dstIp: string): E.Entry {
    var bits := IdToBitstring(id);
    E.Entry(switch,
      map[RemainingBits := E.Ternary(bits, bits), PortStatus := E.Ternary(0, IdToBitstring(port))],
      ForwardEncap, map["fbm" := E.Int(fbm), "srcAddr" := E.Str(srcIp), "dstAddr" := E.Str(dstIp)], Some(1))
  }

  /** The rule that decapsulates packets addressed to the switch's own bit. */
  function DecapEntry(switch: string, bits: nat): E.Entry {
    E.Entry(switch, map[RemainingBits := E.Ternary(bits, bits)], Decap, map["decapBit" := E.Int(bits)], Some(1))
  }

  /** P4 ternary matching: the key agrees with the value on the mask's bits. */
  predicate TernaryMatch(key: nat, p: E.Param) {
    p.Ternary? && p.value >= 0 && p.mask >= 0 && And(key, p.mask) == And(p.value, p.mask)
  }

  /** A primary rule matches the port-status field exactly when its port's bit
      is set (the port is up) and the backup rule for the same destination and
      port exactly when it is clear, so at most one of them applies; the two
      rules have different match fields and live side by side in the table. */
  lemma {:induction false} PrimaryBackupExclusive(switch: string, id: int, port: int, fbm: nat, backupFbm: nat, srcIp: string, dstIp: string, status: nat)
    requires port >= 1
    ensures TernaryMatch(status, PrimaryEntry(switch, id, port, fbm).matchFields[PortStatus]) <==> HasBit(status, port - 1)
    ensures TernaryMatch(status, BackupEntry(switch, id, port, backupFbm, srcIp, dstIp).matchFields[PortStatus]) <==> !HasBit(status, port - 1)
    ensures PrimaryEntry(switch, id, port, fbm).matchFields[RemainingBits]
         == BackupEntry(switch, id, port, backupFbm, srcIp, dstIp).matchFields[RemainingBits]
    ensures PrimaryEntry(switch, id, port, fbm).matchFields != BackupEntry(switch, id, port, backupFbm, srcIp, dstIp).matchFields
  {
    var b := IdToBitstring(port);
    IdToBitstringSingleBit(port);
    var up := And(status, b);
    assert And(b, b) == b by {
      BitsExtensional(And(b, b), b);
    }
    assert And(0, b) == 0;
    if HasBit(status, port - 1) {
      BitsExtensional(up, b);
    } else {
      forall i: nat ensures !HasBit(up, i) {
        if i != port - 1 {
          assert !HasBit(b, i);
        }
      }
      forall i: nat ensures HasBit(up, i) == HasBit(0, i) {
        ZeroBit(i);
      }
      BitsExtensional(up, 0);
    }
    assert HasBit(b, port - 1);
    ZeroBit(port - 1);
    assert b != 0;
    assert E.Ternary(b, b) != E.Ternary(0, b);
  }

  /** The row of a BIFT with the given id, if any. */
  function BiftLookup(bift: seq<BiftRow>, id: int): (r: Option<BiftRow>)
    ensures r.None? <==> id !in BiftIds(bift)
    ensures r.Some? ==> r.value in bift && r.value.id == id
  {
    if bift == [] then None
    else if bift[0].id == id then Some(bift[0])
    else
      assert BiftIds(bift) == [bift[0].id] + BiftIds(bift[1..]);
      BiftLookup(bift[1..], id)
  }

  /** `update_frr_link_protection`: tunnel to the next hop behind the failed
      link, keeping the FBM. */
  function LinkProtection(s: TM.Store, switch: string, port: int, toId: int, fbm: nat, nextHop: string): (r: Result<E.Entry>)
    ensures r.Ok? <==> TM.ExistsDevice(s, switch) && TM.ExistsDevice(s, nextHop)
    ensures r.Err? ==> r.error == DeviceNotFound
    ensures r.Ok? ==> r.value == BackupEntry(switch, toId, port, fbm, TM.GetDevice(s, switch).value.ip, TM.GetDevice(s, nextHop).value.ip)
  {
    var sd :- TM.GetDevice(s, switch);
    var nh :- TM.GetDevice(s, nextHop);
    Ok(BackupEntry(switch, toId, port, fbm, sd.ip, nh.ip))
  }

  /** The BIFT row of the failed next hop `nextHop` for `toId`, after
      `update_frr_node_protection` has overridden it with a direct row when the
      next hop is itself the destination (the failure may be the link only). A
      host as next hop has no `get_bfr_id` and raises AttributeError. */
  function NodeTarget(s: TM.Store, sp: T.Graph -> T.PathTable, domain: int, toId: int, nextHop: string): (r: Result<Option<BiftRow>>)
    ensures r.Err? ==> r.error == DeviceNotFound || r.error == DomainNotFound || r.error == AttributeError || r.error == NextHopNotFound
    ensures r.Ok? <==> BuildBift(s, sp, nextHop, domain).Ok? && TM.ExistsDevice(s, nextHop) && TM.GetDevice(s, nextHop).value.kind.Switch?
    ensures BuildBift(s, sp, nextHop, domain).Ok? && TM.ExistsDevice(s, nextHop) && TM.GetDevice(s, nextHop).value.kind.Host? ==>
      r == Err(AttributeError)
    ensures r.Ok? && GetBfrId(TM.GetDevice(s, nextHop).value, domain) == toId ==>
      r.value == Some(BiftRow(toId, IdToBitstring(toId), nextHop))
    ensures r.Ok? && GetBfrId(TM.GetDevice(s, nextHop).value, domain) != toId ==>
      && (r.value.None? <==> toId !in BiftIds(BuildBift(s, sp, nextHop, domain).value))
      && (r.value.Some? ==> r.value.value in BuildBift(s, sp, nextHop, domain).value && r.value.value.id == toId)
  {
    var biftNh :- BuildBift(s, sp, nextHop, domain);
    var nhd :- TM.GetDevice(s, nextHop);
    // `bift_nh[to_id] = ...` followed by the lookup of `to_id`.
    if nhd.kind.Host? then Err(AttributeError)
    else if GetBfrId(nhd, domain) == toId then Ok(Some(BiftRow(toId, IdToBitstring(toId), nextHop)))
    else Ok(BiftLookup(biftNh, toId))
  }

  /** `update_frr_node_protection`: when the next hop fails, tunnel to the node
      that the next hop itself would forward to for `toId`, keeping only the
      destinations that both FBMs share. No rule when the next hop has no route
      to `toId`. */
  function NodeProtection(s: TM.Store, sp: T.Graph -> T.PathTable, switch: string, domain: int, port: int, toId: int, fbm: nat, nextHop: string): (r: Result<Option<E.Entry>>)
    ensures r.Err? ==> r.error == DeviceNotFound || r.error == DomainNotFound || r.error == AttributeError || r.error == NextHopNotFound
    ensures r.Ok? ==> TM.ExistsDevice(s, switch) && NodeTarget(s, sp, domain, toId, nextHop).Ok?
    ensures r.Ok? ==> (r.value.None? <==> NodeTarget(s, sp, domain, toId, nextHop).value.None?)
    ensures r.Ok? && r.value.Some? ==> r.value.value.switch == switch
    ensures r.Ok? && r.value.Some? ==> (
      var target := NodeTarget(s, sp, domain, toId, nextHop).value.value;
      && TM.ExistsDevice(s, target.nextHop)
      && r.value.value == BackupEntry(switch, toId, port, And(fbm, target.fbm),
           TM.GetDevice(s, switch).value.ip, TM.GetDevice(s, target.nextHop).value.ip))
  {
    var sd :- TM.GetDevice(s, switch);
    var target :- NodeTarget(s, sp, domain, toId, nextHop);
    match target
    case None => Ok(None)
    case Some(row) =>
      var tunnel :- TM.GetDevice(s, row.nextHop);
      Ok(Some(BackupEntry(switch, toId, port, And(fbm, row.fbm), sd.ip, tunnel.ip)))
  }

  /** A node-protection rule forwards a subset of the primary FBM. */
  lemma NodeProtectionNarrows(s: TM.Store, sp: T.Graph -> T.PathTable, switch: string, domain: int, port: int, toId: int, fbm: nat, nextHop: string, e: E.Entry)
    requires NodeProtection(s, sp, switch, domain, port, toId, fbm, nextHop) == Ok(Some(e))
    ensures e.actionName == ForwardEncap && e.switch == switch
    ensures exists f: nat :: e.actionParams["fbm"] == E.Int(f) && forall b: nat :: HasBit(f, b) ==> HasBit(fbm, b)
  {
    var target := NodeTarget(s, sp, domain, toId, nextHop).value.value;
    var f := And(fbm, target.fbm);
    var src, dst := TM.GetDevice(s, switch).value.ip, TM.GetDevice(s, target.nextHop).value.ip;
    assert e == BackupEntry(switch, toId, port, f, src, dst);
    BackupCarries(switch, toId, port, f, src, dst);
  }

  /** A backup rule is a tunnel rule of its switch carrying the given FBM. */
  lemma BackupCarries(switch: string, id: int, port: int, fbm: nat, srcIp: string, dstIp: string)
    ensures var e := BackupEntry(switch, id, port, fbm, srcIp, dstIp);
      e.actionName == ForwardEncap && e.switch == switch && e.actionParams["fbm"] == E.Int(fbm)
  {
  }

  /** When the failed next hop is itself the destination, the backup tunnel
      ends at the next hop and carries the destination's bit alone. */
  lemma NodeProtectionDirect(s: TM.Store, sp: T.Graph -> T.PathTable, switch: string, domain: int, port: int, toId: int, fbm: nat, nextHop: string)
    requires TM.ExistsDevice(s, switch) && TM.ExistsDevice(s, nextHop) && BuildBift(s, sp, nextHop, domain).Ok?
    requires TM.GetDevice(s, nextHop).value.kind.Switch? && GetBfrId(TM.GetDevice(s, nextHop).value, domain) == toId
    ensures NodeProtection(s, sp, switch, domain, port, toId, fbm, nextHop)
      == Ok(Some(BackupEntry(switch, toId, port, And(fbm, IdToBitstring(toId)), TM.GetDevice(s, switch).value.ip, TM.GetDevice(s, nextHop).value.ip)))
    ensures forall b: nat :: HasBit(And(fbm, IdToBitstring(toId)), b) <==> b == toId - 1 && HasBit(fbm, b)
  {
    IdToBitstringSingleBit(toId);
    forall b: nat ensures !HasBit(0, b) {
      ZeroBit(b);
    }
  }

  /** The port of the switch towards a neighbour. */
  function OutPort(s: TM.Store, switch: string, neighbour: string): (r: Result<int>)
    ensures r.Ok? <==> TM.ExistsDevice(s, switch) && neighbour in Neighbours(TM.GetDevice(s, switch).value.ports)
    ensures r.Err? ==> r.error == DeviceNotFound
    ensures r.Ok? ==> Binding(neighbour, r.value) in TM.GetDevice(s, switch).value.ports
  {
    var d :- TM.GetDevice(s, switch);
    GetDeviceToPort(d.ports, neighbour)
  }

  /** The rules of one BIFT row: the primary rule, then the backup rule of the
      configured protection. An unset `protection` option raises
      ConfigurationNotFound right after the primary rule is handled. */
  function RowEntries(s: TM.Store, sp: T.Graph -> T.PathTable, protection: Option<string>, switch: string, domain: int, row: BiftRow): (r: E.Gen)
    ensures E.ForSwitch(r.entries, switch)
    ensures r.failure.None? ==> (OutPort(s, switch, row.nextHop).Ok?
      && PrimaryEntry(switch, row.id, OutPort(s, switch, row.nextHop).value, row.fbm) in r.entries)
    ensures r.failure.None? && protection == Some("Link") ==>
      TM.ExistsDevice(s, row.nextHop) && BackupEntry(switch, row.id, OutPort(s, switch, row.nextHop).value, row.fbm,
        TM.GetDevice(s, switch).value.ip, TM.GetDevice(s, row.nextHop).value.ip) in r.entries
    ensures protection.None? ==> r.failure.Some?
  {
    match OutPort(s, switch, row.nextHop)
    case Err(e) => E.Gen([], Some(e))
    case Ok(port) => ProtectedEntries(s, sp, protection, switch, domain, port, row)
  }

  /** The primary rule of a row through `port`, then its backup rule. */
  function ProtectedEntries(s: TM.Store, sp: T.Graph -> T.PathTable, protection: Option<string>, switch: string, domain: int, port: int, row: BiftRow): (r: E.Gen)
    ensures E.ForSwitch(r.entries, switch)
    ensures PrimaryEntry(switch, row.id, port, row.fbm) in r.entries
    ensures r.failure.None? && protection == Some("Link") ==>
      TM.ExistsDevice(s, switch) && TM.ExistsDevice(s, row.nextHop) && BackupEntry(switch, row.id, port, row.fbm,
        TM.GetDevice(s, switch).value.ip, TM.GetDevice(s, row.nextHop).value.ip) in r.entries
    ensures protection.None? ==> r.failure.Some?
  {
    var primary := PrimaryEntry(switch, row.id, port, row.fbm);
    if protection.None? then E.Gen([primary], Some(ConfigurationNotFound))
    else if protection.value == "Link" then LinkEntries(s, switch, port, row)
    else if protection.value == "Node" then NodeEntries(s, sp, switch, domain, port, row)
    else E.Gen([primary], None)
  }

  /** The primary rule and the link-protection backup. */
  function LinkEntries(s: TM.Store, switch: string, port: int, row: BiftRow): (r: E.Gen)
    ensures E.ForSwitch(r.entries, switch)
    ensures PrimaryEntry(switch, row.id, port, row.fbm) in r.entries
    ensures r.failure.None? ==>
      TM.ExistsDevice(s, switch) && TM.ExistsDevice(s, row.nextHop) && BackupEntry(switch, row.id, port, row.fbm,
        TM.GetDevice(s, switch).value.ip, TM.GetDevice(s, row.nextHop).value.ip) in r.entries
  {
    var primary := PrimaryEntry(switch, row.id, port, row.fbm);
    match LinkProtection(s, switch, port, row.id, row.fbm, row.nextHop)
    case Err(e) => E.Gen([primary], Some(e))
    case Ok(backup) => E.Gen([primary, backup], None)
  }

  /** The primary rule and the node-protection backup, if there is one. */
  function NodeEntries(s: TM.Store, sp: T.Graph -> T.PathTable, switch: string, domain: int, port: int, row: BiftRow): (r: E.Gen)
    ensures E.ForSwitch(r.entries, switch)
    ensures PrimaryEntry(switch, row.id, port, row.fbm) in r.entries
  {
    var primary := PrimaryEntry(switch, row.id, port, row.fbm);
    var backup := NodeProtection(s, sp, switch, domain, port, row.id, row.fbm, row.nextHop);
    if backup.Err? then E.Gen([primary], Some(backup.error))
    else if backup.value.None? then E.Gen([primary], None)
    else E.Gen([primary, backup.value.value], None)
  }

  /** The loop over the rows of a BIFT. */
  function RowsEntries(s: TM.Store, sp: T.Graph -> T.PathTable, protection: Option<string>, switch: string, domain: int, rows: seq<BiftRow>): (r: E.Gen)
    ensures E.ForSwitch(r.entries, switch)
    ensures r.failure.None? ==> forall i :: 0 <= i < |rows| ==>
      && RowEntries(s, sp, protection, switch, domain, rows[i]).failure.None?
      && forall e :: e in RowEntries(s, sp, protection, switch, domain, rows[i]).entries ==> e in r.entries
  {
    if rows == [] then E.Gen([], None)
    else
      assert forall i :: 1 <= i < |rows| ==> rows[i] == rows[1..][i - 1];
      E.Then(RowEntries(s, sp, protection, switch, domain, rows[0]), RowsEntries(s, sp, protection, switch, domain, rows[1..]))
  }

  /** The rules for one domain: build the switch's BIFT there, then its rows. */
  function DomainEntries(s: TM.Store, sp: T.Graph -> T.PathTable, protection: Option<string>, switch: string, domain: int): (r: E.Gen)
    ensures E.ForSwitch(r.entries, switch)
    ensures r.failure.None? ==> BuildBift(s, sp, switch, domain).Ok?
  {
    match BuildBift(s, sp, switch, domain)
    case Err(e) => E.Gen([], Some(e))
    case Ok(bift) => RowsEntries(s, sp, protection, switch, domain, bift)
  }

  /** The loop over the switch's domains. */
  function DomainsEntries(s: TM.Store, sp: T.Graph -> T.PathTable, protection: Option<string>, switch: string, domains: seq<int>): (r: E.Gen)
    ensures E.ForSwitch(r.entries, switch)
    ensures r.failure.None? ==> forall i :: 0 <= i < |domains| ==>
      && DomainEntries(s, sp, protection, switch, domains[i]).failure.None?
      && forall e :: e in DomainEntries(s, sp, protection, switch, domains[i]).entries ==> e in r.entries
  {
    if domains == [] then E.Gen([], None)
    else
      assert forall i :: 1 <= i < |domains| ==> domains[i] == domains[1..][i - 1];
      E.Then(DomainEntries(s, sp, protection, switch, domains[0]), DomainsEntries(s, sp, protection, switch, domains[1..]))
  }

  /** The entries `update_bier_forwarding_entries` hands to the table manager,
      in order: the rules of every BIFT row of every domain of the switch, then
      the decapsulation rule for the switch's own bit in domain 0. */
  function ForwardingEntries(s: TM.Store, sp: T.Graph -> T.PathTable, protection: Option<string>, switch: string): (r: E.Gen)
    ensures E.ForSwitch(r.entries, switch)
    ensures r.failure.None? ==> (TM.ExistsDevice(s, switch) && |r.entries| >= 1
      && r.entries[|r.entries| - 1] == DecapEntry(switch, IdToBitstring(GetBfrId(TM.GetDevice(s, switch).value, 0))))
    ensures !TM.ExistsDevice(s, switch) ==> r == E.Gen([], Some(DeviceNotFound))
  {
    match TM.GetDomainForDevice(s, switch)
    case Err(e) => E.Gen([], Some(e))
    case Ok(domains) => E.Then(DomainsEntries(s, sp, protection, switch, domains), OwnDecap(s, switch))
  }

  /** The decapsulation rule for the switch's own bit in domain 0. */
  function OwnDecap(s: TM.Store, switch: string): (r: E.Gen)
    ensures E.ForSwitch(r.entries, switch)
    ensures r.failure.None? <==> TM.ExistsDevice(s, switch)
    ensures r.failure.None? ==> r.entries == [DecapEntry(switch, IdToBitstring(GetBfrId(TM.GetDevice(s, switch).value, 0)))]
  {
    match TM.GetDevice(s, switch)
    case Err(e) => E.Gen([], Some(e))
    case Ok(d) => E.Gen([DecapEntry(switch, IdToBitstring(GetBfrId(d, 0)))], None)
  }

  /** A successful computation leaves no destination of any domain without its
      primary rule, and under link protection without its backup rule. */
  lemma {:induction false} ForwardingEntriesComplete(s: TM.Store, sp: T.Graph -> T.PathTable, protection: Option<string>, switch: string, domain: int, i: int)
    requires ForwardingEntries(s, sp, protection, switch).failure.None?
    requires domain in TM.GetDomainForDevice(s, switch).value
    ensures BuildBift(s, sp, switch, domain).Ok?
    ensures 0 <= i < |BuildBift(s, sp, switch, domain).value| ==> (
      var row := BuildBift(s, sp, switch, domain).value[i];
      var gen := ForwardingEntries(s, sp, protection, switch).entries;
      && OutPort(s, switch, row.nextHop).Ok?
      && PrimaryEntry(switch, row.id, OutPort(s, switch, row.nextHop).value, row.fbm) in gen
      && (protection == Some("Link") ==> (TM.ExistsDevice(s, row.nextHop) &&
            BackupEntry(switch, row.id, OutPort(s, switch, row.nextHop).value, row.fbm,
              TM.GetDevice(s, switch).value.ip, TM.GetDevice(s, row.nextHop).value.ip) in gen)))
  {
    var domains := TM.GetDomainForDevice(s, switch).value;
    var all := DomainsEntries(s, sp, protection, switch, domains);
    var k :| 0 <= k < |domains| && domains[k] == domain;
    var dg := DomainEntries(s, sp, protection, switch, domain);
    assert dg.failure.None? && forall e :: e in dg.entries ==> e in all.entries;
    var bift := BuildBift(s, sp, switch, domain).value;
    if 0 <= i < |bift| {
      var rg := RowEntries(s, sp, protection, switch, domain, bift[i]);
      assert rg.failure.None? && forall e :: e in rg.entries ==> e in dg.entries;
    }
  }

  /** `update_bier_forwarding_entries`: install the computed rules and purge
      the switch's other rules of the BIFT table. */
  function UpdateBierForwardingEntries(m: E.Manager, s: TM.Store, sp: T.Graph -> T.PathTable, protection: Option<string>, switch: string): (r: (E.Manager, seq<E.DriverOp>, Option<Error>))
    ensures Table in m.tables && ForwardingEntries(s, sp, protection, switch).failure.None? ==>
      (r.2.None? <==> E.Reconcile(m, Table, switch, ForwardingEntries(s, sp, protection, switch).entries).Ok?)
    ensures ForwardingEntries(s, sp, protection, switch).failure.Some? ==> r.2.Some?
  {
    var g := ForwardingEntries(s, sp, protection, switch);
    E.Sync(m, Table, switch, g.entries, g.failure)
  }

  /** Once a switch's rules are computed without error and with distinct match
      fields, its stored rules become exactly those, other switches' rules stay,
      and recomputing on the same topology writes nothing to the switch. */
  lemma BierUpdateConverges(m: E.Manager, s: TM.Store, sp: T.Graph -> T.PathTable, protection: Option<string>, switch: string)
    requires Table in m.tables && E.UniqueKeys(m.tables[Table])
    requires ForwardingEntries(s, sp, protection, switch).failure.None?
    requires E.UniqueKeys(ForwardingEntries(s, sp, protection, switch).entries)
    ensures var gen, r := ForwardingEntries(s, sp, protection, switch).entries, UpdateBierForwardingEntries(m, s, sp, protection, switch);
      && r.2.None? && Table in r.0.tables
      && (forall x :: x in r.0.tables[Table] && x.switch == switch <==> x in gen)
      && (forall x: E.Entry :: x.switch != switch ==> (x in r.0.tables[Table] <==> x in m.tables[Table]))
      && UpdateBierForwardingEntries(r.0, s, sp, protection, switch) == (r.0, [], None)
  {
    var g := ForwardingEntries(s, sp, protection, switch);
    E.SyncConverges(m, Table, switch, g.entries);
  }

  /** The controller's `update` handler as written. A port update reads the
      `update` option and returns at once when it does not list "bier". When
      the option is unset, the lookup raises ConfigurationNotFound and the
      handler's `except ConfigurationNotFound` clause, whose name the module
      never imports, raises NameError instead: no switch is updated. Otherwise
      every connected switch is updated in turn until one raises. */
  function Update(m: E.Manager, s: TM.Store, sp: T.Graph -> T.PathTable, protection: Option<string>,
                  updateOption: Option<seq<string>>, portUpdate: bool, connections: seq<string>): (r: (E.Manager, seq<E.DriverOp>, Option<Error>))
    ensures portUpdate && updateOption.None? ==> r == (m, [], Some(NameError))
    ensures portUpdate && updateOption.Some? && "bier" !in updateOption.value ==> r == (m, [], None)
    ensures (!portUpdate || (updateOption.Some? && "bier" in updateOption.value)) && r.2.None? ==>
      AllComputed(s, sp, protection, connections)
    ensures ((!portUpdate || (updateOption.Some? && "bier" in updateOption.value)) &&
      Table in m.tables && E.UniqueKeys(m.tables[Table]) && AllClean(s, sp, protection, connections)) ==>
      r.2.None? && Installed(m, r.0, s, sp, protection, connections)
  {
    if portUpdate && updateOption.None? then (m, [], Some(NameError))
    else if portUpdate && "bier" !in updateOption.value then (m, [], None)
    else
      UpdateAllInstalls(m, s, sp, protection, connections);
      UpdateAll(m, s, sp, protection, connections)
  }

  /** The handler with ConfigurationNotFound imported: an unset `update` option
      is ignored and every connected switch is updated. */
  function UpdateWithImport(m: E.Manager, s: TM.Store, sp: T.Graph -> T.PathTable, protection: Option<string>,
                            updateOption: Option<seq<string>>, portUpdate: bool, connections: seq<string>): (r: (E.Manager, seq<E.DriverOp>, Option<Error>))
    ensures portUpdate && updateOption.Some? && "bier" !in updateOption.value ==> r == (m, [], None)
    ensures (!portUpdate || updateOption.None? || "bier" in updateOption.value) && r.2.None? ==>
      AllComputed(s, sp, protection, connections)
    ensures ((!portUpdate || updateOption.None? || "bier" in updateOption.value) &&
      Table in m.tables && E.UniqueKeys(m.tables[Table]) && AllClean(s, sp, protection, connections)) ==>
      r.2.None? && Installed(m, r.0, s, sp, protection, connections)
  {
    if portUpdate && updateOption.Some? && "bier" !in updateOption.value then (m, [], None)
    else
      UpdateAllInstalls(m, s, sp, protection, connections);
      UpdateAll(m, s, sp, protection, connections)
  }

  /** With the `update` option unset, a port update raises NameError as written,
      while the handler with the import updates every switch without error. */
  lemma UnsetOptionRaises(m: E.Manager, s: TM.Store, sp: T.Graph -> T.PathTable, protection: Option<string>, connections: seq<string>)
    requires Table in m.tables && E.UniqueKeys(m.tables[Table]) && AllClean(s, sp, protection, connections)
    ensures Update(m, s, sp, protection, None, true, connections) == (m, [], Some(NameError))
    ensures UpdateWithImport(m, s, sp, protection, None, true, connections).2.None?
  {
  }

  /** Every switch's rules are computed without an exception and with distinct
      match fields. */
  predicate AllClean(s: TM.Store, sp: T.Graph -> T.PathTable, protection: Option<string>, switches: seq<string>) {
    forall sw :: sw in switches ==>
      ForwardingEntries(s, sp, protection, sw).failure.None? && E.UniqueKeys(ForwardingEntries(s, sp, protection, sw).entries)
  }

  /** After a loop over `switches` starting from `m0`, the BIFT table `m1`
      holds, for each of those switches, exactly its computed rules, and the
      rules of every other switch as in `m0`. */
  ghost predicate Installed(m0: E.Manager, m1: E.Manager, s: TM.Store, sp: T.Graph -> T.PathTable, protection: Option<string>, switches: seq<string>) {
    && Table in m0.tables && Table in m1.tables
    && E.UniqueKeys(m1.tables[Table])
    && (forall x: E.Entry :: x.switch in switches ==>
         (x in m1.tables[Table] <==> x in ForwardingEntries(s, sp, protection, x.switch).entries))
    && (forall x: E.Entry :: x.switch !in switches ==> (x in m1.tables[Table] <==> x in m0.tables[Table]))
  }

  /** `UpdateAllConverges` stated for every start, as the handlers use it. */
  lemma UpdateAllInstalls(m: E.Manager, s: TM.Store, sp: T.Graph -> T.PathTable, protection: Option<string>, switches: seq<string>)
    ensures var r := UpdateAll(m, s, sp, protection, switches);
      Table in m.tables && E.UniqueKeys(m.tables[Table]) && AllClean(s, sp, protection, switches) ==>
      r.2.None? && Installed(m, r.0, s, sp, protection, switches)
  {
    if Table in m.tables && E.UniqueKeys(m.tables[Table]) && AllClean(s, sp, protection, switches) {
      UpdateAllConverges(m, s, sp, protection, switches);
    }
  }

  /** A loop over switches whose rules all compute cleanly installs each
      switch's rules exactly, whatever the order and repetitions of the list. */
  lemma {:induction false} UpdateAllConverges(m: E.Manager, s: TM.Store, sp: T.Graph -> T.PathTable, protection: Option<string>, switches: seq<string>)
    requires Table in m.tables && E.UniqueKeys(m.tables[Table])
    requires AllClean(s, sp, protection, switches)
    ensures var r := UpdateAll(m, s, sp, protection, switches);
      r.2.None? && Installed(m, r.0, s, sp, protection, switches)
    decreases |switches|
  {
    if switches != [] {
      var sw := switches[0];
      assert sw in switches;
      BierUpdateConverges(m, s, sp, protection, sw);
      var first := UpdateBierForwardingEntries(m, s, sp, protection, sw);
      assert E.UniqueKeys(first.0.tables[Table]) by {
        E.SyncConverges(m, Table, sw, ForwardingEntries(s, sp, protection, sw).entries);
      }
      assert forall x :: x in switches[1..] ==> x in switches;
      UpdateAllConverges(first.0, s, sp, protection, switches[1..]);
      var rest := UpdateAll(first.0, s, sp, protection, switches[1..]);
      forall x: E.Entry | x.switch in switches
        ensures x in rest.0.tables[Table] <==> x in ForwardingEntries(s, sp, protection, x.switch).entries
      {
        if x.switch !in switches[1..] {
          assert x.switch == sw;
        }
      }
      forall x: E.Entry | x.switch !in switches
        ensures x in rest.0.tables[Table] <==> x in m.tables[Table]
      {
        assert x.switch != sw && x.switch !in switches[1..];
      }
    }
  }

  /** Every switch's rules are computed without an exception. */
  predicate AllComputed(s: TM.Store, sp: T.Graph -> T.PathTable, protection: Option<string>, switches: seq<string>)
    decreases |switches|
  {
    switches == [] || (ForwardingEntries(s, sp, protection, switches[0]).failure.None? && AllComputed(s, sp, protection, switches[1..]))
  }

  /** The loop over the connected switches. */
  function UpdateAll(m: E.Manager, s: TM.Store, sp: T.Graph -> T.PathTable, protection: Option<string>, switches: seq<string>): (r: (E.Manager, seq<E.DriverOp>, Option<Error>))
    ensures switches == [] ==> r == (m, [], None)
    ensures r.2.None? ==> AllComputed(s, sp, protection, switches)
    decreases |switches|
  {
    if switches == [] then (m, [], None)
    else
      var first := UpdateBierForwardingEntries(m, s, sp, protection, switches[0]);
      if first.2.Some? then first
      else
        var rest := UpdateAll(first.0, s, sp, protection, switches[1..]);
        (rest.0, first.1 + rest.1, rest.2)
  }
}
