/** The BIER routing computation (section 6 of RFC 8279): a switch's bit index
    routing table (BIRT) and bit index forwarding table (BIFT) in a domain, the
    forwarding bit masks (FBMs) that group destinations by next hop, and the
    BIER header of a multicast group. */
module BierComputation {
  import opened Wrappers
  import opened Bitmask
  import opened Devices
  import T = Topology
  import TM = TopologyManager
  import GM = GroupManager

  /** One BIRT row: destination BFR-id, destination address, next-hop address. */
  datatype BirtRow = BirtRow(id: int, destIp: string, nhIp: string)

  /** One BIFT row: destination BFR-id, its FBM and the next hop's name. */
  datatype BiftRow = BiftRow(id: int, fbm: nat, nextHop: string)

  function Ids(birt: seq<BirtRow>): (r: seq<int>)
    ensures |r| == |birt| && forall i :: 0 <= i < |birt| ==> r[i] == birt[i].id
  {
    if birt == [] then [] else [birt[0].id] + Ids(birt[1..])
  }

  function BiftIds(bift: seq<BiftRow>): (r: seq<int>)
    ensures |r| == |bift| && forall i :: 0 <= i < |bift| ==> r[i] == bift[i].id
  {
    if bift == [] then [] else [bift[0].id] + BiftIds(bift[1..])
  }

  /** The rows stand for a dictionary keyed by BFR-id. */
  predicate UniqueIds(birt: seq<BirtRow>) {
    forall i, j :: 0 <= i < j < |birt| ==> birt[i].id != birt[j].id
  }

  /** Index of the row with the given id. */
  function IdIndex(birt: seq<BirtRow>, k: int): (r: Option<nat>)
    ensures r.Some? ==> r.value < |birt| && birt[r.value].id == k
    ensures r.None? <==> k !in Ids(birt)
  {
    if birt == [] then None
    else if birt[0].id == k then Some(0)
    else
      assert Ids(birt) == [birt[0].id] + Ids(birt[1..]);
      match IdIndex(birt[1..], k)
      case Some(i) => Some(i + 1)
      case None => None
  }

  /** `birt[row.id] = [...]`: an existing key keeps its place and takes the new
      value, a new key goes last. */
  function Put(birt: seq<BirtRow>, row: BirtRow): (r: seq<BirtRow>)
    requires UniqueIds(birt)
    ensures UniqueIds(r) && row in r
    ensures forall x :: x in r ==> x in birt || x == row
    ensures forall x :: x in birt && x.id != row.id ==> x in r
    ensures forall k :: k in Ids(r) <==> k in Ids(birt) || k == row.id
  {
    match IdIndex(birt, row.id)
    case Some(i) => PutReplaces(birt, row, i); birt[i := row]
    case None => PutAppends(birt, row); birt + [row]
  }

  lemma {:induction false} PutReplaces(birt: seq<BirtRow>, row: BirtRow, i: nat)
    requires UniqueIds(birt) && i < |birt| && birt[i].id == row.id
    ensures var r := birt[i := row];
      && UniqueIds(r) && row in r
      && (forall x :: x in r ==> x in birt || x == row)
      && (forall x :: x in birt && x.id != row.id ==> x in r)
      && (forall k :: k in Ids(r) <==> k in Ids(birt) || k == row.id)
  {
    var r := birt[i := row];
    assert Ids(r) == Ids(birt) by {
      assert forall j :: 0 <= j < |birt| ==> Ids(r)[j] == Ids(birt)[j];
    }
    assert Ids(birt)[i] == row.id;
    forall x | x in birt && x.id != row.id ensures x in r {
      var j :| 0 <= j < |birt| && birt[j] == x;
      assert r[j] == x;
    }
  }

  lemma {:induction false} PutAppends(birt: seq<BirtRow>, row: BirtRow)
    requires UniqueIds(birt) && row.id !in Ids(birt)
    ensures var r := birt + [row];
      && UniqueIds(r) && row in r
      && (forall k :: k in Ids(r) <==> k in Ids(birt) || k == row.id)
  {
    var r := birt + [row];
    assert Ids(r) == Ids(birt) + [row.id] by {
      assert forall j :: 0 <= j < |birt| ==> Ids(r)[j] == Ids(birt)[j];
    }
    forall j | 0 <= j < |birt| ensures birt[j].id != row.id {
      assert Ids(birt)[j] == birt[j].id;
    }
  }

  /** A node that build_birt gives a row: another switch, registered, that the
      switch has a next hop towards. */
  predicate Eligible(s: TM.Store, sp: T.Graph -> T.PathTable, switch: string, domain: int, d: string) {
    && d != switch
    && TM.GetDevice(s, d).Ok?
    && TM.GetDevice(s, d).value.kind.Switch?
    && TM.GetNextHop(s, sp, switch, d, domain).Ok?
  }

  /** A node whose lookups raise something build_birt does not catch. */
  predicate Fails(s: TM.Store, sp: T.Graph -> T.PathTable, switch: string, domain: int, d: string) {
    && d != switch
    && (|| TM.GetDevice(s, d).Err?
        || (&& TM.GetDevice(s, d).value.kind.Switch?
            && TM.GetNextHop(s, sp, switch, d, domain).Err?
            && TM.GetNextHop(s, sp, switch, d, domain).error != NextHopNotFound))
  }

  function RowOf(s: TM.Store, sp: T.Graph -> T.PathTable, switch: string, domain: int, d: string): BirtRow
    requires Eligible(s, sp, switch, domain, d)
  {
    var dev := TM.GetDevice(s, d).value;
    BirtRow(GetBfrId(dev, domain), dev.ip, TM.GetNextHop(s, sp, switch, d, domain).value.ip)
  }

  /** `build_birt`: one row per node of the domain's graph that is not the switch
      itself and not a host, keyed by the node's BFR-id in the domain; nodes
      without a next hop are skipped, every other failure propagates. */
  function BuildBirt(s: TM.Store, sp: T.Graph -> T.PathTable, switch: string, domain: int): (r: Result<seq<BirtRow>>)
    ensures TM.GetTopology(s, domain).Err? ==> r == Err(DomainNotFound)
    ensures r.Err? ==> r.error == DomainNotFound || r.error == DeviceNotFound
    ensures r.Ok? ==> UniqueIds(r.value)
  {
    var top :- TM.GetTopology(s, domain);
    BirtOver(s, sp, switch, domain, top.graph.nodes, [])
  }

  /** The BIRT fails exactly when a node other than the switch is unregistered
      or its next-hop lookup raises something other than NextHopNotFound; every
      row comes from a registered switch other than the switch itself with a
      next hop, and every such switch has a row under its id. */
  lemma BuildBirtContents(s: TM.Store, sp: T.Graph -> T.PathTable, switch: string, domain: int)
    requires TM.GetTopology(s, domain).Ok?
    ensures var r, nodes := BuildBirt(s, sp, switch, domain), TM.GetTopology(s, domain).value.graph.nodes;
      && (r.Ok? <==> forall d :: d in nodes ==> !Fails(s, sp, switch, domain, d))
      && (r.Ok? ==> forall row :: row in r.value ==> exists d ::
            d in nodes && Eligible(s, sp, switch, domain, d) && row == RowOf(s, sp, switch, domain, d))
      && (r.Ok? ==> forall d :: d in nodes && Eligible(s, sp, switch, domain, d) ==> RowOf(s, sp, switch, domain, d).id in Ids(r.value))
  {
    var nodes := TM.GetTopology(s, domain).value.graph.nodes;
    if BirtOver(s, sp, switch, domain, nodes, []).Ok? {
      BirtOverRows(s, sp, switch, domain, nodes, []);
    }
  }

  function BirtOver(s: TM.Store, sp: T.Graph -> T.PathTable, switch: string, domain: int, nodes: seq<string>, acc: seq<BirtRow>): (r: Result<seq<BirtRow>>)
    requires UniqueIds(acc)
    ensures r.Ok? <==> forall d :: d in nodes ==> !Fails(s, sp, switch, domain, d)
    ensures r.Err? ==> r.error == DomainNotFound || r.error == DeviceNotFound
    ensures r.Ok? ==> UniqueIds(r.value)
    decreases |nodes|
  {
    if nodes == [] then Ok(acc)
    else
      var d := nodes[0];
      assert forall x :: x in nodes <==> x == d || x in nodes[1..];
      if d == switch then BirtOver(s, sp, switch, domain, nodes[1..], acc)
      else
        match TM.GetDevice(s, d)
        case Err(e) =>
          assert Fails(s, sp, switch, domain, d);
          Err(e)
        case Ok(dev) =>
          if dev.kind.Host? then BirtOver(s, sp, switch, domain, nodes[1..], acc)
          else
            match TM.GetNextHop(s, sp, switch, d, domain)
            case Err(e) =>
              if e == NextHopNotFound then BirtOver(s, sp, switch, domain, nodes[1..], acc)
              else
                assert Fails(s, sp, switch, domain, d);
                Err(e)
            case Ok(nh) =>
              BirtOver(s, sp, switch, domain, nodes[1..], Put(acc, BirtRow(GetBfrId(dev, domain), dev.ip, nh.ip)))
  }

  /** Every row comes from an eligible node or was there before, no key is lost,
      and every eligible node has a row under its id. */
  lemma {:induction false} BirtOverRows(s: TM.Store, sp: T.Graph -> T.PathTable, switch: string, domain: int, nodes: seq<string>, acc: seq<BirtRow>)
    requires UniqueIds(acc) && BirtOver(s, sp, switch, domain, nodes, acc).Ok?
    ensures var r := BirtOver(s, sp, switch, domain, nodes, acc).value;
      && (forall row :: row in r ==> row in acc || exists d ::
            d in nodes && Eligible(s, sp, switch, domain, d) && row == RowOf(s, sp, switch, domain, d))
      && (forall k :: k in Ids(acc) ==> k in Ids(r))
      && (forall d :: d in nodes && Eligible(s, sp, switch, domain, d) ==> RowOf(s, sp, switch, domain, d).id in Ids(r))
    decreases |nodes|
  {
    if nodes != [] {
      var d := nodes[0];
      assert forall x :: x in nodes <==> x == d || x in nodes[1..];
      if d == switch || TM.GetDevice(s, d).value.kind.Host? || TM.GetNextHop(s, sp, switch, d, domain).Err? {
        BirtOverRows(s, sp, switch, domain, nodes[1..], acc);
      } else {
        var acc1 := Put(acc, RowOf(s, sp, switch, domain, d));
        BirtOverRows(s, sp, switch, domain, nodes[1..], acc1);
      }
    }
  }

  /** The ids of the rows whose next hop has the given address. */
  function MatchingIds(birt: seq<BirtRow>, nhIp: string): (r: seq<int>)
    ensures forall k :: k in r <==> exists row :: row in birt && row.id == k && row.nhIp == nhIp
  {
    if birt == [] then []
    else
      assert forall row :: row in birt <==> row == birt[0] || row in birt[1..];
      (if birt[0].nhIp == nhIp then [birt[0].id] else []) + MatchingIds(birt[1..], nhIp)
  }

  /** `get_fbm`: the OR of the bits of all destinations reached over the next hop
      with the given address. */
  function GetFbm(birt: seq<BirtRow>, nhIp: string): (r: nat)
    ensures forall k :: HasId(r, k) <==> k >= 1 && exists row :: row in birt && row.id == k && row.nhIp == nhIp
  {
    OrIds(MatchingIds(birt, nhIp))
  }

  /** The FBM is empty exactly when no destination with a real id (one or more)
      goes over that next hop. */
  lemma {:induction false} FbmZero(birt: seq<BirtRow>, nhIp: string)
    ensures GetFbm(birt, nhIp) == 0 <==> forall row :: row in birt && row.nhIp == nhIp ==> row.id < 1
  {
    var f := GetFbm(birt, nhIp);
    if f != 0 {
      NonZeroHasBit(f);
      var b: nat :| HasBit(f, b);
      assert HasId(f, b + 1);
    } else {
      forall k ensures !HasId(f, k) {
        if k >= 1 {
          ZeroBit(k - 1);
        }
      }
      forall row | row in birt && row.nhIp == nhIp ensures row.id < 1 {
        assert !HasId(f, row.id);
      }
    }
  }

  /** Adding a destination never clears a bit of an FBM. */
  lemma {:induction false} FbmMonotone(birt: seq<BirtRow>, row: BirtRow, nhIp: string)
    ensures forall b: nat :: HasBit(GetFbm(birt, nhIp), b) ==> HasBit(GetFbm(birt + [row], nhIp), b)
  {
    forall b: nat | HasBit(GetFbm(birt, nhIp), b) ensures HasBit(GetFbm(birt + [row], nhIp), b) {
      assert HasId(GetFbm(birt, nhIp), b + 1);
      var x :| x in birt && x.id == b + 1 && x.nhIp == nhIp;
      assert x in birt + [row];
      assert HasId(GetFbm(birt + [row], nhIp), b + 1);
    }
  }

  /** Destinations reached over different next hops have disjoint FBMs: a BFR-id
      is a dictionary key, so it has one next hop. */
  lemma {:induction false} FbmDisjoint(birt: seq<BirtRow>, p: string, q: string)
    requires UniqueIds(birt) && p != q
    ensures forall b: nat :: HasBit(GetFbm(birt, p), b) ==> !HasBit(GetFbm(birt, q), b)
  {
    forall b: nat | HasBit(GetFbm(birt, p), b) ensures !HasBit(GetFbm(birt, q), b) {
      assert HasId(GetFbm(birt, p), b + 1);
      var x :| x in birt && x.id == b + 1 && x.nhIp == p;
      var i :| 0 <= i < |birt| && birt[i] == x;
      forall y | y in birt && y.id == b + 1 ensures y.nhIp != q {
        var j :| 0 <= j < |birt| && birt[j] == y;
        assert i == j;
      }
      assert !HasId(GetFbm(birt, q), b + 1);
    }
  }

  /** The switch can reach the device that holds the id: build_bift looks the
      device up by id and asks for the next hop towards it. */
  predicate Routable(s: TM.Store, sp: T.Graph -> T.PathTable, switch: string, domain: int, id: int) {
    && TM.GetDeviceByDomainAndId(s, domain, id).Ok?
    && TM.GetNextHop(s, sp, switch, TM.GetDeviceByDomainAndId(s, domain, id).value, domain).Ok?
  }

  /** The name of the next hop toward the device holding `id`: the device at the
      second node of the switch's shortest path to it. */
  function NextHopName(s: TM.Store, sp: T.Graph -> T.PathTable, switch: string, domain: int, id: int): (r: string)
    requires Routable(s, sp, switch, domain, id)
    ensures var dest, paths := TM.GetDeviceByDomainAndId(s, domain, id).value, sp(TM.GetTopology(s, domain).value.graph);
      exists path :: switch in paths && T.RouteTo(paths[switch], dest) == Some(path) && |path| >= 2
        && TM.GetDevice(s, path[1]).Ok? && TM.GetDevice(s, path[1]).value.name == r
  {
    TM.GetNextHop(s, sp, switch, TM.GetDeviceByDomainAndId(s, domain, id).value, domain).value.name
  }

  /** The BIFT row for one BIRT row: the FBM of the row's next hop, and the next
      hop towards the device that holds the row's id. */
  function BiftRowFor(s: TM.Store, sp: T.Graph -> T.PathTable, switch: string, domain: int, birt: seq<BirtRow>, row: BirtRow): (r: Result<BiftRow>)
    ensures r.Ok? <==> Routable(s, sp, switch, domain, row.id)
    ensures r.Err? ==> r.error == DomainNotFound || r.error == DeviceNotFound || r.error == AttributeError || r.error == NextHopNotFound
    ensures r.Ok? ==> r.value == BiftRow(row.id, GetFbm(birt, row.nhIp), NextHopName(s, sp, switch, domain, row.id))
  {
    var fbm := GetFbm(birt, row.nhIp);
    var dest :- TM.GetDeviceByDomainAndId(s, domain, row.id);
    var nh :- TM.GetNextHop(s, sp, switch, dest, domain);
    Ok(BiftRow(row.id, fbm, nh.name))
  }

  /** `build_bift`: a row per BIRT row, in the same order. */
  function BuildBift(s: TM.Store, sp: T.Graph -> T.PathTable, switch: string, domain: int): (r: Result<seq<BiftRow>>)
    ensures r.Ok? ==> BuildBirt(s, sp, switch, domain).Ok?
    ensures BuildBirt(s, sp, switch, domain).Err? ==> r == Err(BuildBirt(s, sp, switch, domain).error)
    ensures r.Err? ==> r.error == DomainNotFound || r.error == DeviceNotFound || r.error == AttributeError || r.error == NextHopNotFound
  {
    var birt :- BuildBirt(s, sp, switch, domain);
    MapResult(row => BiftRowFor(s, sp, switch, domain, birt, row), birt)
  }

  /** The BIFT has the BIRT's ids in the BIRT's order; each row carries the FBM
      of its BIRT next-hop address and the next hop towards the device that holds
      its id; it exists exactly when every such device is reachable. */
  lemma BiftShape(s: TM.Store, sp: T.Graph -> T.PathTable, switch: string, domain: int)
    requires BuildBirt(s, sp, switch, domain).Ok?
    ensures var birt, r := BuildBirt(s, sp, switch, domain).value, BuildBift(s, sp, switch, domain);
      && (r.Ok? <==> forall i :: 0 <= i < |birt| ==> Routable(s, sp, switch, domain, birt[i].id))
      && (r.Ok? ==> BiftIds(r.value) == Ids(birt))
      && (r.Ok? ==> forall i :: 0 <= i < |birt| ==>
            r.value[i].fbm == GetFbm(birt, birt[i].nhIp) && r.value[i].nextHop == NextHopName(s, sp, switch, domain, birt[i].id))
  {
    var birt := BuildBirt(s, sp, switch, domain).value;
    var r := BuildBift(s, sp, switch, domain);
    if r.Ok? {
      assert BiftIds(r.value) == Ids(birt);
    }
  }

  /** Every BIFT row's FBM holds the row's own bit, destinations that share a
      next-hop address share their FBM, and destinations over different next-hop
      addresses have FBMs with no bit in common. */
  lemma {:induction false} BiftFbms(s: TM.Store, sp: T.Graph -> T.PathTable, switch: string, domain: int)
    requires BuildBift(s, sp, switch, domain).Ok?
    ensures var birt, bift := BuildBirt(s, sp, switch, domain).value, BuildBift(s, sp, switch, domain).value;
      && (forall i :: 0 <= i < |bift| && bift[i].id >= 1 ==> HasId(bift[i].fbm, bift[i].id))
      && (forall i, j :: 0 <= i < |bift| && 0 <= j < |bift| && birt[i].nhIp == birt[j].nhIp ==> bift[i].fbm == bift[j].fbm)
      && (forall i, j, b: nat :: 0 <= i < |bift| && 0 <= j < |bift| && birt[i].nhIp != birt[j].nhIp && HasBit(bift[i].fbm, b)
            ==> !HasBit(bift[j].fbm, b))
  {
    var birt, bift := BuildBirt(s, sp, switch, domain).value, BuildBift(s, sp, switch, domain).value;
    BiftShape(s, sp, switch, domain);
    assert |bift| == |birt| by {
      assert |BiftIds(bift)| == |Ids(birt)|;
    }
    forall i | 0 <= i < |bift| ensures bift[i].id == birt[i].id {
      assert BiftIds(bift)[i] == Ids(birt)[i];
    }
    forall i | 0 <= i < |bift| && bift[i].id >= 1 ensures HasId(bift[i].fbm, bift[i].id) {
      assert birt[i].id == bift[i].id && birt[i].nhIp == birt[i].nhIp;
    }
    forall i, j, b: nat | 0 <= i < |bift| && 0 <= j < |bift| && birt[i].nhIp != birt[j].nhIp && HasBit(bift[i].fbm, b)
      ensures !HasBit(bift[j].fbm, b)
    {
      FbmDisjoint(birt, birt[i].nhIp, birt[j].nhIp);
    }
  }

  /** Some registered subscriber of the domain is a host, which has no BFR-id
      to ask for. */
  predicate HostInDomain(s: TM.Store, xs: seq<string>, domain: int) {
    exists x :: x in xs && TM.ExistsDevice(s, x) && domain in TM.GetDomainForDevice(s, x).value
      && TM.GetDevice(s, x).value.kind.Host?
  }

  /** `compute_bier_header`: the OR of the bits that the subscribed switches of
      the domain hold there. An unregistered subscriber raises DeviceNotFound in
      the filter; a host among the subscribers of the domain then raises
      AttributeError, having no `get_bfr_id`. */
  function ComputeBierHeader(s: TM.Store, gm: GM.Store, mc: string, domain: int): (r: Result<nat>)
    ensures r.Err? ==> r.error == DeviceNotFound || r.error == AttributeError
    ensures r.Ok? ==> forall k :: HasId(r.value, k) <==> k >= 1 && exists x ::
      && x in GM.GetBfrByMcAddr(gm, mc) && TM.ExistsDevice(s, x)
      && domain in TM.GetDomainForDevice(s, x).value
      && GetBfrId(TM.GetDevice(s, x).value, domain) == k
  {
    var bfrs := GM.GetBfrByMcAddr(gm, mc);
    var inDomain :- InDomain(s, bfrs, domain);
    var ids :- BfrIds(s, inDomain, domain);
    Ok(OrIds(ids))
  }

  /** The header can be computed exactly when every subscriber is registered
      and none of those in the domain is a host; it raises DeviceNotFound
      exactly when some subscriber is unregistered. */
  lemma HeaderOkIff(s: TM.Store, gm: GM.Store, mc: string, domain: int)
    ensures var r := ComputeBierHeader(s, gm, mc, domain);
      && (r.Ok? <==> ((forall x :: x in GM.GetBfrByMcAddr(gm, mc) ==> TM.ExistsDevice(s, x))
            && !HostInDomain(s, GM.GetBfrByMcAddr(gm, mc), domain)))
      && (r == Err(DeviceNotFound) <==> exists x :: x in GM.GetBfrByMcAddr(gm, mc) && !TM.ExistsDevice(s, x))
  {
    var bfrs := GM.GetBfrByMcAddr(gm, mc);
    var ind := InDomain(s, bfrs, domain);
    if ind.Ok? {
      var ids := BfrIds(s, ind.value, domain);
      if ids.Ok? {
        assert !HostInDomain(s, bfrs, domain);
      } else {
        var x :| x in ind.value && !TM.GetDevice(s, x).value.kind.Switch?;
        assert HostInDomain(s, bfrs, domain);
      }
    }
  }

  /** `filter(lambda x: domain in get_domain_for_device(x), ...)`. */
  function InDomain(s: TM.Store, xs: seq<string>, domain: int): (r: Result<seq<string>>)
    ensures r.Ok? <==> forall x :: x in xs ==> TM.ExistsDevice(s, x)
    ensures r.Err? ==> r.error == DeviceNotFound
    ensures r.Ok? ==> forall x :: x in r.value <==> x in xs && domain in TM.GetDomainForDevice(s, x).value
  {
    if xs == [] then Ok([])
    else
      assert forall x :: x in xs <==> x == xs[0] || x in xs[1..];
      var ds :- TM.GetDomainForDevice(s, xs[0]);
      var rest :- InDomain(s, xs[1..], domain);
      Ok((if domain in ds then [xs[0]] else []) + rest)
  }

  /** `map(lambda x: get_device(x).get_bfr_id(domain), ...)` over registered
      devices: AttributeError at the first host, which has no `get_bfr_id`. */
  function BfrIds(s: TM.Store, xs: seq<string>, domain: int): (r: Result<seq<int>>)
    requires forall x :: x in xs ==> TM.ExistsDevice(s, x)
    ensures r.Ok? <==> forall x :: x in xs ==> TM.GetDevice(s, x).value.kind.Switch?
    ensures r.Err? ==> r.error == AttributeError
    ensures r.Ok? ==> forall k :: k in r.value <==> exists x :: x in xs && GetBfrId(TM.GetDevice(s, x).value, domain) == k
  {
    if xs == [] then Ok([])
    else
      assert forall x :: x in xs <==> x == xs[0] || x in xs[1..];
      var d := TM.GetDevice(s, xs[0]).value;
      if d.kind.Host? then Err(AttributeError)
      else
        var rest :- BfrIds(s, xs[1..], domain);
        Ok([GetBfrId(d, domain)] + rest)
  }
}
