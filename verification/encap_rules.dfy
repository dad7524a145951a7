/** The BIER encapsulation rules that the IPv4 and the tunnel controllers
    install on ingress switches (`update_bier_encap_entry` in both). The two
    differ only in the table, the action and the parameters of their rules, so
    they share one model with a `Style` saying which controller it is. */
module EncapRules {
  import opened Wrappers
  import opened Seqs
  import TM = TopologyManager
  import GM = GroupManager
  import E = TableEntryManager
  import B = BierComputation
  import C = Configuration

  const DstAddr := "hdr.ipv4.dstAddr"
  /** The ether type the tunnel controller writes into its encap rules. */
  const BierEtherType := 0xBB00

  /** Which controller installs the rules. */
  datatype Style = Ipv4Encap | TunnelEncap

  /** The table each controller keeps its encap rules in. */
  function TableOf(k: Style): string {
    match k
    case Ipv4Encap => "ingress.ipv4_c.encap_ipv4"
    case TunnelEncap => "egress.tunnel_c.encap_ipv4"
  }

  /** The match fields of the encap rule for a multicast address: the
      destination address alone, whatever the domain. */
  function EncapKey(mc: string): E.Fields {
    map[DstAddr := E.Str(mc)]
  }

  /** Packets to the multicast address `mc` get a BIER header with bitstring
      `bs`; the tunnel controller also records the ether type and the domain. */
  function EncapEntry(k: Style, switch: string, mc: string, bs: nat, domain: int): E.Entry {
    match k
    case Ipv4Encap =>
      E.Entry(switch, EncapKey(mc), "ingress.ipv4_c.add_bier", map["bs" := E.Int(bs)], None)
    case TunnelEncap =>
      E.Entry(switch, EncapKey(mc), "egress.tunnel_c.add_bier",
        map["bs" := E.Int(bs), "etherType" := E.Int(BierEtherType), "domain" := E.Int(domain)], None)
  }

  /** Every switch subscribed to the address is registered, so its domains can
      be listed. */
  predicate Registered(s: TM.Store, gm: GM.Store, mc: string) {
    forall b :: b in GM.GetBfrByMcAddr(gm, mc) ==> TM.ExistsDevice(s, b)
  }

  /** `get_domains_for_mc_addr` of an address whose subscribers are registered:
      domain 0 and the subscribers' domains, each once. */
  function Domains(s: TM.Store, gm: GM.Store, mc: string): (r: seq<int>)
    requires Registered(s, gm, mc)
    ensures 0 in r && NoDuplicates(r)
  {
    GM.GetDomainsForMcAddr(s, gm, mc).value
  }

  /** No subscriber of the address is a host that belongs to a domain, so no
      header of the address asks a host for its BFR-id. */
  predicate Encodable(s: TM.Store, gm: GM.Store, mc: string) {
    && Registered(s, gm, mc)
    && forall b :: b in GM.GetBfrByMcAddr(gm, mc) && TM.GetDevice(s, b).value.kind.Host? ==>
         TM.GetDomainForDevice(s, b).value == []
  }

  /** The header of an encodable address can be computed in every domain. */
  lemma EncodableHeader(s: TM.Store, gm: GM.Store, mc: string, domain: int)
    requires Encodable(s, gm, mc)
    ensures B.ComputeBierHeader(s, gm, mc, domain).Ok?
  {
    B.HeaderOkIff(s, gm, mc, domain);
  }

  /** For an address with registered subscribers, being encodable is the same
      as having a computable header in each of its domains. */
  lemma {:induction false} EncodableIff(s: TM.Store, gm: GM.Store, mc: string)
    requires Registered(s, gm, mc)
    ensures Encodable(s, gm, mc) <==> forall d :: d in Domains(s, gm, mc) ==> B.ComputeBierHeader(s, gm, mc, d).Ok?
  {
    if Encodable(s, gm, mc) {
      forall d | d in Domains(s, gm, mc) ensures B.ComputeBierHeader(s, gm, mc, d).Ok? {
        EncodableHeader(s, gm, mc, d);
      }
    } else {
      var b :| b in GM.GetBfrByMcAddr(gm, mc) && TM.GetDevice(s, b).value.kind.Host?
        && TM.GetDomainForDevice(s, b).value != [];
      var d := TM.GetDomainForDevice(s, b).value[0];
      assert d in Domains(s, gm, mc);
      assert B.HostInDomain(s, GM.GetBfrByMcAddr(gm, mc), d);
      B.HeaderOkIff(s, gm, mc, d);
    }
  }

  /** The encap rule for an address in one domain: it carries the address's
      BIER header in that domain. */
  function DomainRule(k: Style, s: TM.Store, gm: GM.Store, switch: string, mc: string, domain: int): E.Entry
    requires Encodable(s, gm, mc)
  {
    EncodableHeader(s, gm, mc, domain);
    EncapEntry(k, switch, mc, B.ComputeBierHeader(s, gm, mc, domain).value, domain)
  }

  /** The encap rules of `update_bier_encap_entry` for one active address: one
      per domain of `get_domains_for_mc_addr`, in that order. An unregistered
      subscriber makes the domain lookup raise DeviceNotFound before any rule;
      a host subscriber of a domain makes that domain's header raise
      AttributeError after the rules of the domains before it. */
  function McEncap(k: Style, s: TM.Store, gm: GM.Store, switch: string, mc: string): (r: E.Gen)
    ensures r.failure.None? <==> Encodable(s, gm, mc)
    ensures !Registered(s, gm, mc) ==> r == E.Gen([], Some(DeviceNotFound))
    ensures Registered(s, gm, mc) && !Encodable(s, gm, mc) ==> r.failure == Some(AttributeError)
    ensures forall e :: e in r.entries ==> e.switch == switch && e.matchFields == EncapKey(mc)
    ensures r.failure.None? ==> var ds := Domains(s, gm, mc);
      && |r.entries| == |ds| > 0
      && (forall j :: 0 <= j < |ds| ==> r.entries[j] == DomainRule(k, s, gm, switch, mc, ds[j]))
      && r.entries[|ds| - 1] == EncapFinal(k, s, gm, switch, mc)
  {
    match GM.GetDomainsForMcAddr(s, gm, mc)
    case Err(e) => E.Gen([], Some(e))
    case Ok(ds) =>
      HeadersFail(s, gm, mc);
      DomainRules(k, switch, mc, ds, Headers(s, gm, mc, ds))
  }

  /** The header of the address in each listed domain, in order. */
  function Headers(s: TM.Store, gm: GM.Store, mc: string, ds: seq<int>): (r: seq<Result<nat>>)
    ensures |r| == |ds| && forall j :: 0 <= j < |ds| ==> r[j] == B.ComputeBierHeader(s, gm, mc, ds[j])
  {
    seq(|ds|, j requires 0 <= j < |ds| => B.ComputeBierHeader(s, gm, mc, ds[j]))
  }

  /** For registered subscribers, every header of the address's domains can be
      computed exactly when it is encodable, and a header that cannot raises
      AttributeError. */
  lemma HeadersFail(s: TM.Store, gm: GM.Store, mc: string)
    requires Registered(s, gm, mc)
    ensures var hs := Headers(s, gm, mc, Domains(s, gm, mc));
      && ((forall j :: 0 <= j < |hs| ==> hs[j].Ok?) <==> Encodable(s, gm, mc))
      && (forall j :: 0 <= j < |hs| && hs[j].Err? ==> hs[j].error == AttributeError)
  {
    var ds := Domains(s, gm, mc);
    var hs := Headers(s, gm, mc, ds);
    EncodableIff(s, gm, mc);
    assert (forall d :: d in ds ==> B.ComputeBierHeader(s, gm, mc, d).Ok?) <==> forall j :: 0 <= j < |hs| ==> hs[j].Ok? by {
      forall d | d in ds ensures (forall j :: 0 <= j < |hs| ==> hs[j].Ok?) ==> B.ComputeBierHeader(s, gm, mc, d).Ok? {
        var j :| 0 <= j < |ds| && ds[j] == d;
      }
    }
    forall j | 0 <= j < |hs| && hs[j].Err? ensures hs[j].error == AttributeError {
      B.HeaderOkIff(s, gm, mc, ds[j]);
    }
  }

  /** The inner loop over the domains of one address, given the header each
      domain computes (`hs[j]` for `ds[j]`): one rule per domain, up to the
      first header that raises. */
  function DomainRules(k: Style, switch: string, mc: string, ds: seq<int>, hs: seq<Result<nat>>): (r: E.Gen)
    requires |hs| == |ds|
    ensures forall e :: e in r.entries ==> e.switch == switch && e.matchFields == EncapKey(mc)
    ensures r.failure.None? <==> forall j :: 0 <= j < |hs| ==> hs[j].Ok?
    ensures r.failure.Some? ==> exists j :: 0 <= j < |hs| && hs[j].Err? && r.failure == Some(hs[j].error)
    ensures r.failure.None? ==> |r.entries| == |ds|
    ensures |r.entries| <= |ds|
    ensures forall j :: 0 <= j < |r.entries| ==> (hs[j].Ok? && r.entries[j] == EncapEntry(k, switch, mc, hs[j].value, ds[j]))
  {
    if ds == [] then E.Gen([], None)
    else if hs[0].Err? then E.Gen([], Some(hs[0].error))
    else
      var rest := DomainRules(k, switch, mc, ds[1..], hs[1..]);
      assert forall j :: 1 <= j < |ds| ==> ds[j] == ds[1..][j - 1] && hs[j] == hs[1..][j - 1];
      E.Gen([EncapEntry(k, switch, mc, hs[0].value, ds[0])] + rest.entries, rest.failure)
  }

  /** The rule left for an address once all its domains are handled: the one
      of the last domain listed. */
  function EncapFinal(k: Style, s: TM.Store, gm: GM.Store, switch: string, mc: string): E.Entry
    requires Encodable(s, gm, mc)
  {
    var ds := Domains(s, gm, mc);
    DomainRule(k, s, gm, switch, mc, ds[|ds| - 1])
  }

  /** The loop of `update_bier_encap_entry` over the addresses, up to the first
      exception. */
  function EncapOver(k: Style, s: TM.Store, gm: GM.Store, switch: string, mcs: seq<string>): (r: E.Gen)
    ensures E.ForSwitch(r.entries, switch)
    ensures forall e :: e in r.entries ==> exists a :: a in mcs && e.matchFields == EncapKey(a)
    ensures r.failure.None? <==> forall a :: a in mcs ==> Encodable(s, gm, a)
    ensures r.failure == Some(DeviceNotFound) ==> exists a :: a in mcs && !Registered(s, gm, a)
    ensures r.failure == Some(AttributeError) ==> exists a :: a in mcs && Registered(s, gm, a) && !Encodable(s, gm, a)
    ensures r.failure.Some? ==> r.failure == Some(DeviceNotFound) || r.failure == Some(AttributeError)
  {
    if mcs == [] then E.Gen([], None)
    else
      assert forall a :: a in mcs <==> a == mcs[0] || a in mcs[1..];
      E.Then(McEncap(k, s, gm, switch, mcs[0]), EncapOver(k, s, gm, switch, mcs[1..]))
  }

  /** The final rule of every address, in order. */
  function EncapFinals(k: Style, s: TM.Store, gm: GM.Store, switch: string, mcs: seq<string>): (r: seq<E.Entry>)
    requires forall a :: a in mcs ==> Encodable(s, gm, a)
    ensures forall x :: x in r <==> exists a :: a in mcs && Encodable(s, gm, a) && x == EncapFinal(k, s, gm, switch, a)
  {
    if mcs == [] then []
    else
      assert forall a :: a in mcs <==> a == mcs[0] || a in mcs[1..];
      [EncapFinal(k, s, gm, switch, mcs[0])] + EncapFinals(k, s, gm, switch, mcs[1..])
  }

  /** Over distinct addresses, the final rule of each key is the rule of the
      address's last domain. */
  lemma {:induction false} EncapOverFinal(k: Style, s: TM.Store, gm: GM.Store, switch: string, mcs: seq<string>, x: E.Entry)
    requires NoDuplicates(mcs) && forall a :: a in mcs ==> Encodable(s, gm, a)
    ensures E.Final(EncapOver(k, s, gm, switch, mcs).entries, x) <==> x in EncapFinals(k, s, gm, switch, mcs)
    decreases |mcs|
  {
    if mcs != [] {
      var first := McEncap(k, s, gm, switch, mcs[0]).entries;
      var rest := EncapOver(k, s, gm, switch, mcs[1..]).entries;
      NoDuplicatesTail(mcs);
      assert EncapOver(k, s, gm, switch, mcs).entries == first + rest;
      EncapOverFinal(k, s, gm, switch, mcs[1..], x);
      McEncapUniform(k, s, gm, switch, mcs[0]);
      EncapKeysApart(k, s, gm, switch, mcs[0], mcs[1..]);
      E.FinalPrepend(first, rest, x);
    }
  }

  /** The rules of one address all share its key, and the last is its final rule. */
  lemma McEncapUniform(k: Style, s: TM.Store, gm: GM.Store, switch: string, mc: string)
    requires Encodable(s, gm, mc)
    ensures var es := McEncap(k, s, gm, switch, mc).entries;
      && es != [] && es[|es| - 1] == EncapFinal(k, s, gm, switch, mc)
      && forall i, j :: 0 <= i < |es| && 0 <= j < |es| ==> E.SameKey(es[i], es[j])
  {
    var es := McEncap(k, s, gm, switch, mc).entries;
    forall i, j | 0 <= i < |es| && 0 <= j < |es| ensures E.SameKey(es[i], es[j]) {
      assert es[i] in es && es[j] in es;
    }
  }

  /** The rules of an address share no key with those of other addresses. */
  lemma EncapKeysApart(k: Style, s: TM.Store, gm: GM.Store, switch: string, mc: string, mcs: seq<string>)
    requires Encodable(s, gm, mc) && mc !in mcs
    ensures forall p, q :: p in McEncap(k, s, gm, switch, mc).entries && q in EncapOver(k, s, gm, switch, mcs).entries ==> !E.SameKey(p, q)
  {
    forall p, q | p in McEncap(k, s, gm, switch, mc).entries && q in EncapOver(k, s, gm, switch, mcs).entries ensures !E.SameKey(p, q) {
      var a :| a in mcs && q.matchFields == EncapKey(a);
      assert EncapKey(a)[DstAddr] == E.Str(a);
    }
  }

  /** `update_bier_encap_entry` for one switch: handles the encap rule of every
      domain of every active address, then purges the switch's rules for
      addresses no longer active. An unregistered subscriber (DeviceNotFound) or
      a host subscriber of a domain (AttributeError) stops it before the purge. */
  function UpdateBierEncapEntry(k: Style, m: E.Manager, s: TM.Store, gm: GM.Store, switch: string): (r: (E.Manager, seq<E.DriverOp>, Option<Error>))
    ensures TableOf(k) !in m.tables ==> r.0 == m && r.1 == [] && r.2.Some?
    ensures (exists a :: a in GM.GetMcAddresses(gm) && !Encodable(s, gm, a)) ==> r.2.Some?
  {
    var g := EncapOver(k, s, gm, switch, GM.GetMcAddresses(gm));
    E.Sync(m, TableOf(k), switch, g.entries, g.failure)
  }

  /** On a table with unique keys and with every active address encodable, the
      switch ends with exactly one encap rule per active address, carrying its
      header in the last domain listed; rules of inactive addresses are gone and
      other switches' rules are untouched. */
  lemma EncapInstalled(k: Style, m: E.Manager, s: TM.Store, gm: GM.Store, switch: string)
    requires TableOf(k) in m.tables && E.UniqueKeys(m.tables[TableOf(k)])
    requires forall a :: GM.Active(gm, a) ==> Encodable(s, gm, a)
    ensures var r := UpdateBierEncapEntry(k, m, s, gm, switch);
      && r.2.None? && TableOf(k) in r.0.tables && E.UniqueKeys(r.0.tables[TableOf(k)])
      && (forall x: E.Entry :: x.switch == switch ==> (x in r.0.tables[TableOf(k)] <==>
            exists a :: GM.Active(gm, a) && Encodable(s, gm, a) && x == EncapFinal(k, s, gm, switch, a)))
      && (forall x: E.Entry :: x.switch != switch ==> (x in r.0.tables[TableOf(k)] <==> x in m.tables[TableOf(k)]))
  {
    var mcs := GM.GetMcAddresses(gm);
    var g := EncapOver(k, s, gm, switch, mcs);
    E.SyncExact(m, TableOf(k), switch, g.entries);
    forall x: E.Entry ensures E.Final(g.entries, x) <==>
      exists a :: GM.Active(gm, a) && Encodable(s, gm, a) && x == EncapFinal(k, s, gm, switch, a)
    {
      EncapOverFinal(k, s, gm, switch, mcs, x);
    }
  }

  /** Each rule the switch keeps in `t` is the rule of an active address in one
      of its domains. */
  ghost predicate KeptAreDomainRules(k: Style, s: TM.Store, gm: GM.Store, switch: string, t: seq<E.Entry>) {
    forall x :: x in t && x.switch == switch ==>
      exists a, d :: (GM.Active(gm, a) && Encodable(s, gm, a) && d in Domains(s, gm, a)
        && x == DomainRule(k, s, gm, switch, a, d))
  }

  /** Every active address keeps a rule with its key on the switch. */
  ghost predicate ActiveKeepRule(s: TM.Store, gm: GM.Store, switch: string, t: seq<E.Entry>) {
    forall a :: GM.Active(gm, a) && Encodable(s, gm, a) ==>
      exists x :: x in t && x.switch == switch && x.matchFields == EncapKey(a)
  }

  /** An active address whose domains are all 0 keeps its domain-0 rule. */
  ghost predicate DomainZeroKept(k: Style, s: TM.Store, gm: GM.Store, switch: string, t: seq<E.Entry>) {
    forall a :: GM.Active(gm, a) && Encodable(s, gm, a) && (forall d :: d in Domains(s, gm, a) ==> d == 0) ==>
      DomainRule(k, s, gm, switch, a, 0) in t
  }

  /** What holds of the switch's rules whatever order `list(set(...))` gives
      the domains. */
  ghost predicate AnyOrderInstalled(k: Style, s: TM.Store, gm: GM.Store, switch: string, t: seq<E.Entry>) {
    KeptAreDomainRules(k, s, gm, switch, t) && ActiveKeepRule(s, gm, switch, t) && DomainZeroKept(k, s, gm, switch, t)
  }

  /** The switch's rules in `t` are exactly the last-domain rules of the active
      addresses. */
  ghost predicate HoldsFinals(k: Style, s: TM.Store, gm: GM.Store, switch: string, t: seq<E.Entry>) {
    forall x: E.Entry :: x.switch == switch ==> (x in t <==>
      exists a :: GM.Active(gm, a) && Encodable(s, gm, a) && x == EncapFinal(k, s, gm, switch, a))
  }

  /** A table holding exactly the last-domain rules meets the order-free
      description. */
  lemma FinalsAnyOrder(k: Style, s: TM.Store, gm: GM.Store, switch: string, t: seq<E.Entry>)
    requires HoldsFinals(k, s, gm, switch, t)
    ensures AnyOrderInstalled(k, s, gm, switch, t)
  {
    FinalsAreDomainRules(k, s, gm, switch, t);
    FinalsCoverActive(k, s, gm, switch, t);
    FinalsDomainZero(k, s, gm, switch, t);
  }

  /** Each last-domain rule is the rule of one of the address's domains. */
  lemma FinalsAreDomainRules(k: Style, s: TM.Store, gm: GM.Store, switch: string, t: seq<E.Entry>)
    requires HoldsFinals(k, s, gm, switch, t)
    ensures KeptAreDomainRules(k, s, gm, switch, t)
  {
    forall x | x in t && x.switch == switch
      ensures exists a, d :: (GM.Active(gm, a) && Encodable(s, gm, a) && d in Domains(s, gm, a)
        && x == DomainRule(k, s, gm, switch, a, d))
    {
      var a :| GM.Active(gm, a) && Encodable(s, gm, a) && x == EncapFinal(k, s, gm, switch, a);
      var ds := Domains(s, gm, a);
      assert ds[|ds| - 1] in ds;
    }
  }

  /** Every active address keeps a rule on the switch. */
  lemma FinalsCoverActive(k: Style, s: TM.Store, gm: GM.Store, switch: string, t: seq<E.Entry>)
    requires HoldsFinals(k, s, gm, switch, t)
    ensures ActiveKeepRule(s, gm, switch, t)
  {
    forall a | GM.Active(gm, a) && Encodable(s, gm, a)
      ensures exists x :: x in t && x.switch == switch && x.matchFields == EncapKey(a)
    {
      var x := EncapFinal(k, s, gm, switch, a);
      assert x in t;
    }
  }

  /** An active address whose domains are all 0 keeps its domain-0 rule. */
  lemma FinalsDomainZero(k: Style, s: TM.Store, gm: GM.Store, switch: string, t: seq<E.Entry>)
    requires HoldsFinals(k, s, gm, switch, t)
    ensures DomainZeroKept(k, s, gm, switch, t)
  {
    forall a | GM.Active(gm, a) && Encodable(s, gm, a) && (forall d :: d in Domains(s, gm, a) ==> d == 0)
      ensures DomainRule(k, s, gm, switch, a, 0) in t
    {
      assert EncapFinal(k, s, gm, switch, a) in t;
      OnlyDomainZero(k, s, gm, switch, a);
    }
  }

  /** An address whose domains are all 0 ends with its domain-0 rule. */
  lemma OnlyDomainZero(k: Style, s: TM.Store, gm: GM.Store, switch: string, mc: string)
    requires Encodable(s, gm, mc)
    requires forall d :: d in Domains(s, gm, mc) ==> d == 0
    ensures EncapFinal(k, s, gm, switch, mc) == DomainRule(k, s, gm, switch, mc, 0)
  {
    LastDomainZero(s, gm, mc);
  }

  /** When every domain of an address is 0, the last one listed is 0. */
  lemma LastDomainZero(s: TM.Store, gm: GM.Store, mc: string)
    requires Registered(s, gm, mc)
    requires forall d :: d in Domains(s, gm, mc) ==> d == 0
    ensures var ds := Domains(s, gm, mc); |ds| > 0 && ds[|ds| - 1] == 0
  {
    var ds := Domains(s, gm, mc);
    assert ds[|ds| - 1] in ds;
  }

  /** `update_bier_encap_entry` meets the order-free description: whichever
      domain the set happens to list last, the switch keeps one rule per active
      address, carrying its header in one of its domains, with keys unique. */
  lemma EncapInstalledAnyOrder(k: Style, m: E.Manager, s: TM.Store, gm: GM.Store, switch: string)
    requires TableOf(k) in m.tables && E.UniqueKeys(m.tables[TableOf(k)])
    requires forall a :: GM.Active(gm, a) ==> Encodable(s, gm, a)
    ensures var r := UpdateBierEncapEntry(k, m, s, gm, switch);
      && r.2.None? && TableOf(k) in r.0.tables && E.UniqueKeys(r.0.tables[TableOf(k)])
      && AnyOrderInstalled(k, s, gm, switch, r.0.tables[TableOf(k)])
  {
    EncapInstalled(k, m, s, gm, switch);
    FinalsAnyOrder(k, s, gm, switch, UpdateBierEncapEntry(k, m, s, gm, switch).0.tables[TableOf(k)]);
  }

  /** One switch's encap update on a table with unique keys leaves other
      switches' rules as they were, and keeps keys unique when it succeeds. */
  lemma EncapOthers(k: Style, m: E.Manager, s: TM.Store, gm: GM.Store, switch: string)
    ensures TableOf(k) in m.tables && E.UniqueKeys(m.tables[TableOf(k)]) ==> var r := UpdateBierEncapEntry(k, m, s, gm, switch);
      && TableOf(k) in r.0.tables
      && (forall x: E.Entry :: x.switch != switch ==> (x in r.0.tables[TableOf(k)] <==> x in m.tables[TableOf(k)]))
      && (r.2.None? ==> E.UniqueKeys(r.0.tables[TableOf(k)]))
  {
    if TableOf(k) in m.tables && E.UniqueKeys(m.tables[TableOf(k)]) {
      var g := EncapOver(k, s, gm, switch, GM.GetMcAddresses(gm));
      E.SyncOtherSwitches(m, TableOf(k), switch, g.entries, g.failure);
      if g.failure.None? {
        E.SyncExact(m, TableOf(k), switch, g.entries);
      }
    }
  }

  /** `update_bier_encap_entry` for each listed switch in turn, up to the first
      exception. */
  function EncapFor(k: Style, m: E.Manager, s: TM.Store, gm: GM.Store, switches: seq<string>): (r: (E.Manager, seq<E.DriverOp>, Option<Error>))
    ensures TableOf(k) in m.tables && E.UniqueKeys(m.tables[TableOf(k)]) ==> (TableOf(k) in r.0.tables
      && forall x: E.Entry :: x.switch !in switches ==> (x in r.0.tables[TableOf(k)] <==> x in m.tables[TableOf(k)]))
    decreases |switches|
  {
    if switches == [] then (m, [], None)
    else
      var (m1, ops1, err) := UpdateBierEncapEntry(k, m, s, gm, switches[0]);
      EncapOthers(k, m, s, gm, switches[0]);
      if err.Some? then (m1, ops1, err)
      else
        var (m2, ops2, err2) := EncapFor(k, m1, s, gm, switches[1..]);
        (m2, ops1 + ops2, err2)
  }

  /** `update_based_on_group`, the handler of group changes: the encap rules of
      the ingress switches only. Rules of any other switch are left as they
      were. */
  function UpdateBasedOnGroup(k: Style, m: E.Manager, s: TM.Store, gm: GM.Store, cfg: seq<C.SwitchConfig>): (r: (E.Manager, seq<E.DriverOp>, Option<Error>))
    ensures TableOf(k) in m.tables && E.UniqueKeys(m.tables[TableOf(k)]) ==> (TableOf(k) in r.0.tables
      && forall x: E.Entry :: (forall c :: c in cfg && c.ingress ==> c.name != x.switch) ==>
        (x in r.0.tables[TableOf(k)] <==> x in m.tables[TableOf(k)]))
  {
    EncapFor(k, m, s, gm, C.IngressNames(cfg))
  }
}
