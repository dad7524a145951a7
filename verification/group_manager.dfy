/** The controller's multicast membership store (`GroupManager`):
    switch -> multicast address -> subscribed hosts, fed by IGMP reports. */
module GroupManager {
  import opened Wrappers
  import opened Seqs
  import TM = TopologyManager

  /** One `mc_addr: [members]` entry. */
  datatype GroupEntry = GroupEntry(group: string, members: seq<string>)

  /** One `switch: {mc_addr: [members]}` entry. */
  datatype SwitchGroups = SwitchGroups(switch: string, groups: seq<GroupEntry>)

  /** The nested dictionary in insertion order. */
  type Store = seq<SwitchGroups>

  function GroupNames(gs: seq<GroupEntry>): (r: seq<string>)
    ensures |r| == |gs| && forall i :: 0 <= i < |gs| ==> r[i] == gs[i].group
  {
    if gs == [] then [] else [gs[0].group] + GroupNames(gs[1..])
  }

  function Switches(st: Store): (r: seq<string>)
    ensures |r| == |st| && forall i :: 0 <= i < |st| ==> r[i] == st[i].switch
  {
    if st == [] then [] else [st[0].switch] + Switches(st[1..])
  }

  /** Keys unique at both levels, members listed once. */
  predicate Valid(st: Store) {
    NoDuplicates(Switches(st)) && forall i :: 0 <= i < |st| ==> GroupsValid(st[i].groups)
  }

  predicate GroupsValid(gs: seq<GroupEntry>) {
    NoDuplicates(GroupNames(gs)) && forall j :: 0 <= j < |gs| ==> NoDuplicates(gs[j].members)
  }

  /** `group_to_member.get(switch, {})` */
  function GroupsOf(st: Store, sw: string): seq<GroupEntry> {
    if st == [] then []
    else if st[0].switch == sw then st[0].groups
    else GroupsOf(st[1..], sw)
  }

  /** `groups.get(group, [])` */
  function MembersIn(gs: seq<GroupEntry>, g: string): seq<string> {
    if gs == [] then []
    else if gs[0].group == g then gs[0].members
    else MembersIn(gs[1..], g)
  }

  /** `group_to_member.get(switch, {}).get(group, [])` */
  function Members(st: Store, sw: string, g: string): seq<string> {
    MembersIn(GroupsOf(st, sw), g)
  }

  /** `groups[group] = members`, adding the key when missing. */
  function SetGroup(gs: seq<GroupEntry>, g: string, ms: seq<string>): (r: seq<GroupEntry>)
    ensures MembersIn(r, g) == ms
    ensures forall h :: h != g ==> MembersIn(r, h) == MembersIn(gs, h)
  {
    if gs == [] then [GroupEntry(g, ms)]
    else if gs[0].group == g then [GroupEntry(g, ms)] + gs[1..]
    else [gs[0]] + SetGroup(gs[1..], g, ms)
  }

  /** `SetGroup` adds the key if missing and leaves the key list alone otherwise. */
  lemma {:induction false} SetGroupKeys(gs: seq<GroupEntry>, g: string, ms: seq<string>)
    ensures forall h :: h in GroupNames(SetGroup(gs, g, ms)) <==> h in GroupNames(gs) || h == g
    ensures g in GroupNames(gs) ==> GroupNames(SetGroup(gs, g, ms)) == GroupNames(gs)
    ensures g !in GroupNames(gs) ==> GroupNames(SetGroup(gs, g, ms)) == GroupNames(gs) + [g]
  {
    if gs != [] && gs[0].group != g {
      SetGroupKeys(gs[1..], g, ms);
      assert GroupNames(gs) == [gs[0].group] + GroupNames(gs[1..]);
      assert GroupNames(SetGroup(gs, g, ms)) == [gs[0].group] + GroupNames(SetGroup(gs[1..], g, ms));
    } else if gs != [] {
      assert GroupNames(gs) == [g] + GroupNames(gs[1..]);
      assert GroupNames(SetGroup(gs, g, ms)) == [g] + GroupNames(gs[1..]);
    }
  }

  /** `SetGroup` keeps every member list duplicate-free. */
  lemma {:induction false} SetGroupMembers(gs: seq<GroupEntry>, g: string, ms: seq<string>)
    requires forall j :: 0 <= j < |gs| ==> NoDuplicates(gs[j].members)
    requires NoDuplicates(ms)
    ensures forall j :: 0 <= j < |SetGroup(gs, g, ms)| ==> NoDuplicates(SetGroup(gs, g, ms)[j].members)
  {
    if gs != [] && gs[0].group != g {
      SetGroupMembers(gs[1..], g, ms);
      var r := SetGroup(gs, g, ms);
      assert forall j :: 1 <= j < |r| ==> r[j] == SetGroup(gs[1..], g, ms)[j - 1];
    }
  }

  /** `group_to_member[switch][group] = members`, adding missing keys. */
  function SetMembers(st: Store, sw: string, g: string, ms: seq<string>): (r: Store)
    ensures Members(r, sw, g) == ms
    ensures forall s, h :: (s, h) != (sw, g) ==> Members(r, s, h) == Members(st, s, h)
    ensures forall s :: s != sw ==> GroupsOf(r, s) == GroupsOf(st, s)
    ensures GroupsOf(r, sw) == SetGroup(GroupsOf(st, sw), g, ms)
  {
    if st == [] then [SwitchGroups(sw, SetGroup([], g, ms))]
    else if st[0].switch == sw then [st[0].(groups := SetGroup(st[0].groups, g, ms))] + st[1..]
    else [st[0]] + SetMembers(st[1..], sw, g, ms)
  }

  /** `SetMembers` adds the switch key if missing and leaves the key list alone otherwise. */
  lemma {:induction false} SetMembersSwitches(st: Store, sw: string, g: string, ms: seq<string>)
    ensures sw in Switches(st) ==> Switches(SetMembers(st, sw, g, ms)) == Switches(st)
    ensures sw !in Switches(st) ==> Switches(SetMembers(st, sw, g, ms)) == Switches(st) + [sw]
  {
    if st != [] && st[0].switch != sw {
      SetMembersSwitches(st[1..], sw, g, ms);
      assert Switches(st) == [st[0].switch] + Switches(st[1..]);
      assert Switches(SetMembers(st, sw, g, ms)) == [st[0].switch] + Switches(SetMembers(st[1..], sw, g, ms));
    } else if st != [] {
      assert Switches(st) == [sw] + Switches(st[1..]);
      assert Switches(SetMembers(st, sw, g, ms)) == [sw] + Switches(st[1..]);
    }
  }

  /** `SetMembers` with a duplicate-free list keeps every switch entry valid. */
  lemma {:induction false} SetMembersGroupsValid(st: Store, sw: string, g: string, ms: seq<string>)
    requires forall i :: 0 <= i < |st| ==> GroupsValid(st[i].groups)
    requires NoDuplicates(ms)
    ensures forall i :: 0 <= i < |SetMembers(st, sw, g, ms)| ==> GroupsValid(SetMembers(st, sw, g, ms)[i].groups)
  {
    var r := SetMembers(st, sw, g, ms);
    if st == [] {
      assert GroupsValid([]);
      SetGroupValid([], g, ms);
    } else if st[0].switch == sw {
      SetGroupValid(st[0].groups, g, ms);
      forall i | 1 <= i < |r| ensures GroupsValid(r[i].groups) {
        assert r[i] == st[i];
      }
    } else {
      SetMembersGroupsValid(st[1..], sw, g, ms);
      var t := SetMembers(st[1..], sw, g, ms);
      forall i | 1 <= i < |r| ensures GroupsValid(r[i].groups) {
        assert r[i] == t[i - 1];
      }
    }
  }

  /** `SetGroup` with a duplicate-free list keeps a switch entry valid. */
  lemma SetGroupValid(gs: seq<GroupEntry>, g: string, ms: seq<string>)
    requires GroupsValid(gs) && NoDuplicates(ms)
    ensures GroupsValid(SetGroup(gs, g, ms))
  {
    SetGroupKeys(gs, g, ms);
    SetGroupMembers(gs, g, ms);
  }

  /** `SetMembers` with a duplicate-free list keeps the store valid. */
  lemma SetMembersValid(st: Store, sw: string, g: string, ms: seq<string>)
    requires Valid(st) && NoDuplicates(ms)
    ensures Valid(SetMembers(st, sw, g, ms))
  {
    SetMembersSwitches(st, sw, g, ms);
    SetMembersGroupsValid(st, sw, g, ms);
  }

  /** The group keys of the switch after `SetMembers`. */
  lemma SetMembersGroupNames(st: Store, sw: string, g: string, ms: seq<string>)
    ensures forall h :: h in GroupNames(GroupsOf(SetMembers(st, sw, g, ms), sw)) <==> h in GroupNames(GroupsOf(st, sw)) || h == g
    ensures g in GroupNames(GroupsOf(st, sw)) ==> GroupNames(GroupsOf(SetMembers(st, sw, g, ms), sw)) == GroupNames(GroupsOf(st, sw))
  {
    SetGroupKeys(GroupsOf(st, sw), g, ms);
  }

  /** `add_to_group`: appends the member unless it is listed already, creating the
      switch and group keys on the way. */
  function AddToGroup(st: Store, sw: string, member: string, g: string): (r: Store)
    ensures member in Members(st, sw, g) ==> r == st
    ensures member !in Members(st, sw, g) ==> Members(r, sw, g) == Members(st, sw, g) + [member]
    ensures forall s, h :: (s, h) != (sw, g) ==> Members(r, s, h) == Members(st, s, h)
    ensures sw in Switches(r) && g in GroupNames(GroupsOf(r, sw))
    ensures Valid(st) ==> Valid(r)
  {
    var ms := Members(st, sw, g);
    if member in ms then
      MembersListed(st, sw, g);
      st
    else
      AppendKeepsNoDuplicates(st, sw, g, member);
      SetMembersSwitches(st, sw, g, ms + [member]);
      assert Valid(st) ==> Valid(SetMembers(st, sw, g, ms + [member])) by {
        if Valid(st) {
          SetMembersValid(st, sw, g, ms + [member]);
        }
      }
      SetMembersGroupNames(st, sw, g, ms + [member]);
      SetMembers(st, sw, g, ms + [member])
  }

  lemma AppendKeepsNoDuplicates(st: Store, sw: string, g: string, member: string)
    requires member !in Members(st, sw, g)
    ensures Valid(st) ==> NoDuplicates(Members(st, sw, g) + [member])
  {
    if Valid(st) {
      MembersNoDuplicates(st, sw, g);
    }
  }

  /** A non-empty member list sits under existing keys. */
  lemma {:induction false} MembersListed(st: Store, sw: string, g: string)
    requires Members(st, sw, g) != []
    ensures sw in Switches(st) && g in GroupNames(GroupsOf(st, sw))
  {
    if st[0].switch != sw {
      MembersListed(st[1..], sw, g);
    } else {
      MembersInListed(st[0].groups, g);
    }
  }

  lemma {:induction false} MembersInListed(gs: seq<GroupEntry>, g: string)
    requires MembersIn(gs, g) != []
    ensures g in GroupNames(gs)
  {
    if gs[0].group != g {
      MembersInListed(gs[1..], g);
    }
  }

  /** In a valid store every member list is duplicate-free. */
  lemma {:induction false} MembersNoDuplicates(st: Store, sw: string, g: string)
    requires Valid(st)
    ensures NoDuplicates(Members(st, sw, g))
  {
    if st != [] && st[0].switch != sw {
      assert Switches(st) == [st[0].switch] + Switches(st[1..]);
      MembersNoDuplicates(st[1..], sw, g);
    } else if st != [] {
      MembersInNoDuplicates(st[0].groups, g);
    }
  }

  lemma {:induction false} MembersInNoDuplicates(gs: seq<GroupEntry>, g: string)
    requires forall j :: 0 <= j < |gs| ==> NoDuplicates(gs[j].members)
    ensures NoDuplicates(MembersIn(gs, g))
  {
    if gs != [] && gs[0].group != g {
      MembersInNoDuplicates(gs[1..], g);
    }
  }

  /** `remove_from_group`: removes the first occurrence of the member. A member that
      is not listed raises ValueError, which the source logs and swallows: the store
      is unchanged and the flag of the result says an error was logged. */
  function RemoveFromGroup(st: Store, sw: string, member: string, g: string): (r: (Store, bool))
    ensures member !in Members(st, sw, g) ==> r == (st, true)
    ensures member in Members(st, sw, g) ==> !r.1 && Members(r.0, sw, g) == RemoveFirst(Members(st, sw, g), member)
    ensures forall s, h :: (s, h) != (sw, g) ==> Members(r.0, s, h) == Members(st, s, h)
    ensures Switches(r.0) == Switches(st)
    ensures forall s :: GroupNames(GroupsOf(r.0, s)) == GroupNames(GroupsOf(st, s))
    ensures Valid(st) ==> Valid(r.0)
  {
    var ms := Members(st, sw, g);
    if member !in ms then (st, true)
    else
      MembersListed(st, sw, g);
      assert Valid(st) ==> NoDuplicates(RemoveFirst(ms, member)) by {
        if Valid(st) {
          MembersNoDuplicates(st, sw, g);
        }
      }
      SetMembersSwitches(st, sw, g, RemoveFirst(ms, member));
      assert Valid(st) ==> Valid(SetMembers(st, sw, g, RemoveFirst(ms, member))) by {
        if Valid(st) {
          SetMembersValid(st, sw, g, RemoveFirst(ms, member));
        }
      }
      SetMembersGroupNames(st, sw, g, RemoveFirst(ms, member));
      (SetMembers(st, sw, g, RemoveFirst(ms, member)), false)
  }

  /** Joining with a fresh member and leaving again restores every member list. */
  lemma JoinThenLeave(st: Store, sw: string, member: string, g: string)
    requires member !in Members(st, sw, g)
    ensures var back := RemoveFromGroup(AddToGroup(st, sw, member, g), sw, member, g);
      !back.1 && forall s, h :: Members(back.0, s, h) == Members(st, s, h)
  {
    var added := AddToGroup(st, sw, member, g);
    RemoveAppended(Members(st, sw, g), member);
  }

  /** Adding the same member twice is the same as adding it once. */
  lemma AddToGroupIdempotent(st: Store, sw: string, member: string, g: string)
    ensures AddToGroup(AddToGroup(st, sw, member, g), sw, member, g) == AddToGroup(st, sw, member, g)
  {
  }

  /** `get_bfr_by_mc_addr`: the switches with a non-empty member list for the
      address, each once. */
  function GetBfrByMcAddr(st: Store, mc: string): (r: seq<string>)
    ensures NoDuplicates(r)
    ensures forall s :: s in r <==> s in Switches(st) && Members(st, s, mc) != []
  {
    Dedup(SubscribedAmong(st, Switches(st), mc))
  }

  function SubscribedAmong(st: Store, sws: seq<string>, mc: string): (r: seq<string>)
    ensures forall s :: s in r <==> s in sws && Members(st, s, mc) != []
  {
    if sws == [] then []
    else
      assert forall s :: s in sws <==> s == sws[0] || s in sws[1..];
      (if Members(st, sws[0], mc) != [] then [sws[0]] else []) + SubscribedAmong(st, sws[1..], mc)
  }

  /** `get_mc_addresses_for_switch`: the switch's addresses with members. */
  function GetMcAddressesForSwitch(st: Store, sw: string): (r: seq<string>)
    ensures forall a :: a in r <==> a in GroupNames(GroupsOf(st, sw)) && Members(st, sw, a) != []
  {
    ActiveAmong(st, sw, GroupNames(GroupsOf(st, sw)))
  }

  function ActiveAmong(st: Store, sw: string, gs: seq<string>): (r: seq<string>)
    ensures forall a :: a in r <==> a in gs && Members(st, sw, a) != []
  {
    if gs == [] then []
    else
      assert forall a :: a in gs <==> a == gs[0] || a in gs[1..];
      (if Members(st, sw, gs[0]) != [] then [gs[0]] else []) + ActiveAmong(st, sw, gs[1..])
  }

  /** An address is active when some switch lists a member for it. */
  ghost predicate Active(st: Store, a: string) {
    exists s :: s in Switches(st) && a in GroupNames(GroupsOf(st, s)) && Members(st, s, a) != []
  }

  /** An address is known when some switch has a key for it, members or not. */
  ghost predicate Known(st: Store, a: string) {
    exists s :: s in Switches(st) && a in GroupNames(GroupsOf(st, s))
  }

  /** `get_mc_addresses`: the active addresses, each once. */
  function GetMcAddresses(st: Store): (r: seq<string>)
    ensures NoDuplicates(r)
    ensures forall a :: a in r <==> Active(st, a)
  {
    Dedup(ActiveOver(st, Switches(st)))
  }

  function ActiveOver(st: Store, sws: seq<string>): (r: seq<string>)
    ensures forall a :: a in r <==> exists s :: s in sws && a in GroupNames(GroupsOf(st, s)) && Members(st, s, a) != []
  {
    if sws == [] then []
    else
      assert forall s :: s in sws <==> s == sws[0] || s in sws[1..];
      GetMcAddressesForSwitch(st, sws[0]) + ActiveOver(st, sws[1..])
  }

  /** `get_all_mc_addresses`: every address with a key, including those whose
      member list has become empty, each once. */
  function GetAllMcAddresses(st: Store): (r: seq<string>)
    ensures NoDuplicates(r)
    ensures forall a :: a in r <==> Known(st, a)
  {
    Dedup(KnownOver(st, Switches(st)))
  }

  function KnownOver(st: Store, sws: seq<string>): (r: seq<string>)
    ensures forall a :: a in r <==> exists s :: s in sws && a in GroupNames(GroupsOf(st, s))
  {
    if sws == [] then []
    else
      var rest := KnownOver(st, sws[1..]);
      var r := GroupNames(GroupsOf(st, sws[0])) + rest;
      assert forall a :: a in r <==> exists s :: s in sws && a in GroupNames(GroupsOf(st, s)) by {
        forall a ensures a in r <==> exists s :: s in sws && a in GroupNames(GroupsOf(st, s)) {
          if a in GroupNames(GroupsOf(st, sws[0])) {
            assert sws[0] in sws;
          }
          if exists s :: s in sws && a in GroupNames(GroupsOf(st, s)) {
            var s :| s in sws && a in GroupNames(GroupsOf(st, s));
            if s != sws[0] {
              assert s in sws[1..];
            }
          }
        }
      }
      r
  }

  /** Every active address is known, and leaving keeps the address known. */
  lemma ActiveIsKnown(st: Store, sw: string, member: string, a: string)
    ensures Active(st, a) ==> Known(st, a)
    ensures Known(st, a) ==> Known(RemoveFromGroup(st, sw, member, a).0, a)
  {
    if Known(st, a) {
      var s :| s in Switches(st) && a in GroupNames(GroupsOf(st, s));
      var r := RemoveFromGroup(st, sw, member, a).0;
      assert s in Switches(r) && a in GroupNames(GroupsOf(r, s));
    }
  }

  /** `get_domains_for_mc_addr`: domain 0 plus the domains of every subscribed
      switch, each once; a subscribed switch missing from the registry raises
      DeviceNotFound. */
  function GetDomainsForMcAddr(tm: TM.Store, st: Store, mc: string): (r: Result<seq<int>>)
    ensures r.Ok? <==> forall b :: b in GetBfrByMcAddr(st, mc) ==> TM.ExistsDevice(tm, b)
    ensures r.Err? ==> r.error == DeviceNotFound
    ensures r.Ok? ==> NoDuplicates(r.value) && 0 in r.value
    ensures r.Ok? ==> forall d :: d in r.value <==> (d == 0 ||
      exists b :: b in GetBfrByMcAddr(st, mc) && d in TM.GetDomainForDevice(tm, b).value)
  {
    var ds :- DomainsOf(tm, GetBfrByMcAddr(st, mc));
    Ok(Dedup([0] + ds))
  }

  function DomainsOf(tm: TM.Store, bfrs: seq<string>): (r: Result<seq<int>>)
    ensures r.Ok? <==> forall b :: b in bfrs ==> TM.ExistsDevice(tm, b)
    ensures r.Err? ==> r.error == DeviceNotFound
    ensures r.Ok? ==> forall d :: d in r.value <==>
      exists b :: b in bfrs && d in TM.GetDomainForDevice(tm, b).value
  {
    if bfrs == [] then Ok([])
    else
      assert forall b :: b in bfrs <==> b == bfrs[0] || b in bfrs[1..];
      var first :- TM.GetDomainForDevice(tm, bfrs[0]);
      var rest :- DomainsOf(tm, bfrs[1..]);
      Ok(first + rest)
  }

  /** An IGMP report as the local controller forwards it. */
  datatype IgmpReport = IgmpReport(switch: string, mcAddress: string, srcIp: string, kind: int)

  const MembershipReport := 0x16
  const LeaveGroup := 0x17

  /** `handle_packet_in`: a membership report (0x16) adds the source, a leave (0x17)
      removes it, any other type changes nothing; group_update fires in every case.
      Result: new store, whether a removal error was logged, events fired. */
  function HandlePacketIn(st: Store, pkt: IgmpReport): (r: (Store, bool, seq<string>))
    ensures r.2 == ["group_update"]
    ensures pkt.kind == MembershipReport ==> r.0 == AddToGroup(st, pkt.switch, pkt.srcIp, pkt.mcAddress) && !r.1
    ensures pkt.kind == LeaveGroup ==> (r.0, r.1) == RemoveFromGroup(st, pkt.switch, pkt.srcIp, pkt.mcAddress)
    ensures pkt.kind != MembershipReport && pkt.kind != LeaveGroup ==> r.0 == st && !r.1
    ensures Valid(st) ==> Valid(r.0)
  {
    if pkt.kind == MembershipReport then
      (AddToGroup(st, pkt.switch, pkt.srcIp, pkt.mcAddress), false, ["group_update"])
    else if pkt.kind == LeaveGroup then
      var (s, logged) := RemoveFromGroup(st, pkt.switch, pkt.srcIp, pkt.mcAddress);
      (s, logged, ["group_update"])
    else (st, false, ["group_update"])
  }

  /** After a report the source is a member; after a leave it is not (in a valid
      store), and other lists are untouched either way. */
  lemma ReportThenMember(st: Store, pkt: IgmpReport)
    requires Valid(st)
    ensures pkt.kind == MembershipReport ==> pkt.srcIp in Members(HandlePacketIn(st, pkt).0, pkt.switch, pkt.mcAddress)
    ensures pkt.kind == LeaveGroup ==> pkt.srcIp !in Members(HandlePacketIn(st, pkt).0, pkt.switch, pkt.mcAddress)
  {
    MembersNoDuplicates(st, pkt.switch, pkt.mcAddress);
  }
}
