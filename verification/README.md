# A verified model of the p4-bier control plane

This project models, in Dafny, the control-plane core of the p4-bier system. p4-bier is a controller for BIER (Bit Index Explicit Replication, RFC 8279) multicast on P4 switches. The model covers four parts:

- **BIER computation.** The Bit Index Routing Table (BIRT) and Bit Index Forwarding Table (BIFT) follow sections 6.3 and 6.4 of RFC 8279. Forwarding bit masks (FBMs) and the ingress BitString of a multicast group are computed here.
- **Rule generation.** The BIER controller generates the primary, link-protection, node-protection and decapsulation rules. The other rule producers are modelled too:
  - IPv4 forwarding and encapsulation;
  - tunnel encapsulation and decapsulation;
  - on the local controller, the port-status, MAC-rewrite and native multicast rules.
- **Topology.** This covers:
  - the device registry, with neighbour-to-port maps and per-domain BFR-ids;
  - per-domain graphs with link numbering;
  - next-hop lookup over a shortest-path table;
  - the handlers for topology packets and port-status changes.
- **Membership and reconciliation.** The global multicast membership store and the local IGMP bookkeeping are both modelled. So are the two table-entry managers, which reconcile computed rules with installed ones. The synchronous `Event` registry that connects the parts is modelled in its three copies: controller, local controller and host shell.

Conventions of the model:

- Every Python exception the core raises is a `Result` error (`Wrappers.Error`). A loop that raises part-way keeps the effects it made before raising, as the source does.
- Dictionaries whose iteration order matters are insertion-ordered association lists with unique keys. This applies to the neighbour-to-port map, the BIRT and BIFT, the membership store, path rows and `mcgrp_to_port`. The source runs on Python 2, where dictionaries and sets iterate in hash order; the model fixes insertion order for dictionaries and first-occurrence order for `list(set(...))` (see "## Left out").
- Bit strings are unbounded naturals, as Python integers are. BFR-id k owns bit k-1.
- The switch driver is not called. A table manager returns its new state together with the list of `Add`/`Delete` calls it would make.
- The shortest-path routine of the graph library is a parameter `sp`. Properties that need it to be correct assume `Topology.IsShortestPathTable`.
- Every controller is split in two:
  - a pure generator, which computes the desired entries and, when the source raises part-way, the error;
  - one shared pass that hands the entries to the manager and then purges stale ones. The pass is `TableEntryManager.Sync` on the controller and `LocalTableEntryManager.Sync` on the local controller. The local pass keeps the defect of the local purge described under Findings.

  This split is equivalent to the source's interleaving of computing and handling, because the computation never reads the tables.

## Model

| member | source | states |
|---|---|---|
| Devices.Bind | Local-Controller/libs/core/Device.py:31-32 | after binding, the neighbour maps to the new port and every other neighbour keeps its port |
| Devices.BindKeys | Local-Controller/libs/core/Device.py:31-32 | binding adds exactly the neighbour to the key set and keeps the keys unique |
| Devices.AddDeviceToPort | Local-Controller/libs/core/Device.py:23-36 | reports a change exactly when the stored port (or -1 if unbound) differs from the new one; only then is the map rebound, otherwise it is unchanged |
| Devices.GetDeviceToPort | Local-Controller/libs/core/Device.py:53-64 | succeeds exactly for a bound neighbour and returns its binding; an unbound neighbour raises DeviceNotFound |
| Devices.FindSome | Local-Controller/libs/core/Device.py:59 | a lookup succeeds exactly for a key of the map, and the answer is one of its bindings |
| Devices.FirstWithPort | Local-Controller/libs/core/Device.py:45-49 | the index found is the first binding that uses the port; no index means no binding uses it |
| Devices.NeighbourByPort | Controller-Implementation/libs/TopologyManager.py:29-32 | a neighbour is found exactly when some binding uses the port, and it is bound to that port |
| Devices.RemovePort | Local-Controller/libs/core/Device.py:38-51 | succeeds exactly when some binding uses the port and then removes the first such binding; otherwise the pop of `None` raises KeyError |
| Devices.RemovePortUnbindsOne | Local-Controller/libs/core/Device.py:38-51 | with unique keys, removing a port unbinds exactly the neighbour behind it, keeps all other bindings and shrinks the map by one |
| Devices.AddThenGet | Local-Controller/libs/core/Device.py:23-64 | after `add_device_to_port(n, p)`, `get_device_to_port(n)` answers p, except in the one case where p is -1 and n was unbound (then it raises DeviceNotFound) |
| Devices.AddTwiceUnchanged | Local-Controller/libs/core/Device.py:31-36 | repeating the same binding reports no change and leaves the map as it is |
| Devices.NewSwitch | Controller-Implementation/libs/core/Switch.py:9-18 | a fresh switch has no neighbours and maps only domain 0 to the given BFR-id; every other domain answers -1 |
| Devices.NewHost | Local-Controller/libs/core/Device.py:10-21 | a fresh host has its name and ip and no neighbours |
| Devices.GetBfrId | Controller-Implementation/libs/core/Switch.py:20-26 | a switch answers its mapped id in the domain, and -1 exactly when the domain has no id |
| Devices.SetBfrId | Controller-Implementation/libs/core/Switch.py:28-35 | a switch answers the new id in that domain; every other domain keeps its id, and name, ip and neighbours are unchanged |
| Devices.ResetBfrMapping | Controller-Implementation/libs/core/Switch.py:44-50 | only the domain-0 id survives; every other domain answers -1 |
| Topology.AddGraphNode | Controller-Implementation/libs/Topology.py:41 | the node set gains exactly the node, edges are unchanged, and a well-formed graph stays well formed |
| Topology.AddGraphEdge | Controller-Implementation/libs/Topology.py:27-28 | the graph gains exactly the edge and its endpoints and stays well formed |
| Topology.NewTopology | Controller-Implementation/libs/Topology.py:8-18 | a new topology is empty, keeps its id, starts its counter at 0 and is valid |
| Topology.AddEdge | Controller-Implementation/libs/Topology.py:20-33 | a known edge changes nothing; a new edge enters the graph; a new switch-to-switch edge also takes the next link number; an edge touching a host leaves the switch graph and link numbers alone |
| Topology.AddSwitchEdgeLinks | Controller-Implementation/libs/Topology.py:31-33 | numbering a new switch edge keeps link numbers consistent with the switch graph |
| Topology.AddNode | Controller-Implementation/libs/Topology.py:35-47 | every node enters the full graph; it enters the switch graph exactly when its name is a configured switch; validity is preserved |
| Topology.IncomingAdjacencies | Controller-Implementation/libs/Topology.py:92-102 | the result lists exactly the names "a-n" of the switch-graph edges a->n |
| Topology.IncomingOf | Controller-Implementation/libs/Topology.py:98-102 | the loop collects exactly the names of the edges that end at the node, and no more names than edges |
| Topology.IncrementLastId | Controller-Implementation/libs/Topology.py:111-112 | the counter goes up by one and nothing else changes |
| Topology.ResetLastId | Controller-Implementation/libs/Topology.py:114-115 | the counter returns to 0 and nothing else changes |
| Topology.AddEdgeIdempotent | Controller-Implementation/libs/Topology.py:27 | adding the same edge twice equals adding it once |
| Topology.LinkNumbersInDiscoveryOrder | Controller-Implementation/libs/Topology.py:17-33 | in a fresh topology the k-th distinct switch-to-switch edge gets link number k, and the next number is one past the count |
| Topology.LinkNumbersStep | Controller-Implementation/libs/Topology.py:31-33 | a new switch-to-switch edge with a fresh link name takes the next number and every earlier edge keeps its number |
| Topology.AddEdges | Controller-Implementation/libs/Topology.py:27-28 | after adding a list of edges in order, the graph holds exactly the old edges and the listed ones, and the topology keeps its id and counter |
| Topology.RouteTo | Controller-Implementation/libs/TopologyManager.py:161-162 | the lookup of a destination in a row of the shortest-path table finds nothing only when no route in the row has that destination |
| Topology.RouteToIn | Controller-Implementation/libs/Topology.py:70-75 | a path found in a row of the shortest-path table is one of the row's entries |
| Topology.NextHopOnPath | Controller-Implementation/libs/Topology.py:70-75 | when a path joins two different nodes, the table has a route between them whose second node is a neighbour of the start |
| Topology.RouteIsPath | Controller-Implementation/libs/Topology.py:70-75 | every route in the table is a walk from its source to its destination |
| Topology.SelfPathIsSingleton | Controller-Implementation/libs/Topology.py:70-75 | the shortest path from a node to itself is the one-node path |
| Topology.PathToOtherHasNextHop | Controller-Implementation/libs/Topology.py:70-75 | a route to a different node has at least two nodes, and its first hop is an edge |
| Topology.ReachableHasRoute | Controller-Implementation/libs/Topology.py:70-75 | every walk in the graph has a route in the table from its first node to its last |
| TopologyManager.FirstNamed | Controller-Implementation/libs/TopologyManager.py:73-75 | the index found is the first entry with the name; no index means no entry has it |
| TopologyManager.FirstWithIp | Controller-Implementation/libs/TopologyManager.py:86-90 | the index found is the first entry whose device has the ip; no index means none has it |
| TopologyManager.FirstDomain | Controller-Implementation/libs/TopologyManager.py:122-124 | the index found is the first domain with the id; no index means none has it |
| TopologyManager.ExistsDevice | Controller-Implementation/libs/TopologyManager.py:39-50 | true exactly when some entry carries the name; the same member models Local-Controller/libs/TopologyManager.py:10-21: the local registry's check: true exactly when some entry carries the name |
| TopologyManager.AddDevice | Controller-Implementation/libs/TopologyManager.py:52-64 | an unknown name is appended with domain list [domain] and a known name changes nothing; total equals the number of entries; other lookups are unchanged and validity is kept; the same member models Local-Controller/libs/TopologyManager.py:23-35: the local registry's add: append unless the name is known, and recount total |
| TopologyManager.FirstNamedAppend | Controller-Implementation/libs/TopologyManager.py:61-62 | appending an entry with another name does not move the first entry of a name |
| TopologyManager.GetDevice | Controller-Implementation/libs/TopologyManager.py:66-77 | succeeds exactly for a registered name and returns that entry's device; otherwise raises DeviceNotFound; the same member models Local-Controller/libs/TopologyManager.py:37-48: the local registry's lookup by name, or DeviceNotFound |
| TopologyManager.GetDeviceByIp | Controller-Implementation/libs/TopologyManager.py:79-92 | succeeds exactly when some device has the ip and returns a device with that ip; otherwise raises DeviceNotFound; the same member models Local-Controller/libs/TopologyManager.py:50-63: the local registry's lookup by ip, or DeviceNotFound |
| TopologyManager.GetDomainForDevice | Controller-Implementation/libs/TopologyManager.py:102-113 | succeeds exactly for a registered name and returns that entry's domain list; otherwise raises DeviceNotFound |
| TopologyManager.GetDomain | Controller-Implementation/libs/TopologyManager.py:115-126 | succeeds exactly when a domain has the id and returns it; otherwise raises DomainNotFound |
| TopologyManager.GetTopology | Controller-Implementation/libs/TopologyManager.py:169-180 | succeeds exactly when a domain has the id and returns its topology; otherwise raises DomainNotFound |
| TopologyManager.GetTunnelNode | Controller-Implementation/libs/TopologyManager.py:136-145 | the tunnel node of the domain, or DomainNotFound |
| TopologyManager.GetNextHop | Controller-Implementation/libs/TopologyManager.py:147-167 | an unknown domain raises DomainNotFound; a success is the registered device at position 1 of a shortest path of at least two nodes; otherwise NextHopNotFound or DeviceNotFound |
| TopologyManager.LinkToNumber | Controller-Implementation/libs/TopologyManager.py:182-197 | a known link answers its number plus the number of switches in the domain; an unknown link raises LinkNotFound and an unknown domain DomainNotFound |
| TopologyManager.GetDeviceByDomainAndId | Controller-Implementation/libs/TopologyManager.py:199-205 | a success names the first device with the id in the domain, every device before it being a switch with another id; DeviceNotFound exactly when every device is such a switch; reaching a host raises AttributeError; over switches only, it succeeds exactly when some device has the id |
| TopologyManager.DeviceWithId | Controller-Implementation/libs/TopologyManager.py:201-205 | the loop finds the first device with the id in the domain after switches with other ids, raises DeviceNotFound when every device is such a switch, and raises AttributeError only when it reaches a host |
| TopologyManager.DeviceWithIdTail | Controller-Implementation/libs/TopologyManager.py:201-203 | passing over a switch with another id carries the loop's result for the rest over to the whole list |
| TopologyManager.AddDeviceToDomain | Controller-Implementation/libs/TopologyManager.py:207-220 | the first entry with the name gains the domain (once); every other entry and an unknown name are unchanged; domain lists stay free of duplicates |
| TopologyManager.SetTopology | Controller-Implementation/libs/TopologyManager.py:222-235 | the domain then answers the new topology: an existing domain keeps its tunnel node, and a new one is appended with none; other domains are unchanged |
| TopologyManager.FirstDomainPrefix | Controller-Implementation/libs/TopologyManager.py:230-233 | the first match depends only on the entries up to and including it |
| TopologyManager.FirstDomainOther | Controller-Implementation/libs/TopologyManager.py:230-233 | replacing a domain entry in place does not change the lookup of another id |
| TopologyManager.FirstDomainAppend | Controller-Implementation/libs/TopologyManager.py:235 | appending a domain does not change the lookup of another id |
| TopologyManager.BuildDomain | Controller-Implementation/libs/TopologyManager.py:237-260 | succeeds exactly when every neighbour of every device in the domain is registered; the stored topology then holds exactly the domain's devices as nodes and exactly the edges from them to neighbours in the domain; otherwise DeviceNotFound |
| TopologyManager.BuildFrom | Controller-Implementation/libs/TopologyManager.py:246-258 | the device loop adds exactly the domain's devices and their in-domain neighbour edges, and keeps the topology valid |
| TopologyManager.AddNeighbourEdges | Controller-Implementation/libs/TopologyManager.py:255-258 | the neighbour loop adds exactly the edges to neighbours in the domain, or raises DeviceNotFound for an unregistered neighbour |
| TopologyManager.NextHopExists | Controller-Implementation/libs/TopologyManager.py:147-167 | with a correct shortest-path table, a path to another node means get_next_hop succeeds with a graph neighbour of the start |
| TopologyManager.GetPaths | Controller-Implementation/libs/TopologyManager.py:262-271 | on success, the registry keeps the rebuilt domain, and the table returned is the shortest-path table of its graph |
| TopologyManager.GetPathsBuilds | Controller-Implementation/libs/TopologyManager.py:269 | the registry get_paths leaves is the one build_domain produces |
| TopologyManager.GetDeviceOfEntry | Controller-Implementation/libs/TopologyManager.py:66-77 | with unique names, get_device returns the device of any registered entry |
| TopologyManager.UpdateDevice | Controller-Implementation/libs/TopologyManager.py:34-35 | after the update, the name answers the updated device; every other name and all domain lists are unchanged |
| TopologyManager.SameNamesSameFirst | Controller-Implementation/libs/TopologyManager.py:73-75 | lists with the same names find the same first index |
| TopologyManager.ReactToPortChange | Controller-Implementation/libs/TopologyManager.py:18-36 | status 1 and an unused port change nothing; an unknown switch raises DeviceNotFound with no change; topology_change fires only for a port-down on a used port with the `delay` option set; an error is DeviceNotFound, or ConfigurationNotFound when `delay` is unset; no event and no error means no change; validity is kept |
| TopologyManager.ReactRemovesAdjacency | Controller-Implementation/libs/TopologyManager.py:27-36 | for a link known at both ends, a port-down unbinds each end from the other; topology_change fires exactly when `delay` is set, and ConfigurationNotFound is raised otherwise |
| TopologyManager.ReactKeepsFirstRemoval | Controller-Implementation/libs/TopologyManager.py:32-35 | when the neighbour has no binding back, the switch has already lost its binding to the neighbour when DeviceNotFound is raised; the neighbour is unchanged and no event fires |
| TopologyController.HostStep | Controller-Implementation/libs/controller/TopologyController.py:40-42 | a host is registered and its port 1 is bound to the reporting switch; other packets leave the registry unchanged |
| TopologyController.HandleTopologyAnswer | Controller-Implementation/libs/controller/TopologyController.py:22-47 | nothing happens before system setup; an unknown switch raises DeviceNotFound; otherwise the switch binds the device to the port, and topology_change fires exactly when that binding changed |
| TopologyController.AnswerBindsPort | Controller-Implementation/libs/controller/TopologyController.py:46 | after a handled packet, the switch answers the reported port for the device |
| TopologyController.RepeatedPacketNoChange | Controller-Implementation/libs/controller/TopologyController.py:46-47 | the same packet handled a second time triggers no topology_change |
| TableEntryManager.EntryEquals | Controller-Implementation/libs/TableEntryManager.py:42-47 | the field-by-field comparison holds exactly when the two entries are equal |
| TableEntryManager.NewManager | Controller-Implementation/libs/TableEntryManager.py:57-64 | a new manager has no tables and is registered under its name; other names keep their managers |
| TableEntryManager.Get | Controller-Implementation/libs/TableEntryManager.py:188-198 | succeeds exactly for a registered name and returns that manager; otherwise raises TableManagerNotFound |
| TableEntryManager.InitTable | Controller-Implementation/libs/TableEntryManager.py:66-72 | the table then exists and is empty; other tables are untouched |
| TableEntryManager.GetTableEntries | Controller-Implementation/libs/TableEntryManager.py:88-99 | succeeds exactly for an initialised table and returns its list; otherwise raises TableNotFound |
| TableEntryManager.EntriesForSwitch | Controller-Implementation/libs/TableEntryManager.py:101-114 | holds exactly the stored entries of that switch |
| TableEntryManager.KeyIndex | Controller-Implementation/libs/TableEntryManager.py:161-163 | the index found is the first entry with the same switch and match fields; no index means there is none |
| TableEntryManager.MatchFieldsExists | Controller-Implementation/libs/TableEntryManager.py:125-136 | true exactly when an entry of the same switch has the same match fields; an unknown table raises TableNotFound |
| TableEntryManager.EntryExists | Controller-Implementation/libs/TableEntryManager.py:116-123 | true exactly when an identical entry is stored; an unknown table raises TableNotFound |
| TableEntryManager.RemoveKey | Controller-Implementation/libs/TableEntryManager.py:161-163 | drops one entry exactly when the key is stored; it keeps every entry with another key and adds none |
| TableEntryManager.UniqueKeysCons | Controller-Implementation/libs/TableEntryManager.py:10-12 | keys are unique exactly when the head's key does not recur and the tail's keys are unique |
| TableEntryManager.RemoveKeyUnique | Controller-Implementation/libs/TableEntryManager.py:161-163 | on unique keys, removal leaves exactly the entries with another key and keeps keys unique |
| TableEntryManager.AddIn | Controller-Implementation/libs/TableEntryManager.py:81-86 | the entry is appended, and one add is sent to the switch |
| TableEntryManager.RemoveIn | Controller-Implementation/libs/TableEntryManager.py:152-172 | succeeds exactly when an entry with the key is stored: it drops one entry and sends one delete of the entry passed in; otherwise raises EntryNotFound |
| TableEntryManager.UpdateIn | Controller-Implementation/libs/TableEntryManager.py:138-150 | on a stored key, the old entry is removed and the new one appended, with one delete then one add; otherwise raises EntryNotFound |
| TableEntryManager.HandleIn | Controller-Implementation/libs/TableEntryManager.py:200-224 | an identical stored entry writes nothing and reports False; a stored key is updated (delete and add); a new key is added; the entry is stored afterwards and other keys survive |
| TableEntryManager.HandleAll | Controller-Implementation/libs/TableEntryManager.py:200-224 | handling computed entries one by one: an empty list changes nothing, and every driver call writes one of the computed entries, into the table, on that entry's own switch |
| TableEntryManager.AppendFreshKey | Controller-Implementation/libs/TableEntryManager.py:219-220 | appending an entry with a new key keeps keys unique |
| TableEntryManager.AddTableEntry | Controller-Implementation/libs/TableEntryManager.py:74-86 | on an initialised table the entry is appended with one add; otherwise raises TableNotFound |
| TableEntryManager.RemoveTableEntry | Controller-Implementation/libs/TableEntryManager.py:152-172 | an unknown table raises TableNotFound and an unknown key EntryNotFound; otherwise the key is removed with one delete |
| TableEntryManager.UpdateEntry | Controller-Implementation/libs/TableEntryManager.py:138-150 | as remove then add, with the same error cases |
| TableEntryManager.HandleTableEntry | Controller-Implementation/libs/TableEntryManager.py:200-224 | on an initialised table, behaves as the list-level handling and touches only that table; otherwise raises TableNotFound |
| TableEntryManager.HandleIdempotent | Controller-Implementation/libs/TableEntryManager.py:213-224 | handling the same entry twice writes nothing the second time and reports False |
| TableEntryManager.KeepValid | Controller-Implementation/libs/TableEntryManager.py:174-186 | keeps exactly the entries that are not the switch's entries with invalid match fields |
| TableEntryManager.RemoveEach | Controller-Implementation/libs/TableEntryManager.py:182-186 | every driver call is a delete of a snapshot entry with invalid match fields; nothing new is stored; a failure is EntryNotFound |
| TableEntryManager.RemoveInvalidEntries | Controller-Implementation/libs/TableEntryManager.py:174-186 | an unknown table raises TableNotFound; otherwise only that table changes, nothing new is stored, and every delete hits an invalid entry of the switch |
| TableEntryManager.KeepValidSnapshot | Controller-Implementation/libs/TableEntryManager.py:182-186 | dropping the invalid entries of the switch's snapshot equals keeping the valid ones |
| TableEntryManager.Without | Controller-Implementation/libs/TableEntryManager.py:163 | the list keeps every entry except the one removed |
| TableEntryManager.RemoveKeyIsWithout | Controller-Implementation/libs/TableEntryManager.py:161-163 | with unique keys, removing by the key of a stored entry removes just that entry |
| TableEntryManager.WithoutAbsent | Controller-Implementation/libs/TableEntryManager.py:163 | removing an absent entry changes nothing |
| TableEntryManager.DropCons | Controller-Implementation/libs/TableEntryManager.py:182-186 | one loop step: an invalid entry is removed and a valid one skipped |
| TableEntryManager.UniqueKeysWithout | Controller-Implementation/libs/TableEntryManager.py:163 | removal keeps keys unique |
| TableEntryManager.RemoveEachExact | Controller-Implementation/libs/TableEntryManager.py:182-186 | over a duplicate-free snapshot of a list with unique keys, the loop never raises and removes exactly the invalid snapshot entries |
| TableEntryManager.DropNone | Controller-Implementation/libs/TableEntryManager.py:182 | an empty snapshot removes nothing |
| TableEntryManager.EntriesForSwitchNoDuplicates | Controller-Implementation/libs/TableEntryManager.py:101-114 | the snapshot of a list with unique keys has no duplicates |
| TableEntryManager.RemoveInvalidExact | Controller-Implementation/libs/TableEntryManager.py:174-186 | on a table with unique keys, removal succeeds and leaves exactly the entries that are not the switch's invalid ones, in order |
| TableEntryManager.MatchKeys | Controller-Implementation/libs/controller/IPv4Controller.py:119 | the list of valid match fields follows the computed entries one for one |
| TableEntryManager.HandleAllFacts | Controller-Implementation/libs/TableEntryManager.py:200-224 | a pass stores every computed entry, only computed or earlier entries, and every earlier entry whose key was not computed; keys stay unique |
| TableEntryManager.HandleAllUnique | Controller-Implementation/libs/TableEntryManager.py:200-224 | a pass keeps keys unique |
| TableEntryManager.HandleAllStored | Controller-Implementation/libs/TableEntryManager.py:213-224 | a pass over entries that are all stored already writes nothing |
| TableEntryManager.RemoveEachNothingInvalid | Controller-Implementation/libs/TableEntryManager.py:182-186 | with no invalid snapshot entry, the loop removes nothing |
| TableEntryManager.Reconcile | Controller-Implementation/libs/TableEntryManager.py:174-224 | a pass followed by a purge: it fails exactly on an unknown table, and keeps the table present |
| TableEntryManager.ReconcileConverges | Controller-Implementation/libs/TableEntryManager.py:174-224 | one reconciliation leaves the switch's entries exactly the computed ones and other switches' as they were; keys stay unique; a second run writes nothing |
| TableEntryManager.ReconcileTable | Controller-Implementation/libs/TableEntryManager.py:174-224 | the reconciled table is the pass's result minus the switch's entries whose key was not computed |
| TableEntryManager.SwitchEntriesAreComputed | Controller-Implementation/libs/TableEntryManager.py:174-186 | after the purge, the switch's entries are exactly the computed ones and the rest are the old ones |
| TableEntryManager.ReconcileStable | Controller-Implementation/libs/TableEntryManager.py:10-12 | a table whose switch entries are exactly the computed ones is a fixed point with no driver call |
| TableEntryManager.UniqueKeysSameKey | Controller-Implementation/libs/TableEntryManager.py:10-12 | two stored entries with the same key are equal when keys are unique |
| TableEntryManager.KeepValidUnique | Controller-Implementation/libs/TableEntryManager.py:174-186 | the purge keeps keys unique |
| TableEntryManager.Sync | Controller-Implementation/libs/TableEntryManager.py:174-224 | an unknown table raises TableNotFound with nothing changed; without failure it is a reconciliation; after a failure the handled entries stay and nothing is purged |
| TableEntryManager.HandleAllKeeps | Controller-Implementation/libs/TableEntryManager.py:200-224 | a pass keeps every stored entry whose key it does not compute |
| TableEntryManager.SyncConverges | Controller-Implementation/libs/TableEntryManager.py:174-224 | a complete pass over unique computed entries leaves exactly those for the switch, keeps other switches, and repeating it writes nothing |
| TableEntryManager.HandleAllLastWins | Controller-Implementation/libs/TableEntryManager.py:213-220 | of several computed entries sharing a key, the last one is stored |
| TableEntryManager.SyncLastWins | Controller-Implementation/libs/TableEntryManager.py:213-220 | after a complete pass, the last computed entry of every key is stored |
| TableEntryManager.HandleAllFrom | Controller-Implementation/libs/TableEntryManager.py:200-224 | a pass stores nothing but computed entries and entries stored before |
| TableEntryManager.HandleEntries | Controller-Implementation/libs/TableEntryManager.py:200-224 | handling without a purge: an unknown table raises TableNotFound at the first entry; the last entry of every key is stored; unrelated keys survive; keys stay unique |
| TableEntryManager.SyncOtherSwitches | Controller-Implementation/libs/TableEntryManager.py:174-186 | a pass for one switch leaves every other switch's entries as they were, even when it stops early |
| TableEntryManager.LastIndex | Controller-Implementation/libs/TableEntryManager.py:213-220 | finds the last computed entry that shares the key |
| TableEntryManager.SyncExact | Controller-Implementation/libs/TableEntryManager.py:174-224 | a complete pass succeeds and leaves, for the switch, exactly the last computed entry of every key; other switches keep theirs |
| TableEntryManager.FinalConcat | Controller-Implementation/libs/TableEntryManager.py:213-220 | the final entries of two computations with disjoint keys are those of each |
| TableEntryManager.FinalUniform | Controller-Implementation/libs/TableEntryManager.py:213-220 | among computed entries that all share one key, only the last is final |
| TableEntryManager.FinalPrepend | Controller-Implementation/libs/TableEntryManager.py:213-220 | a block of one key followed by other keys contributes only its last entry |
| TableEntryManager.FinalAll | Controller-Implementation/libs/TableEntryManager.py:213-220 | when entries sharing a key are identical, every computed entry is final |
| IPv4Controller.RouteEntry | Controller-Implementation/libs/controller/IPv4Controller.py:50-64 | succeeds exactly when the destination is registered, the next hop exists and is a neighbour of the switch; the rule forwards the destination's /32 address to the port of that neighbour; errors are DeviceNotFound, DomainNotFound or NextHopNotFound |
| IPv4Controller.Routes | Controller-Implementation/libs/controller/IPv4Controller.py:50 | the destinations the loop visits are the switch's rows of the shortest-path table, and none when the switch has no row |
| IPv4Controller.RoutesEntries | Controller-Implementation/libs/controller/IPv4Controller.py:50-71 | the loop skips the switch itself and every rule is for that switch; it succeeds exactly when the rule of every other destination succeeds, and a failure is DeviceNotFound, DomainNotFound or NextHopNotFound |
| IPv4Controller.SwitchRules | Controller-Implementation/libs/controller/IPv4Controller.py:48-88 | an unregistered switch raises DeviceNotFound; a successful run ends with the decapsulation rule for the switch's own address |
| IPv4Controller.SwitchRulesComplete | Controller-Implementation/libs/controller/IPv4Controller.py:50-71 | a successful run holds the forwarding rule of every destination of the switch's shortest paths |
| IPv4Controller.SwitchRulesSucceed | Controller-Implementation/libs/controller/IPv4Controller.py:48-88 | when the registry is consistent and the shortest-path table is correct, a registered switch's rules are computed without an exception |
| IPv4Controller.SwitchEntries | Controller-Implementation/libs/controller/IPv4Controller.py:38-88 | rebuilding domain 0 keeps the device list; an unregistered switch gets no rules and a failure |
| IPv4Controller.SwitchEntriesSucceed | Controller-Implementation/libs/controller/IPv4Controller.py:38-88 | on a valid registry whose domain-0 neighbours are all registered, update_ipv4_entries for a registered switch raises nothing |
| IPv4Controller.RebuiltGraph | Controller-Implementation/libs/TopologyManager.py:237-260 | the rebuilt domain-0 graph has registered devices as nodes and edges that follow the port maps |
| IPv4Controller.RouteSucceeds | Controller-Implementation/libs/controller/IPv4Controller.py:52-57 | every destination of the switch's shortest paths yields its rule |
| IPv4Controller.NeighbourOnEdge | Controller-Implementation/libs/controller/IPv4Controller.py:57 | the head of a graph edge is a neighbour, with a port, of the device at its tail |
| IPv4Controller.ValidFor | Controller-Implementation/libs/controller/IPv4Controller.py:209-212 | a switch's valid list holds exactly the match fields of its computed rules and of the static rules for it |
| IPv4Controller.SwitchPass | Controller-Implementation/libs/controller/IPv4Controller.py:204-205 | one switch of the first loop: the rules handled are those update_ipv4_entries computes, and a failure comes from that computation or a missing table |
| IPv4Controller.ConnectionsPass | Controller-Implementation/libs/controller/IPv4Controller.py:204-205 | the loop over connections collects one rule list per switch, each for its switch, until the first exception; keys stay unique |
| IPv4Controller.PurgeAll | Controller-Implementation/libs/controller/IPv4Controller.py:209-212 | with no switch the loop does nothing and raises nothing; a missing table raises TableNotFound on the first switch with nothing changed; otherwise only the table changes and it stores nothing new |
| IPv4Controller.PurgeAllExact | Controller-Implementation/libs/controller/IPv4Controller.py:209-212 | on a table with unique keys, the purge raises nothing and keeps exactly the entries that no listed switch holds outside its valid list |
| IPv4Controller.PurgeStep | Controller-Implementation/libs/TableEntryManager.py:174-186 | one purge keeps exactly the valid entries and the unique keys |
| IPv4Controller.KeptCons | Controller-Implementation/libs/controller/IPv4Controller.py:209-212 | an entry survives the loop exactly when it survives the first purge and the rest |
| IPv4Controller.ValidLists | Controller-Implementation/libs/controller/IPv4Controller.py:209-211 | there is one valid list per connected switch, each that switch's valid list |
| IPv4Controller.UpdateIpv4Rules | Controller-Implementation/libs/controller/IPv4Controller.py:182-214 | a port update returns at once when the update option omits "ipv4"; the device list is never changed |
| IPv4Controller.Ipv4RulesPurged | Controller-Implementation/libs/controller/IPv4Controller.py:182-214 | after a complete run, keys are unique and every rule of a connected switch has the match fields of a rule computed for it or of a static rule for it |
| EncapRules.Domains | Controller-Implementation/libs/controller/IPv4Controller.py:101 | the domains of an address with registered subscribers include domain 0, each listed once |
| EncapRules.McEncap | Controller-Implementation/libs/controller/IPv4Controller.py:101-119 | for one address: succeeds exactly when it is encodable, and then yields one rule per domain, in order, each carrying the address's BIER header in that domain; all rules share the address as key; an unregistered subscriber raises DeviceNotFound before any rule, and a registered address that is not encodable raises AttributeError |
| EncapRules.DomainRules | Controller-Implementation/libs/controller/IPv4Controller.py:101-119 | the loop over one address's domains yields, in order, the rule of each domain whose header was computed, stopping at the first header that raised and reporting that header's exception; it completes exactly when no header raised |
| EncapRules.HeadersFail | Controller-Implementation/libs/controller/BierController.py:106-110 | for registered subscribers, every domain's header is computed exactly when the address is encodable, and a header that is not raises AttributeError |
| EncapRules.EncodableHeader | Controller-Implementation/libs/controller/BierController.py:106-110 | an address with no host subscriber in any domain has a header in every domain |
| EncapRules.EncodableIff | Controller-Implementation/libs/controller/BierController.py:106-110 | for registered subscribers, no host subscriber belongs to a domain exactly when the header of each of the address's domains is computed |
| EncapRules.EncapOver | Controller-Implementation/libs/controller/IPv4Controller.py:100-119 | the address loop yields rules for the switch keyed by the listed addresses; it fails exactly when some listed address is not encodable, with DeviceNotFound only for an unregistered subscriber and AttributeError only for a host subscriber |
| EncapRules.EncapFinals | Controller-Implementation/libs/controller/IPv4Controller.py:100-119 | holds exactly the last-domain rule of each listed address |
| EncapRules.EncapOverFinal | Controller-Implementation/libs/controller/IPv4Controller.py:100-119 | over distinct addresses, the rule left stored for each key is the rule of the address's last domain |
| EncapRules.McEncapUniform | Controller-Implementation/libs/controller/IPv4Controller.py:105-112 | the rules of one address all share its key, and the last is its last-domain rule |
| EncapRules.EncapKeysApart | Controller-Implementation/libs/controller/IPv4Controller.py:105-108 | rules of different addresses never share a key |
| EncapRules.UpdateBierEncapEntry | Controller-Implementation/libs/controller/IPv4Controller.py:91-123 | a missing table, or an active address with an unregistered subscriber or a host subscriber in a domain, ends in an exception |
| EncapRules.EncapInstalled | Controller-Implementation/libs/controller/IPv4Controller.py:91-123 | with every active address encodable, the switch ends with exactly one rule per active address, carrying its header in the last listed domain; rules of inactive addresses are gone and other switches' rules are untouched; the same member models Controller-Implementation/libs/controller/TunnelController.py:43-78: the same for the tunnel controller's rules, which also carry the ether type 0xBB00 and the domain |
| EncapRules.EncapInstalledAnyOrder | Controller-Implementation/libs/controller/IPv4Controller.py:91-123 | whatever order the set of domains is listed in: the update succeeds with keys unique, each rule the switch keeps is the rule of an active address in one of that address's domains, every active address keeps a rule, and an address whose domains are all 0 keeps its domain-0 rule |
| EncapRules.FinalsAnyOrder | Controller-Implementation/libs/controller/IPv4Controller.py:100-119 | a table holding exactly the last-domain rule of each active address meets that order-free description |
| EncapRules.FinalsAreDomainRules | Controller-Implementation/libs/controller/IPv4Controller.py:100-119 | each kept rule is the rule of an active address in one of its domains |
| EncapRules.FinalsCoverActive | Controller-Implementation/libs/controller/IPv4Controller.py:100-119 | every active address keeps a rule with its key on the switch |
| EncapRules.FinalsDomainZero | Controller-Implementation/libs/controller/IPv4Controller.py:100-119 | an active address whose domains are all 0 keeps its domain-0 rule |
| EncapRules.OnlyDomainZero | Controller-Implementation/libs/GroupManager.py:100-116 | when every domain of an address is 0, its last-domain rule is its domain-0 rule |
| EncapRules.LastDomainZero | Controller-Implementation/libs/GroupManager.py:100-116 | when every domain of an address is 0, the domain list is non-empty and the one listed last is 0 |
| EncapRules.EncapOthers | Controller-Implementation/libs/controller/IPv4Controller.py:121-123 | one switch's update leaves other switches' rules as they were, and keeps keys unique when it succeeds |
| EncapRules.EncapFor | Controller-Implementation/libs/controller/IPv4Controller.py:175-180 | updating a list of switches leaves the rules of unlisted switches as they were |
| EncapRules.UpdateBasedOnGroup | Controller-Implementation/libs/controller/IPv4Controller.py:170-180 | only ingress switches are updated: the rules of every other switch are left as they were |
| TunnelController.InitTables | Controller-Implementation/libs/controller/TunnelController.py:32-35 | the three tables of the controller exist and are empty; no other table is touched |
| TunnelController.DecapRules | Controller-Implementation/libs/controller/TunnelController.py:86-109 | an unregistered switch raises DeviceNotFound; otherwise there is exactly one rule per domain of the switch, matching its own bit there |
| TunnelController.DecapKeyedByDomain | Controller-Implementation/libs/controller/TunnelController.py:93-102 | two decap rules with the same key are the same rule |
| TunnelController.UpdateBierDecapRule | Controller-Implementation/libs/controller/TunnelController.py:80-113 | an unregistered switch raises DeviceNotFound and changes nothing |
| TunnelController.DecapInstalled | Controller-Implementation/libs/controller/TunnelController.py:80-113 | a registered switch ends with exactly one decap rule per domain it belongs to; stale rules are gone and other switches' rules are untouched |
| TunnelController.DecapMatchesOwnBit | Controller-Implementation/libs/controller/TunnelController.py:91-102 | a decap rule matches its domain and exactly the bit of the switch's id there, and no bit when the switch has no id |
| TunnelController.AddIpv4DecapRule | Controller-Implementation/libs/controller/TunnelController.py:120-134 | an unregistered device raises DeviceNotFound and a missing table TableNotFound; otherwise the device's own-address decap rule is stored, only entries with its key are replaced, and nothing is purged |
| TunnelController.UpdateBasedOnTopology | Controller-Implementation/libs/controller/TunnelController.py:138-148 | an empty switch list changes nothing |
| TunnelController.TopologyDecapExact | Controller-Implementation/libs/controller/TunnelController.py:138-148 | with every configured switch registered, the handler succeeds; each configured switch ends with exactly its decap rules, and other switches keep theirs |
| TunnelController.UpdateBasedOnGroup | Controller-Implementation/libs/controller/TunnelController.py:150-160 | only ingress switches are updated: the rules of every other switch are left as they were |
| BierComputation.Ids | Controller-Implementation/libs/controller/BierController.py:88 | the BIRT's keys in row order, one per row |
| BierComputation.BiftIds | Controller-Implementation/libs/controller/BierController.py:94 | the BIFT's keys in row order, one per row |
| BierComputation.IdIndex | Controller-Implementation/libs/controller/BierController.py:52 | finds a row exactly when the BFR-id is a key, and the row found carries it |
| BierComputation.Put | Controller-Implementation/libs/controller/BierController.py:52-53 | a dictionary store: the keys stay unique, the new row is present, no other key's row is lost, nothing else is added, and the key set gains exactly the row's id |
| BierComputation.PutReplaces | Controller-Implementation/libs/controller/BierController.py:52-53 | overwriting an existing key in place keeps keys unique and keeps every other key's row |
| BierComputation.PutAppends | Controller-Implementation/libs/controller/BierController.py:52-53 | a new key goes last, keeps keys unique and adds exactly that key |
| BierComputation.BuildBirt | Controller-Implementation/libs/controller/BierController.py:34-57 | an unknown domain raises DomainNotFound; any error is DomainNotFound or DeviceNotFound; the result has unique BFR-ids |
| BierComputation.BuildBirtContents | Controller-Implementation/libs/controller/BierController.py:43-57 | the BIRT fails exactly when some node other than the switch is unregistered or its next-hop lookup raises something other than NextHopNotFound; every row is the row of a registered non-host node other than the switch that has a next hop, and each such node has a row under its id |
| BierComputation.BirtOver | Controller-Implementation/libs/controller/BierController.py:43-55 | the node loop succeeds exactly when no node raises an uncaught exception, and keeps BFR-ids unique |
| BierComputation.BirtOverRows | Controller-Implementation/libs/controller/BierController.py:43-55 | every row of the loop's result was there before or is an eligible node's row; no earlier key is lost; every eligible node has a row under its id |
| BierComputation.MatchingIds | Controller-Implementation/libs/controller/BierController.py:69-71 | holds exactly the BFR-ids whose row's next-hop address is the given one |
| BierComputation.GetFbm | Controller-Implementation/libs/controller/BierController.py:60-73 | bit k-1 of the FBM is set exactly when k >= 1 and some row with id k goes over the given next-hop address |
| BierComputation.FbmZero | Controller-Implementation/libs/controller/BierController.py:60-73 | the FBM is 0 exactly when no destination with id 1 or more goes over that next hop |
| BierComputation.FbmMonotone | Controller-Implementation/libs/controller/BierController.py:67-71 | adding a row never clears a bit of an FBM |
| BierComputation.FbmDisjoint | Controller-Implementation/libs/controller/BierController.py:60-73 | on a BIRT with unique ids, the FBMs of two different next-hop addresses share no bit |
| BierComputation.NextHopName | Controller-Implementation/libs/controller/BierController.py:90-94 | the name stored in a BIFT row is the registered device at the second node of the switch's shortest path to the device holding the id |
| BierComputation.BiftRowFor | Controller-Implementation/libs/controller/BierController.py:88-94 | one BIFT row succeeds exactly when the device holding the id is found and has a next hop; it carries the FBM of the row's next-hop address and that next hop's name; its errors are DeviceNotFound, NextHopNotFound, DomainNotFound, or AttributeError when the id lookup reaches a host |
| BierComputation.BuildBift | Controller-Implementation/libs/controller/BierController.py:76-95 | fails with the BIRT's error when the BIRT fails; its errors are DomainNotFound, DeviceNotFound, NextHopNotFound or AttributeError |
| BierComputation.BiftShape | Controller-Implementation/libs/controller/BierController.py:83-95 | the BIFT exists exactly when every BIRT id is routable; it then has the BIRT's ids in the BIRT's order, each row with the FBM of its next-hop address and the next hop towards the id's device |
| BierComputation.BiftFbms | Controller-Implementation/libs/controller/BierController.py:60-95 | every BIFT row's FBM holds the row's own bit; rows over the same next-hop address share their FBM; rows over different next-hop addresses have disjoint FBMs |
| BierComputation.ComputeBierHeader | Controller-Implementation/libs/controller/BierController.py:98-114 | raises only DeviceNotFound or AttributeError; when it succeeds, bit k-1 is set exactly when some subscriber in the domain has BFR-id k (k >= 1) |
| BierComputation.HeaderOkIff | Controller-Implementation/libs/controller/BierController.py:106-112 | the header is computed exactly when every subscriber is registered and none of those in the domain is a host; it raises DeviceNotFound exactly when some subscriber is unregistered, so a host in the domain raises AttributeError |
| BierComputation.InDomain | Controller-Implementation/libs/controller/BierController.py:106-107 | succeeds exactly when every subscriber is registered, keeping exactly those in the domain; otherwise DeviceNotFound |
| BierComputation.BfrIds | Controller-Implementation/libs/controller/BierController.py:110 | raises AttributeError exactly when a listed device is a host, which has no `get_bfr_id`; otherwise holds exactly the domain's BFR-ids of the listed devices |
| Bitmask.Pow2 | Controller-Implementation/libs/controller/BierController.py:31 | a power of two is at least 1 |
| Bitmask.Or | Controller-Implementation/libs/controller/BierController.py:71 | a bit of `a \| b` is set exactly when it is set in a or in b |
| Bitmask.And | Controller-Implementation/libs/controller/BierController.py:156 | a bit of `a & b` is set exactly when it is set in both |
| Bitmask.OrIds | Controller-Implementation/libs/controller/BierController.py:112 | the OR-reduction of the bits of a list of BFR-ids has bit k-1 set exactly when k >= 1 is in the list; an empty list gives 0 |
| Bitmask.IdToBitstringSingleBit | Controller-Implementation/libs/controller/BierController.py:24-31 | for an id of 1 or more, `int(2 ** (id - 1))` has exactly the bit id-1 set; an id below 1 truncates to 0 |
| Bitmask.Pow2Bits | Controller-Implementation/libs/controller/BierController.py:31 | 2 to the n has exactly bit n set |
| Bitmask.NonZeroHasBit | Controller-Implementation/libs/controller/BierController.py:67-73 | a non-zero mask has a set bit |
| Bitmask.ZeroBit | Controller-Implementation/libs/controller/BierController.py:67 | 0 has no set bit |
| Bitmask.BitsExtensional | Controller-Implementation/libs/controller/BierController.py:67-73 | two masks with the same bits are equal |
| BierController.PrimaryBackupExclusive | Controller-Implementation/libs/controller/BierController.py:164-241 | for a port of 1 or more, the primary rule's port-status match applies exactly when the port's bit is set and the backup rule's exactly when it is clear; both match the same remaining bits and have different match fields |
| BierController.BiftLookup | Controller-Implementation/libs/controller/BierController.py:152-156 | finds a row exactly when the id is a key of the BIFT, and the row found carries the id |
| BierController.LinkProtection | Controller-Implementation/libs/controller/BierController.py:181-206 | succeeds exactly when the switch and the next hop are registered, giving the backup rule that tunnels from the switch's address to the next hop's with the unchanged FBM; otherwise DeviceNotFound |
| BierController.NodeTarget | Controller-Implementation/libs/controller/BierController.py:143-153 | succeeds exactly when the next hop's BIFT is built and the next hop is a registered switch; a registered host as next hop raises AttributeError, having no `get_bfr_id`; when the next hop holds the id the target is the direct row with the id's bit alone; otherwise there is a target exactly when the next hop's BIFT has the id, and it is that row; errors include AttributeError from the id lookup |
| BierController.NodeProtection | Controller-Implementation/libs/controller/BierController.py:135-178 | no rule exactly when there is no target; otherwise the backup rule belongs to the switch and tunnels to the target's next hop with the AND of the two FBMs; errors are DeviceNotFound, DomainNotFound, NextHopNotFound or AttributeError |
| BierController.NodeProtectionNarrows | Controller-Implementation/libs/controller/BierController.py:155-156 | a node-protection rule is a tunnel rule of the switch whose FBM is a subset of the primary FBM |
| BierController.NodeProtectionDirect | Controller-Implementation/libs/controller/BierController.py:148-150 | when the failed next hop is a switch holding the id, the tunnel ends at the next hop and its FBM keeps only the destination's bit, if the primary FBM had it |
| BierController.OutPort | Controller-Implementation/libs/controller/BierController.py:228 | succeeds exactly when the switch is registered and the neighbour is bound, returning its port; otherwise DeviceNotFound |
| BierController.RowEntries | Controller-Implementation/libs/controller/BierController.py:224-268 | one BIFT row gives rules for the switch only; success means the primary rule through the neighbour's port is there, and under link protection its backup too; an unset protection option always raises |
| BierController.ProtectedEntries | Controller-Implementation/libs/controller/BierController.py:231-268 | the primary rule is always produced; under link protection a success includes the backup rule; an unset protection option raises |
| BierController.LinkEntries | Controller-Implementation/libs/controller/BierController.py:250-257 | the primary rule, then on success the link backup rule |
| BierController.NodeEntries | Controller-Implementation/libs/controller/BierController.py:260-268 | the primary rule, then the node backup rule when there is one |
| BierController.RowsEntries | Controller-Implementation/libs/controller/BierController.py:224-268 | a successful loop over the rows holds every rule of every row |
| BierController.DomainEntries | Controller-Implementation/libs/controller/BierController.py:220-268 | a successful domain pass means the BIFT was built |
| BierController.DomainsEntries | Controller-Implementation/libs/controller/BierController.py:220-268 | a successful loop over the domains holds every rule of every domain |
| BierController.OwnDecap | Controller-Implementation/libs/controller/BierController.py:271-287 | succeeds exactly for a registered switch, giving the one decapsulation rule for its domain-0 bit |
| BierController.ForwardingEntries | Controller-Implementation/libs/controller/BierController.py:208-287 | all rules are for the switch; an unregistered switch raises DeviceNotFound before any rule; a success ends with the decapsulation rule for its domain-0 bit |
| BierController.ForwardingEntriesComplete | Controller-Implementation/libs/controller/BierController.py:220-257 | after a successful computation, every row of every domain's BIFT has its primary rule, and under link protection its backup rule |
| BierController.UpdateBierForwardingEntries | Controller-Implementation/libs/controller/BierController.py:208-289 | a failed computation is reported; otherwise it fails exactly when the reconciliation of the table fails |
| BierController.BierUpdateConverges | Controller-Implementation/libs/controller/BierController.py:208-289 | with distinct computed match fields, the switch's stored rules become exactly the computed ones, other switches' rules stay, and a second run writes nothing |
| BierController.Update | Controller-Implementation/libs/controller/BierController.py:303-327 | as written: a port update with the update option unset raises NameError before any switch is touched, since ConfigurationNotFound is never imported; a port update whose option omits "bier" returns at once; otherwise a clean run installs, on every connected switch, exactly that switch's computed rules and leaves other switches' rules alone |
| BierController.UpdateWithImport | Controller-Implementation/libs/controller/BierController.py:303-327 | with the exception imported, an unset option is ignored and every connected switch is updated; a clean run installs exactly each connected switch's computed rules |
| BierController.UnsetOptionRaises | Controller-Implementation/libs/controller/BierController.py:310-320 | a port update with the option unset raises NameError and changes nothing, where the corrected handler completes without error |
| BierController.UpdateAllConverges | Controller-Implementation/libs/controller/BierController.py:324-325 | when every switch's computation succeeds with distinct keys, the loop completes and each connected switch's table holds exactly its computed rules, other switches' rules untouched |
| BierController.UpdateAllInstalls | Controller-Implementation/libs/controller/BierController.py:324-325 | when the table exists with unique keys and every switch computes cleanly, the loop completes and installs each switch's rules |
| BierController.UpdateAll | Controller-Implementation/libs/controller/BierController.py:324-325 | no connections change nothing; a complete loop means every switch's rules were computed |
| GroupManager.SetGroup | Controller-Implementation/libs/GroupManager.py:79-83 | the address then has exactly the given member list and every other address keeps its own |
| GroupManager.SetGroupKeys | Controller-Implementation/libs/GroupManager.py:79-80 | the switch's addresses gain exactly the address, which goes last when it is new; a known address keeps the order |
| GroupManager.SetGroupMembers | Controller-Implementation/libs/GroupManager.py:82-83 | storing a duplicate-free member list keeps every member list duplicate-free |
| GroupManager.SetMembers | Controller-Implementation/libs/GroupManager.py:76-83 | the switch's address then has exactly the given members; every other switch and address keeps its members, and every other switch its whole group map |
| GroupManager.SetMembersSwitches | Controller-Implementation/libs/GroupManager.py:76-77 | a new switch is appended to the switches; a known one keeps the order |
| GroupManager.SetMembersGroupsValid | Controller-Implementation/libs/GroupManager.py:76-83 | storing a duplicate-free member list keeps every switch's group map valid |
| GroupManager.SetGroupValid | Controller-Implementation/libs/GroupManager.py:79-83 | storing a duplicate-free member list keeps a group map valid |
| GroupManager.SetMembersValid | Controller-Implementation/libs/GroupManager.py:76-83 | storing a duplicate-free member list keeps the store valid |
| GroupManager.SetMembersGroupNames | Controller-Implementation/libs/GroupManager.py:76-80 | the switch's addresses gain exactly the address; a known one keeps the order |
| GroupManager.AddToGroup | Controller-Implementation/libs/GroupManager.py:67-83 | a known member changes nothing; otherwise the member is appended to the address's list; every other list is unchanged; the switch and the address are then present; validity is kept |
| GroupManager.AppendKeepsNoDuplicates | Controller-Implementation/libs/GroupManager.py:82-83 | appending an absent member keeps the member list free of duplicates |
| GroupManager.MembersListed | Controller-Implementation/libs/GroupManager.py:15 | a non-empty member list belongs to a listed switch and address |
| GroupManager.MembersInListed | Controller-Implementation/libs/GroupManager.py:15 | a non-empty member list belongs to a listed address |
| GroupManager.MembersNoDuplicates | Controller-Implementation/libs/GroupManager.py:82-83 | in a valid store, every member list is free of duplicates |
| GroupManager.MembersInNoDuplicates | Controller-Implementation/libs/GroupManager.py:82-83 | in a valid group map, every member list is free of duplicates |
| GroupManager.RemoveFromGroup | Controller-Implementation/libs/GroupManager.py:85-98 | a member that is not listed changes nothing and the ValueError is logged; otherwise its first occurrence is removed; every other list, the switches and the addresses are unchanged; validity is kept |
| GroupManager.JoinThenLeave | Controller-Implementation/libs/GroupManager.py:67-98 | a member that joins and then leaves restores every member list, without a logged error |
| GroupManager.AddToGroupIdempotent | Controller-Implementation/libs/GroupManager.py:82 | adding the same member twice is the same as adding it once |
| GroupManager.GetBfrByMcAddr | Controller-Implementation/libs/GroupManager.py:17-30 | lists, once each, exactly the switches with a non-empty member list for the address |
| GroupManager.SubscribedAmong | Controller-Implementation/libs/GroupManager.py:25-28 | the loop keeps exactly the given switches with members for the address |
| GroupManager.GetMcAddressesForSwitch | Controller-Implementation/libs/GroupManager.py:32-35 | exactly the switch's addresses with a non-empty member list |
| GroupManager.ActiveAmong | Controller-Implementation/libs/GroupManager.py:34-35 | the comprehension keeps exactly the given addresses with members at the switch |
| GroupManager.GetMcAddresses | Controller-Implementation/libs/GroupManager.py:37-50 | lists, once each, exactly the addresses with members at some switch |
| GroupManager.ActiveOver | Controller-Implementation/libs/GroupManager.py:45-48 | the loop collects exactly the addresses with members at one of the given switches |
| GroupManager.GetAllMcAddresses | Controller-Implementation/libs/GroupManager.py:52-65 | lists, once each, exactly the addresses known at some switch, with or without members |
| GroupManager.KnownOver | Controller-Implementation/libs/GroupManager.py:61-63 | the loop collects exactly the addresses known at one of the given switches |
| GroupManager.ActiveIsKnown | Controller-Implementation/libs/GroupManager.py:38-98 | an active address is known, and a removal never makes a known address unknown |
| GroupManager.GetDomainsForMcAddr | Controller-Implementation/libs/GroupManager.py:100-116 | succeeds exactly when every subscribed switch is registered, and then lists once each domain 0 and every domain of a subscribed switch; otherwise DeviceNotFound |
| GroupManager.DomainsOf | Controller-Implementation/libs/GroupManager.py:111-112 | the loop collects exactly the domains of the given switches, or raises DeviceNotFound for an unregistered one |
| GroupManager.HandlePacketIn | Controller-Implementation/libs/GroupManager.py:122-135 | a membership report (0x16) adds the sender, a leave (0x17) removes it, anything else changes nothing; group_update is always triggered; validity is kept |
| GroupManager.ReportThenMember | Controller-Implementation/libs/GroupManager.py:130-133 | in a valid store, after a report the sender is a member and after a leave it is not |
| Events.Activate | Controller-Implementation/libs/core/Event.py:19-26 | dispatch is enabled and the handlers stay |
| Events.Deactivate | Controller-Implementation/libs/core/Event.py:28-36 | dispatch is disabled and every handler is forgotten |
| Events.On | Controller-Implementation/libs/core/Event.py:38-46 | the event's list gains the handlers at its end, in order and duplicates included, and exists even when none is given; every other event is unchanged |
| Events.Without | Controller-Implementation/libs/core/Event.py:70-71 | the `while ... remove` loop drops every occurrence of the handler and nothing else |
| Events.RemoveAll | Controller-Implementation/libs/core/Event.py:67-71 | the loop completes exactly when the handlers are distinct and all registered, and then leaves exactly the registered handlers not named |
| Events.NoDuplicatesSplit | Controller-Implementation/libs/core/Event.py:67-71 | a handler list is duplicate-free exactly when its tail is and its head is not in the tail |
| Events.RemoveAllStops | Controller-Implementation/libs/core/Event.py:67-71 | when the loop raises, it stopped at a handler that was missing or named before, and exactly the handlers before it were removed |
| Events.StopsShift | Controller-Implementation/libs/core/Event.py:67-71 | a stop in the rest of the loop, after the first handler was removed, is a stop one position later |
| Events.RemoveHandlers | Controller-Implementation/libs/core/Event.py:67-71 | on a registered event, succeeds exactly when the handlers are distinct and registered, leaving exactly the others; otherwise HandlerNotFound; other events are unchanged |
| Events.Off | Controller-Implementation/libs/core/Event.py:48-71 | a falsy event clears the registry; an unknown one raises EventNotFound; no handlers drop the event; a success leaves none of the named handlers registered for it |
| Events.WithoutAppend | Controller-Implementation/libs/core/Event.py:46-71 | removing a handler that was appended to a list without it gives back the list |
| Events.OffUndoesOn | Controller-Implementation/libs/core/Event.py:38-71 | registering a handler that was not registered and then removing it succeeds and restores every event's handler list |
| Events.RunOne | Controller-Implementation/libs/core/Event.py:97-103 | a handler is first called with the keyword arguments; an exception escapes only in the host shell, when the call raises TypeError and the retry fails |
| Events.CalledAppend | Controller-Implementation/libs/core/Event.py:97-103 | the calls and reports of consecutive steps add up |
| Events.Failing | Controller-Implementation/libs/core/Event.py:97-103 | exactly the handlers whose keyword call raises |
| Events.TypeErrors | P4-Implementation/host_cli/core/Event.py:110-111 | exactly the handlers whose keyword call raises TypeError |
| Events.RunAll | Controller-Implementation/libs/core/Event.py:97-103 | an exception escapes the loop exactly in the host shell when some TypeError retry fails |
| Events.RunAllCalls | Controller-Implementation/libs/core/Event.py:97-103 | in the controller, every handler of the snapshot is called once with the keyword arguments, in order, none without, and every failure is reported; the same member models Local-Controller/libs/core/Event.py:93-97: in the local controller, the same, every failure written to the log |
| Events.RunOneOnce | Controller-Implementation/libs/core/Event.py:98-103 | one handler in the controller or local controller: one keyword call, no other call, and one report exactly when it raised |
| Events.RunAllRetries | P4-Implementation/host_cli/core/Event.py:107-113 | in the host shell, when every retry succeeds, every handler is called once with keywords, exactly the TypeError ones once more without, and exactly the other failures are reported |
| Events.RunOneRetry | P4-Implementation/host_cli/core/Event.py:108-113 | one handler in the host shell whose retry succeeds: a keyword call, a positional call exactly after a TypeError, and a report exactly for another exception |
| Events.FailingCount | P4-Implementation/host_cli/core/Event.py:108-113 | there are no more TypeError handlers than failing ones |
| Events.Trigger | Controller-Implementation/libs/core/Event.py:77-107 | nothing while inactive; False for an event without handlers; otherwise True after calling every handler once with the keywords and reporting every failure; the same member models Local-Controller/libs/core/Event.py:74-101: the same in the local controller, failures logged; the same member models P4-Implementation/host_cli/core/Event.py:90-116: in the host shell an exception escapes exactly when a TypeError retry fails; otherwise True, every handler called once with the keywords and the TypeError ones once more without |
| Configuration.Names | Controller-Implementation/libs/Topology.py:44-45 | the names of the configured switches, one per entry, in configuration order |
| Configuration.IngressNames | Controller-Implementation/libs/controller/TunnelController.py:155-160 | exactly the names of the configured switches marked ingress, skipping the others |
| Devices.FindAt | Local-Controller/libs/core/Device.py:59 | in a map with unique keys, the lookup of a binding's neighbour answers that binding's port |
| Devices.RemoveAtFind | Local-Controller/libs/core/Device.py:51 | popping one binding from a map with unique keys unbinds exactly that neighbour and keeps the keys unique |
| GroupController.IndexOf | Local-Controller/libs/controller/GroupController.py:22 | the index found holds the address; no index means no group has it |
| GroupController.Modify | Local-Controller/libs/controller/GroupController.py:104-109 | after writing an address's port list, the address answers that list and every other address keeps its own; addresses stay unique |
| GroupController.ModifyInPlace | Local-Controller/libs/controller/GroupController.py:104-109 | overwriting a group in place keeps every address's position |
| GroupController.ModifyAppend | Local-Controller/libs/controller/GroupController.py:104-109 | a new address is appended at the end and other lookups are unchanged |
| GroupController.SameAddrsIndex | Local-Controller/libs/controller/GroupController.py:104-109 | lists with the same addresses in the same order find every address at the same index |
| GroupController.AppendIndex | Local-Controller/libs/controller/GroupController.py:104-109 | appending a group does not move any other address, and a new address lands at the end |
| GroupController.Join | Local-Controller/libs/controller/GroupController.py:104-106 | an IGMP join appends the port to the address's list unless it is already there; the list stays duplicate-free; other addresses are unchanged |
| GroupController.Leave | Local-Controller/libs/controller/GroupController.py:107-109 | an IGMP leave removes the first occurrence of the port; an absent port changes nothing; other addresses are unchanged |
| GroupController.JoinIdempotent | Local-Controller/libs/controller/GroupController.py:104-106 | joining twice from the same port equals joining once |
| GroupController.LeaveUndoesJoin | Local-Controller/libs/controller/GroupController.py:104-109 | a join from a new port followed by a leave from it restores every address's port list |
| GroupController.IngressPort | Local-Controller/libs/controller/GroupController.py:98-102 | succeeds exactly when the switch and a device with the source ip are registered and the switch has a port towards it, and answers that port; otherwise DeviceNotFound |
| GroupController.UpdatePorts | Local-Controller/libs/controller/GroupController.py:94-109 | an unknown switch, source or port raises DeviceNotFound; otherwise a join adds and a leave removes the ingress port, other packet types and other addresses change nothing |
| GroupController.NonEmpty | Local-Controller/libs/controller/GroupController.py:119-120 | exactly the groups with at least one port, in order |
| GroupController.NonEmptyUnique | Local-Controller/libs/controller/GroupController.py:119-120 | skipping empty groups keeps addresses unique |
| GroupController.AssignNumbered | Local-Controller/libs/controller/GroupController.py:117-128 | the i-th non-empty group is programmed as group `next + i` with its ports |
| GroupController.McRules | Local-Controller/libs/controller/GroupController.py:117-134 | one multicast rule and one group per non-empty group, and no programmed group has an empty port list |
| GroupController.McRulesAt | Local-Controller/libs/controller/GroupController.py:117-134 | the i-th non-empty group yields the rule from its address to group `next + i` and the group `next + i` with its ports |
| GroupController.McRulesNumbered | Local-Controller/libs/controller/GroupController.py:117-134 | the i-th non-empty group yields the rule from its address to group `next + i` and one programmed group |
| GroupController.McKeysDistinct | Local-Controller/libs/controller/GroupController.py:123 | distinct addresses give rules with distinct match fields |
| GroupController.UpdateMcTable | Local-Controller/libs/controller/GroupController.py:115-136 | groups 2, 3, … are programmed with the ports of the non-empty groups in order; a missing table raises TableNotFound and only the multicast table is written |
| GroupController.McMembers | Local-Controller/libs/controller/GroupController.py:117-134 | the rules are exactly the numbered entries of the non-empty groups, and none matches an address with no ports |
| GroupController.McInstalled | Local-Controller/libs/controller/GroupController.py:115-136 | after the update, the multicast table holds one rule per non-empty group, numbered from 2, and otherwise only stale rules of addresses not generated; it is exactly those rules when and only when no two stale rules stood next to each other, and then no emptied address has a rule; nothing else changes |
| GroupController.UpdateIgmp | Local-Controller/libs/controller/GroupController.py:94-112 | a failed lookup leaves everything as it was and raises DeviceNotFound; otherwise the groups are updated and one multicast group is programmed per non-empty address |
| LocalTableEntryManager.EntryEquals | Local-Controller/libs/TableEntryManager.py:34-38 | two entries are equal exactly when match fields, action, parameters and priority all agree |
| LocalTableEntryManager.InitTable | Local-Controller/libs/TableEntryManager.py:57-63 | the table then reads as empty and every other table is unchanged |
| LocalTableEntryManager.GetTableEntries | Local-Controller/libs/TableEntryManager.py:99-110 | the stored list of an initialised table; TableNotFound otherwise |
| LocalTableEntryManager.KeyIndex | Local-Controller/libs/TableEntryManager.py:87-88 | the index found is the first entry with the match fields; no index means none has them |
| LocalTableEntryManager.KeyIndexUnique | Local-Controller/libs/TableEntryManager.py:87-88 | in a list with unique keys, the search for an entry's key finds that entry's own index |
| LocalTableEntryManager.MatchFieldsExists | Local-Controller/libs/TableEntryManager.py:121-132 | true exactly when a stored entry has the same match fields; TableNotFound for an unknown table |
| LocalTableEntryManager.EntryExists | Local-Controller/libs/TableEntryManager.py:112-119 | true exactly when an equal entry is stored; TableNotFound for an unknown table |
| LocalTableEntryManager.RemoveIn | Local-Controller/libs/TableEntryManager.py:78-97 | succeeds exactly when some stored entry has the match fields, drops the first such one and asks the driver to delete; otherwise EntryNotFound |
| LocalTableEntryManager.AddTableEntry | Local-Controller/libs/TableEntryManager.py:65-76 | the entry is appended to an initialised table and the driver asked to add it; TableNotFound otherwise |
| LocalTableEntryManager.UpdateEntry | Local-Controller/libs/TableEntryManager.py:134-146 | succeeds exactly when an entry with the match fields is stored; the driver deletes then adds, and the new entry is stored |
| LocalTableEntryManager.HandleTableEntry | Local-Controller/libs/TableEntryManager.py:163-187 | a stored entry changes nothing and answers False; a new key is added, a changed one updated, both answering True; TableNotFound for an unknown table |
| LocalTableEntryManager.RemoveInvalidLive | Local-Controller/libs/TableEntryManager.py:148-160 | the loop as written, over the list it removes from: what is left was stored before |
| LocalTableEntryManager.LiveRemovalSkipsNeighbour | Local-Controller/libs/TableEntryManager.py:148-160 | two invalid entries: the loop as written removes the first and leaves the second in the table |
| LocalTableEntryManager.LiveRemovalKeepsValid | Local-Controller/libs/TableEntryManager.py:155-158 | the loop as written never removes an entry whose match fields are valid |
| LocalTableEntryManager.RemoveInvalidEntries | Local-Controller/libs/TableEntryManager.py:148-160 | the purge as written, walking the live list it removes from: it fails exactly for an unknown table, with TableNotFound; otherwise only that table changes, nothing new is stored, every valid entry stays, the driver deletes only stored invalid entries, and on unique keys the table left is `LiveKeep` of the old one |
| LocalTableEntryManager.LiveKeep | Local-Controller/libs/TableEntryManager.py:156-160 | the cursor-free account of the live walk, in which each removal makes the loop pass over the next entry: only stored entries are kept |
| LocalTableEntryManager.LiveFromStart | Local-Controller/libs/TableEntryManager.py:156-160 | on unique keys, the walk as written from the first entry leaves exactly `LiveKeep` of the list |
| LocalTableEntryManager.LiveWalk | Local-Controller/libs/TableEntryManager.py:156-160 | from any cursor position, the walk keeps the entries already passed and leaves `LiveKeep` of the rest |
| LocalTableEntryManager.LiveKeepStep | Local-Controller/libs/TableEntryManager.py:156-157 | a valid entry under the cursor is kept and the walk moves on to the next one |
| LocalTableEntryManager.LiveDropStep | Local-Controller/libs/TableEntryManager.py:157-160 | an invalid entry under the cursor is removed and the entry that moves into its place is passed over |
| LocalTableEntryManager.LiveDropMore | Local-Controller/libs/TableEntryManager.py:156-160 | after a removal the cursor stands one past the entry that moved up, which stays in the table |
| LocalTableEntryManager.LiveKeepDrop | Local-Controller/libs/TableEntryManager.py:156-160 | dropping an invalid head keeps the entry behind it unexamined and continues two places on |
| LocalTableEntryManager.LiveDropAt | Local-Controller/libs/TableEntryManager.py:157-160 | removing the invalid entry at the cursor leaves the list without it, keys unique, and the walk continues one index later |
| LocalTableEntryManager.RemoveAtCursor | Local-Controller/libs/TableEntryManager.py:87-97 | removal by key of the entry at the cursor, on unique keys, succeeds and splices exactly that entry out |
| LocalTableEntryManager.LiveKeepKeepsValid | Local-Controller/libs/TableEntryManager.py:156-160 | the live walk never loses a valid entry |
| LocalTableEntryManager.LiveKeepExact | Local-Controller/libs/TableEntryManager.py:148-160 | the live walk leaves only valid entries exactly when no two invalid entries are adjacent |
| LocalTableEntryManager.LiveKeepShrinks | Local-Controller/libs/TableEntryManager.py:156-160 | when some entry is invalid, the live walk removes at least one entry |
| LocalTableEntryManager.LiveKeepLength | Local-Controller/libs/TableEntryManager.py:156-160 | the live walk never lengthens the list |
| LocalTableEntryManager.LiveKeepUnique | Local-Controller/libs/TableEntryManager.py:156-160 | the live walk keeps keys unique |
| LocalTableEntryManager.LiveAllValid | Local-Controller/libs/TableEntryManager.py:156-160 | when every entry is valid the walk removes nothing and calls no driver |
| LocalTableEntryManager.PurgeShape | Local-Controller/libs/TableEntryManager.py:148-160 | on an initialised table with unique keys, the purge succeeds and replaces only that table, by `LiveKeep` of it |
| LocalTableEntryManager.RemoveInvalidSnapshot | Local-Controller/libs/TableEntryManager.py:148-160 | the purge iterating a copy, as intended: TableNotFound for an unknown table; otherwise only that table changes and the driver deletes only stored invalid entries |
| LocalTableEntryManager.RemoveEach | Local-Controller/libs/TableEntryManager.py:155-158 | the only failure of the walk is EntryNotFound |
| LocalTableEntryManager.RemoveEachDeletesInvalid | Local-Controller/libs/TableEntryManager.py:155-158 | the walk deletes only walked entries that are not valid |
| LocalTableEntryManager.KeepValid | Local-Controller/libs/TableEntryManager.py:148-160 | the reference filter: exactly the entries whose match fields are valid |
| LocalTableEntryManager.UniqueKeysTail | Local-Controller/libs/TableEntryManager.py:87-88 | the tail of a list with unique keys has unique keys and none equal to the head's |
| LocalTableEntryManager.RemoveEachKeepsValid | Local-Controller/libs/TableEntryManager.py:155-158 | walking the rest of a snapshot after a valid prefix succeeds and leaves the prefix followed by the valid rest |
| LocalTableEntryManager.KeepValidStep | Local-Controller/libs/TableEntryManager.py:157 | one step of the walk over a valid entry keeps the walk's result |
| LocalTableEntryManager.SkipValid | Local-Controller/libs/TableEntryManager.py:157 | a valid entry is skipped and stays, the rest being walked as before |
| LocalTableEntryManager.RemoveInvalidStep | Local-Controller/libs/TableEntryManager.py:157-158 | one step of the walk over an invalid entry removes it and keeps the walk's result |
| LocalTableEntryManager.RemoveAfterValidPrefix | Local-Controller/libs/TableEntryManager.py:87-93 | behind a valid prefix, an invalid entry is the first with its key and is the one removed |
| LocalTableEntryManager.RemoveInvalidExact | Local-Controller/libs/TableEntryManager.py:148-160 | on an initialised table, the purge succeeds and leaves exactly the valid entries, in order |
| LocalTableEntryManager.Keys | Local-Controller/libs/controller/MacController.py:54 | the match fields of the entries, one per entry, in order |
| LocalTableEntryManager.KeysMembership | Local-Controller/libs/controller/MacController.py:54 | every entry's key is listed, and every listed key belongs to an entry |
| LocalTableEntryManager.HandleShape | Local-Controller/libs/TableEntryManager.py:163-187 | on an initialised table, handling succeeds and changes only that table |
| LocalTableEntryManager.HandleListEffect | Local-Controller/libs/TableEntryManager.py:163-187 | after handling, the table holds the entry and every stored entry with another key, keys staying unique |
| LocalTableEntryManager.DropKeyed | Local-Controller/libs/TableEntryManager.py:87-88 | removing one entry from a list with unique keys removes exactly the entries with its key |
| LocalTableEntryManager.AppendUnique | Local-Controller/libs/TableEntryManager.py:72 | appending an entry with a new key keeps keys unique |
| LocalTableEntryManager.HandleAll | Local-Controller/libs/controller/MacController.py:39-52 | handling a list: nothing for an empty list, TableNotFound for an unknown table, and no change when every entry is stored |
| LocalTableEntryManager.HandleAllShape | Local-Controller/libs/controller/MacController.py:39-52 | on an initialised table, handling a list succeeds and changes only that table |
| LocalTableEntryManager.HandleAllEffect | Local-Controller/libs/controller/MacController.py:39-52 | after handling a list with unique keys, the table holds the list and the stored entries with other keys, keys staying unique |
| LocalTableEntryManager.HandleAllTables | Local-Controller/libs/controller/MacController.py:39-52 | handling a list writes only to the named table |
| LocalTableEntryManager.HandleAllUnique | Local-Controller/libs/TableEntryManager.py:163-187 | handling a list keeps the table's keys unique |
| LocalTableEntryManager.HandledValid | Local-Controller/libs/controller/MacController.py:39-59 | after handling a list with unique keys, the stored entries whose key the list has are exactly the list's entries |
| LocalTableEntryManager.Sync | Local-Controller/libs/controller/MacController.py:39-59 | a local controller's pass with the purge as written: an unknown table fails with no effect, a failed generation is reported, and only the named table is written |
| LocalTableEntryManager.SyncShape | Local-Controller/libs/controller/MacController.py:39-59 | on an initialised table with unique keys, the pass succeeds and leaves the live walk, keyed by the generated entries, of the handled table |
| LocalTableEntryManager.SyncExact | Local-Controller/libs/controller/MacController.py:39-59 | after a pass over entries with unique keys, every generated entry is stored, anything else is a stale entry whose key was not generated, keys stay unique, no other table changes, and the table is exactly the generated entries when and only when no two stale entries stood next to each other |
| LocalTableEntryManager.PurgeHandled | Local-Controller/libs/controller/MacController.py:39-59 | handling a list and keeping its keys leaves exactly the list, with unique keys |
| LocalTableEntryManager.UniqueKeysSame | Local-Controller/libs/TableEntryManager.py:87-88 | two stored entries with the same key in a list with unique keys are the same entry |
| LocalTableEntryManager.KeepValidUnique | Local-Controller/libs/TableEntryManager.py:148-160 | purging keeps keys unique |
| LocalTableEntryManager.PrependUnique | Local-Controller/libs/TableEntryManager.py:148-160 | a new key in front of a list with unique keys keeps them unique |
| LocalTableEntryManager.SyncIdempotent | Local-Controller/libs/controller/MacController.py:39-72 | a second pass with the same entries only purges again; it is silent when no two stale entries stood next to each other, and otherwise it shrinks the table |
| LocalTableEntryManager.SyncStoredOnlyPurges | Local-Controller/libs/controller/MacController.py:39-59 | when every generated entry is already stored, a pass writes nothing new and only purges |
| LocalTableEntryManager.SyncStoredSilent | Local-Controller/libs/controller/MacController.py:39-59 | when the table holds the generated entries and nothing with another key, a pass changes nothing and calls no driver |
| LocalTableEntryManager.SyncSnapshot | Local-Controller/libs/controller/MacController.py:39-59 | the pass with the intended purge: an unknown table fails with no effect, a failed generation is reported, and only the named table is written |
| LocalTableEntryManager.SyncSnapshotShape | Local-Controller/libs/controller/MacController.py:39-59 | with the intended purge, the pass leaves the handled table filtered to the generated keys |
| LocalTableEntryManager.SyncSnapshotExact | Local-Controller/libs/controller/MacController.py:39-59 | with the intended purge, a pass over entries with unique keys leaves exactly the generated entries and no other table changes |
| LocalTableEntryManager.SyncSnapshotIdempotent | Local-Controller/libs/controller/MacController.py:39-72 | with the intended purge, repeating a pass changes nothing and asks the driver for nothing |
| LocalTableEntryManager.KeepValidAll | Local-Controller/libs/TableEntryManager.py:148-160 | purging a list whose keys are all valid keeps it whole |
| LocalTableEntryManager.UniqueKeysSameLength | Local-Controller/libs/TableEntryManager.py:148-160 | two lists with unique keys and the same members have the same length |
| PortController.LivePorts | Local-Controller/libs/controller/PortController.py:80 | exactly the neighbour ports whose recorded status is 1 or that were never reported |
| PortController.NoneLive | Local-Controller/libs/controller/PortController.py:80-86 | with no live port the filter is empty |
| PortController.LiveString | Local-Controller/libs/controller/PortController.py:80-86 | bit p-1 of the live-port string is set exactly for the live neighbour ports p >= 1; with no live port the string is 0 |
| PortController.WritePortEntry | Local-Controller/libs/controller/PortController.py:70-76 | TableNotFound for an uninitialised table; the same bit string changes nothing; otherwise the table holds exactly the new rule and a changed string is updated through a delete and an add |
| PortController.Update | Local-Controller/libs/controller/PortController.py:78-88 | an unknown switch raises DeviceNotFound; otherwise the table holds exactly the rule with the bit string of the switch's live neighbour ports |
| PortController.OnPortStatus | Local-Controller/libs/controller/PortController.py:54-68 | the status is recorded; status 0 removes the neighbour on the port and triggers topology_change (DeviceNotFound or KeyError otherwise); the controller hears `status == 1` unless handling raised; other devices are unchanged and the registry stays valid |
| PortController.PortDownUnbinds | Local-Controller/libs/controller/PortController.py:56-65 | a port-down unbinds exactly the neighbour on the port, keeps every other binding, and the next live-port string leaves the port out |
| MacController.RulesFor | Local-Controller/libs/controller/MacController.py:39-54 | the loop succeeds exactly when every neighbour is registered (DeviceNotFound otherwise) and then yields one rule per neighbour, in the map's order |
| MacController.MacRules | Local-Controller/libs/controller/MacController.py:37-54 | an unknown switch raises DeviceNotFound; otherwise the rules of its neighbour map |
| MacController.UpdateMacEntry | Local-Controller/libs/controller/MacController.py:27-59 | an uninitialised table or an unknown switch or neighbour fails, and only the MAC table is written |
| MacController.RulesKeysDistinct | Local-Controller/libs/controller/MacController.py:44 | neighbours on distinct ports give rules with distinct keys |
| MacController.RulesMembers | Local-Controller/libs/controller/MacController.py:39-54 | the rules are exactly one per neighbour of the map |
| MacController.RulesInstalled | Local-Controller/libs/controller/MacController.py:39-59 | the pass over a switch's rules stores one rewrite rule per neighbour, keys unique, and no other table changes; a stale rule may remain, and the table is exactly the neighbour rules when and only when no two stale rules stood next to each other |
| MacController.MacInstalled | Local-Controller/libs/controller/MacController.py:27-59 | after update_mac_entry the MAC table holds the rule of every neighbour, with the switch's and the neighbour's MAC, and otherwise only stale rules of ports no longer used; it is exactly one rule per neighbour when and only when no two stale rules stood next to each other; nothing else changes |
| MacController.MacRerunSilent | Local-Controller/libs/controller/MacController.py:65-72 | a second update with the same neighbours changes nothing and calls no driver when no two stale rules stood next to each other, and otherwise shrinks the MAC table |
| MacController.StaleMacRuleSurvives | Local-Controller/libs/controller/MacController.py:39-59 | a switch with no neighbours left and two stored MAC rules: the update removes the first and keeps the second |
| MacController.RuleKeysApart | Local-Controller/libs/controller/MacController.py:44 | rules for neighbours on distinct ports have distinct match fields |
| IPv4Controller.RoutesEntriesComplete | Controller-Implementation/libs/controller/IPv4Controller.py:50-71 | a completed destination loop holds the rule of every destination other than the switch |
| IPv4Controller.RoutesEntriesSound | Controller-Implementation/libs/controller/IPv4Controller.py:50-71 | every rule the loop collects is the rule of some destination other than the switch |
| IPv4Controller.ForSwitchCons | Controller-Implementation/libs/controller/IPv4Controller.py:204-205 | putting one switch's rule list in front keeps every list aimed at its own switch |
| IPv4Controller.PurgedFields | Controller-Implementation/libs/controller/IPv4Controller.py:182-214 | purging every connected switch succeeds, keeps keys unique, and leaves each switch only rules keyed like a computed or static rule for it |
| TableEntryManager.RemoveInvalidNone | Controller-Implementation/libs/TableEntryManager.py:174-186 | when every entry of the switch is valid, the purge changes nothing and calls no driver |
| TableEntryManager.FinalConcatSplit | Controller-Implementation/libs/TableEntryManager.py:201-224 | an entry that ends up stored after two computations is final in one of them |
| TableEntryManager.FinalConcatLeft | Controller-Implementation/libs/TableEntryManager.py:201-224 | a final entry of the first computation stays final when the second shares none of its keys |
| TableEntryManager.FinalConcatRight | Controller-Implementation/libs/TableEntryManager.py:201-224 | a final entry of the second computation is final after both |
| TableEntryManager.OnlyLastOfKey | Controller-Implementation/libs/TableEntryManager.py:201-224 | among entries that all share a key, only the last one survives |
| Topology.AddSwitchEdgeGraphs | Controller-Implementation/libs/Topology.py:27-33 | a new switch-to-switch edge enters both graphs and keeps them consistent |
| GroupManager.GroupNames | Controller-Implementation/libs/GroupManager.py:68-83 | the group names of a switch, one per entry, in order |
| GroupManager.Switches | Controller-Implementation/libs/GroupManager.py:68-83 | the switches with group memberships, one per entry, in order |
| Seqs.Dedup | Controller-Implementation/libs/GroupManager.py:30 | `list(set(xs))`: the same elements, each once |
| Seqs.IndexOf | Controller-Implementation/libs/GroupManager.py:95 | the position of the first occurrence |
| Seqs.RemoveFirst | Controller-Implementation/libs/GroupManager.py:95 | `list.remove(x)` drops exactly the first occurrence, and an absent element changes nothing; in a duplicate-free list it removes x and only x |
| Seqs.RemoveAppended | Controller-Implementation/libs/GroupManager.py:68-98 | removing an element just appended to a list without it gives back the list |
| Wrappers.MapResult | Controller-Implementation/libs/controller/BierController.py:83-93 | a loop over items succeeds exactly when every item does, with one value per item; otherwise it raises the error of the first failing item |

## Left out

- Transport is not modelled: gRPC and P4Runtime, the switch connections, the servers, threads, locks and `time.sleep`. Driver calls appear as a returned list.
- The interactive shells, all logging and the `describe`/`show_tables`/`plot` views are UI only. A failure that the source logs appears in the model as a count or a flag.
- Packet framing and parsing with scapy, nnpy and struct are not modelled. The handlers take the decoded fields as arguments.
- `GroupController.update_mc_group` and the flood-group set-up shell out to `simple_switch_CLI`. They appear only as the list of `McGroup(id, ports)` values that would be programmed.
- `Topology.get_tunnel_node` picks a node at random and is not modelled. A domain's tunnel node is stored data.
- The graph library's choice among shortest paths of equal length is not modelled; `sp` stands for any such choice.
- `IPv4Controller.load_static_rules` reads JSON files, so the static rules are a parameter.
- The `Configuration` key-value store is reduced to parameters: the switch roster with its `ingress` flags, `protection`, `update`, `port_update` and `system_done`. Reading `protection` when it is unset raises `ConfigurationNotFound`.
- Event handlers are opaque ids. A parameter says whether each handler returns, raises `TypeError` or raises something else. What a handler does when called is not modelled.
  - A `trigger` from inside a handler (the `log_to_input` report) is counted, not expanded.
  - The `RLock` around the controller's `trigger` is left out, because the model is sequential.
- `Controller-Implementation/libs/core/Device.py` is not part of this model. The neighbour-to-port map follows the local controller's `Device.py`, and `Switch.py` builds on it.
- Devices.ResetBfrMapping: on a switch that has no domain-0 id, the source stores `{0: None}`; the model answers -1 instead. This cannot happen, because every constructed switch has a domain-0 id.
- MacController.MacInstalled: the final table is stated only when no two neighbours share a port. With a shared port, the two rules share a key and the later one wins.
- MacController.RulesInstalled: the same distinct-ports hypothesis as MacController.MacInstalled.
- MacController.MacRerunSilent: the same distinct-ports hypothesis as MacController.MacInstalled.
- Python 2 iterates dictionaries and sets in hash order, which depends on the hash values and on the table's history. The model fixes insertion order for dictionaries and first-occurrence order for `list(set(...))` (`Seqs.Dedup`). Membership facts do not depend on this choice; the facts that do are listed below.
- EncapRules.EncapInstalled: the header stated for each address is the one of the domain that comes last in first-occurrence order. The source installs the header of whichever domain `list(set(domains))` lists last, which for small ids in CPython 2.7 is usually the largest. `EncapRules.EncapInstalledAnyOrder` states what holds for every order.
- EncapRules.EncapOverFinal: the rule it names as final follows the same first-occurrence order of the domains as EncapRules.EncapInstalled.
- EncapRules.EncapFinals: the last-domain rule it lists follows the same first-occurrence order of the domains as EncapRules.EncapInstalled.
- GroupController.AssignNumbered: the group numbers follow the insertion order of `mcgrp_to_port`, where Python 2 numbers groups in the dictionary's hash order. Which groups exist and their ports do not depend on it.
- Events.RunAllRetries: the exact call list is stated only when every `TypeError` retry returns. When a retry raises, `Events.RunAll` states that the exception escapes the loop.
- BierController.OwnDecap: a host registered under the switch's name would answer -1 where `get_bfr_id(0)` raises AttributeError. The names it is given are those of connected switches. Each of these registered itself as a `Switch` on connecting (Controller-Implementation/libs/core/SwitchConnection.py:19-20), and a host is registered only under its own name.
- TunnelController.DecapRules: a host registered under the switch's name would answer -1 in each of its domains where `get_bfr_id` raises AttributeError. The names it is given are those of configured switches, which register themselves as for BierController.OwnDecap.

## Findings

| source | as written | input that shows it | evidently intended | confidence | as-written member | corrected member |
|---|---|---|---|---|---|---|
| Local-Controller/libs/TableEntryManager.py:148-160 | `remove_invalid_entries` iterates over the live table list and removes from that list, so the entry after each removed one is never examined | a table holding two entries with match fields `{dst: 1}` and `{dst: 2}`, and an empty valid list: only the first is removed | every entry whose match fields are not valid is removed, as the global manager does by iterating a copy | not executed | LocalTableEntryManager.LiveRemovalSkipsNeighbour | LocalTableEntryManager.RemoveInvalidExact |
| Controller-Implementation/libs/controller/BierController.py:310-320 | the handler catches `ConfigurationNotFound`, which the module never imports | a port-update event with the `update` option unset: evaluating the handler raises `NameError` and no switch is updated | an unset option is ignored and every connected switch is updated | not executed | BierController.UnsetOptionRaises | BierController.UpdateWithImport |

`LocalTableEntryManager.RemoveInvalidLive` models the loop as written, and `LocalTableEntryManager.LiveRemovalKeepsValid` shows that it never removes a valid entry. `LocalTableEntryManager.RemoveInvalidEntries` is the purge as written, and the local controllers' `Sync` uses it, so the MAC and multicast controllers are modelled with the defect. `LocalTableEntryManager.LiveKeepExact` states when the defect shows: the purge leaves only valid entries exactly when no two invalid entries are adjacent. `MacController.StaleMacRuleSurvives` exhibits a stale MAC rule that survives an update. The corrected purge is `LocalTableEntryManager.RemoveInvalidSnapshot`, which iterates a copy; `LocalTableEntryManager.RemoveInvalidExact` proves that it leaves exactly the valid entries, and `LocalTableEntryManager.SyncSnapshotExact` and `LocalTableEntryManager.SyncSnapshotIdempotent` state the pass built on it.

`BierController.Update` models `update` as written. The handler at line 319 names `ConfigurationNotFound`, which `BierController.py` never imports, so an unset `update` option on a port-update event raises `NameError` when the handler is looked up. `BierController.UnsetOptionRaises` shows that no switch is then updated. `BierController.UpdateWithImport` is the handler with the import, and the same lemma shows that it completes without error.
