/** The per-domain graph (the controller's `Topology` class): a directed graph over
    all devices of a domain, a switch-only subgraph, link numbering of the
    switch-to-switch edges, and the shortest-path table the graph library computes. */
module Topology {
  import opened Wrappers

  datatype Edge = Edge(src: string, dst: string)

  /** A directed graph as the graph library keeps it: nodes and edges in insertion order. */
  datatype Graph = Graph(nodes: seq<string>, edges: seq<Edge>)

  const EmptyGraph := Graph([], [])

  /** Graphs built by `AddGraphNode`/`AddGraphEdge` from the empty graph have these. */
  ghost predicate WellFormedGraph(g: Graph) {
    && (forall i, j :: 0 <= i < j < |g.nodes| ==> g.nodes[i] != g.nodes[j])
    && (forall i, j :: 0 <= i < j < |g.edges| ==> g.edges[i] != g.edges[j])
    && (forall e :: e in g.edges ==> e.src in g.nodes && e.dst in g.nodes)
  }

  /** `add_node` of the graph library: no effect on a known node. */
  function AddGraphNode(g: Graph, n: string): (r: Graph)
    ensures r.edges == g.edges
    ensures forall m :: m in r.nodes <==> m in g.nodes || m == n
    ensures WellFormedGraph(g) ==> WellFormedGraph(r)
  {
    if n in g.nodes then g else g.(nodes := g.nodes + [n])
  }

  /** `add_edge` of the graph library: adds missing endpoints, then the edge if new. */
  function AddGraphEdge(g: Graph, a: string, b: string): (r: Graph)
    ensures forall m :: m in r.nodes <==> m in g.nodes || m == a || m == b
    ensures forall e :: e in r.edges <==> e in g.edges || e == Edge(a, b)
    ensures WellFormedGraph(g) ==> WellFormedGraph(r)
  {
    var h := AddGraphNode(AddGraphNode(g, a), b);
    if Edge(a, b) in h.edges then h else h.(edges := h.edges + [Edge(a, b)])
  }

  datatype Topology = Topology(
    id: int,
    graph: Graph,
    switchGraph: Graph,
    lastId: int,
    linkNumber: int,
    links: map<string, int>)

  /** `Topology(identifier)`: empty graphs, counter 0, next link number 1. */
  function NewTopology(id: int): (t: Topology)
    ensures Valid(t) && t.id == id && t.lastId == 0
    ensures t.graph.nodes == [] && t.links == map[]
  {
    Topology(id, EmptyGraph, EmptyGraph, 0, 1, map[])
  }

  /** Names starting with 'h' are hosts. */
  predicate IsHostName(n: string) {
    |n| > 0 && n[0] == 'h'
  }

  /** The key of a link in the link-number dictionary: "a-b". */
  function LinkName(a: string, b: string): string {
    a + "-" + b
  }

  /** The bookkeeping every topology built by the operations below keeps. */
  ghost predicate Valid(t: Topology) {
    GraphsValid(t) && LinksValid(t)
  }

  /** Both graphs are well formed and the switch graph holds exactly the edges
      of the full graph that touch no host. */
  ghost predicate GraphsValid(t: Topology) {
    && WellFormedGraph(t.graph)
    && WellFormedGraph(t.switchGraph)
    && (forall e :: e in t.switchGraph.edges <==> e in t.graph.edges && !IsHostName(e.src) && !IsHostName(e.dst))
  }

  /** Link numbers 1 .. linkNumber-1 are in use, one per switch edge, distinct,
      and only switch edges have one. */
  ghost predicate LinksValid(t: Topology) {
    && t.linkNumber == |t.switchGraph.edges| + 1
    && (forall e :: e in t.switchGraph.edges ==> LinkName(e.src, e.dst) in t.links)
    && (forall k :: k in t.links ==> exists e :: e in t.switchGraph.edges && k == LinkName(e.src, e.dst))
    && (forall k :: k in t.links ==> 1 <= t.links[k] < t.linkNumber)
    && (forall k1, k2 :: k1 in t.links && k2 in t.links && k1 != k2 ==> t.links[k1] != t.links[k2])
  }

  /** `Topology.add_edge`. A new edge between two non-hosts also enters the switch
      graph and receives the next link number; a known edge changes nothing. */
  function AddEdge(t: Topology, a: string, b: string): (r: Topology)
    ensures Edge(a, b) in t.graph.edges ==> r == t
    ensures forall e :: e in r.graph.edges <==> e in t.graph.edges || e == Edge(a, b)
    ensures WellFormedGraph(t.graph) ==>
      forall m :: m in r.graph.nodes <==> m in t.graph.nodes || m == a || m == b
    ensures Edge(a, b) !in t.graph.edges && !IsHostName(a) && !IsHostName(b) ==>
      && r.links == t.links[LinkName(a, b) := t.linkNumber]
      && r.linkNumber == t.linkNumber + 1
    ensures IsHostName(a) || IsHostName(b) ==>
      r.links == t.links && r.linkNumber == t.linkNumber && r.switchGraph == t.switchGraph
    ensures r.id == t.id && r.lastId == t.lastId
    ensures Valid(t) ==> Valid(r)
  {
    if Edge(a, b) in t.graph.edges then t
    else
      var g := AddGraphEdge(t.graph, a, b);
      if IsHostName(a) || IsHostName(b) then
        t.(graph := g)
      else
        var r := t.(graph := g,
                     switchGraph := AddGraphEdge(t.switchGraph, a, b),
                     links := t.links[LinkName(a, b) := t.linkNumber],
                     linkNumber := t.linkNumber + 1);
        assert Valid(t) ==> Valid(r) by {
          if Valid(t) {
            AddSwitchEdgeGraphs(t, a, b, r);
            assert Edge(a, b) !in t.switchGraph.edges;
            AddSwitchEdgeLinks(t, a, b, r);
          }
        }
        r
  }

  lemma AddSwitchEdgeGraphs(t: Topology, a: string, b: string, r: Topology)
    requires GraphsValid(t)
    requires Edge(a, b) !in t.graph.edges && !IsHostName(a) && !IsHostName(b)
    requires r.graph == AddGraphEdge(t.graph, a, b)
    requires r.switchGraph == AddGraphEdge(t.switchGraph, a, b)
    ensures GraphsValid(r)
  {
  }

  lemma AddSwitchEdgeLinks(t: Topology, a: string, b: string, r: Topology)
    requires LinksValid(t)
    requires r.switchGraph.edges == t.switchGraph.edges + [Edge(a, b)]
    requires r.links == t.links[LinkName(a, b) := t.linkNumber]
    requires r.linkNumber == t.linkNumber + 1
    ensures LinksValid(r)
  {
    assert r.linkNumber == |r.switchGraph.edges| + 1;
    forall e | e in r.switchGraph.edges
      ensures LinkName(e.src, e.dst) in r.links
    {
      if e != Edge(a, b) {
        assert e in t.switchGraph.edges;
      }
    }
    forall k | k in r.links
      ensures exists e :: e in r.switchGraph.edges && k == LinkName(e.src, e.dst)
    {
      if k == LinkName(a, b) {
        assert Edge(a, b) in r.switchGraph.edges;
      } else {
        assert k in t.links;
        var e :| e in t.switchGraph.edges && k == LinkName(e.src, e.dst);
        assert e in r.switchGraph.edges;
      }
    }
    forall k | k in r.links
      ensures 1 <= r.links[k] < r.linkNumber
    {
      if k != LinkName(a, b) {
        assert k in t.links;
      }
    }
    forall k1, k2 | k1 in r.links && k2 in r.links && k1 != k2
      ensures r.links[k1] != r.links[k2]
    {
      if k1 != LinkName(a, b) && k2 != LinkName(a, b) {
        assert k1 in t.links && k2 in t.links;
      } else if k1 == LinkName(a, b) {
        assert k2 in t.links;
      } else {
        assert k1 in t.links;
      }
    }
  }

  /** `Topology.add_node`: every node enters the full graph; it enters the switch
      graph exactly when its name is on the configured switch roster. */
  function AddNode(t: Topology, n: string, roster: seq<string>): (r: Topology)
    ensures forall m :: m in r.graph.nodes <==> m in t.graph.nodes || m == n
    ensures n in roster ==> forall m :: m in r.switchGraph.nodes <==> m in t.switchGraph.nodes || m == n
    ensures n !in roster ==> r.switchGraph == t.switchGraph
    ensures r.graph.edges == t.graph.edges && r.switchGraph.edges == t.switchGraph.edges
    ensures r.links == t.links && r.linkNumber == t.linkNumber && r.id == t.id
    ensures Valid(t) ==> Valid(r)
  {
    var g := AddGraphNode(t.graph, n);
    if n in roster then t.(graph := g, switchGraph := AddGraphNode(t.switchGraph, n))
    else t.(graph := g)
  }

  /** `Topology.get_incoming_adjacencies`: the link names "a-n" of the switch-graph
      edges a->n, in edge order. */
  function IncomingAdjacencies(t: Topology, n: string): (r: seq<string>)
    ensures forall s :: s in r <==> exists e :: e in t.switchGraph.edges && e.dst == n && s == LinkName(e.src, n)
  {
    IncomingOf(t.switchGraph.edges, n)
  }

  function IncomingOf(edges: seq<Edge>, n: string): (r: seq<string>)
    ensures forall s :: s in r <==> exists e :: e in edges && e.dst == n && s == LinkName(e.src, n)
    ensures |r| <= |edges|
  {
    if edges == [] then []
    else
      var rest := IncomingOf(edges[1..], n);
      assert forall e :: e in edges <==> e == edges[0] || e in edges[1..];
      if edges[0].dst == n then [LinkName(edges[0].src, n)] + rest else rest
  }

  /** `increment_last_id` */
  function IncrementLastId(t: Topology): (r: Topology)
    ensures r.lastId == t.lastId + 1 && r == t.(lastId := r.lastId)
  {
    t.(lastId := t.lastId + 1)
  }

  /** `reset_last_id` */
  function ResetLastId(t: Topology): (r: Topology)
    ensures r.lastId == 0 && r == t.(lastId := 0)
  {
    t.(lastId := 0)
  }

  /** Re-adding an edge is a no-op, so `add_edge` is idempotent. */
  lemma AddEdgeIdempotent(t: Topology, a: string, b: string)
    ensures AddEdge(AddEdge(t, a, b), a, b) == AddEdge(t, a, b)
  {
    assert Edge(a, b) in AddEdge(t, a, b).graph.edges;
  }

  /** Link numbers are handed out 1, 2, 3, ... in discovery order: the k-th new
      switch-to-switch edge added to a fresh topology carries number k. */
  lemma {:induction false} LinkNumbersInDiscoveryOrder(id: int, pairs: seq<Edge>)
    requires forall i :: 0 <= i < |pairs| ==> !IsHostName(pairs[i].src) && !IsHostName(pairs[i].dst)
    requires forall i, j :: 0 <= i < j < |pairs| ==> pairs[i] != pairs[j]
    requires forall i, j :: 0 <= i < j < |pairs| ==>
      LinkName(pairs[i].src, pairs[i].dst) != LinkName(pairs[j].src, pairs[j].dst)
    ensures AddEdges(NewTopology(id), pairs).linkNumber == |pairs| + 1
    ensures forall i :: 0 <= i < |pairs| ==>
      && LinkName(pairs[i].src, pairs[i].dst) in AddEdges(NewTopology(id), pairs).links
      && AddEdges(NewTopology(id), pairs).links[LinkName(pairs[i].src, pairs[i].dst)] == i + 1
  {
    if pairs != [] {
      var front, last := pairs[..|pairs| - 1], pairs[|pairs| - 1];
      DiscoveryPrefix(pairs, front, last);
      LinkNumbersInDiscoveryOrder(id, front);
      LinkNumbersStep(AddEdges(NewTopology(id), front), front, last);
    }
  }

  /** The conditions of `LinkNumbersInDiscoveryOrder` carry over to all edges
      but the last, and the last edge is none of them. */
  lemma DiscoveryPrefix(pairs: seq<Edge>, front: seq<Edge>, last: Edge)
    requires |pairs| >= 1 && front == pairs[..|pairs| - 1] && last == pairs[|pairs| - 1]
    requires forall i :: 0 <= i < |pairs| ==> !IsHostName(pairs[i].src) && !IsHostName(pairs[i].dst)
    requires forall i, j :: 0 <= i < j < |pairs| ==> pairs[i] != pairs[j]
    requires forall i, j :: 0 <= i < j < |pairs| ==>
      LinkName(pairs[i].src, pairs[i].dst) != LinkName(pairs[j].src, pairs[j].dst)
    ensures pairs == front + [last] && last !in front
    ensures !IsHostName(last.src) && !IsHostName(last.dst)
    ensures forall i :: 0 <= i < |front| ==> !IsHostName(front[i].src) && !IsHostName(front[i].dst)
    ensures forall i, j :: 0 <= i < j < |front| ==> front[i] != front[j]
    ensures forall i, j :: 0 <= i < j < |front| ==>
      LinkName(front[i].src, front[i].dst) != LinkName(front[j].src, front[j].dst)
    ensures forall i :: 0 <= i < |front| ==> LinkName(front[i].src, front[i].dst) != LinkName(last.src, last.dst)
  {
    assert forall i :: 0 <= i < |front| ==> front[i] == pairs[i];
  }

  /** One step of `LinkNumbersInDiscoveryOrder`: a new switch-to-switch edge with
      a fresh link name takes the next number and leaves the earlier ones. */
  lemma LinkNumbersStep(t0: Topology, front: seq<Edge>, last: Edge)
    requires !IsHostName(last.src) && !IsHostName(last.dst) && last !in t0.graph.edges
    requires t0.linkNumber == |front| + 1
    requires forall i :: 0 <= i < |front| ==> LinkName(front[i].src, front[i].dst) != LinkName(last.src, last.dst)
    requires forall i :: 0 <= i < |front| ==>
      && LinkName(front[i].src, front[i].dst) in t0.links
      && t0.links[LinkName(front[i].src, front[i].dst)] == i + 1
    ensures var t, pairs := AddEdge(t0, last.src, last.dst), front + [last];
      && t.linkNumber == |pairs| + 1
      && forall i :: 0 <= i < |pairs| ==>
        && LinkName(pairs[i].src, pairs[i].dst) in t.links
        && t.links[LinkName(pairs[i].src, pairs[i].dst)] == i + 1
  {
    var pairs := front + [last];
    var t := AddEdge(t0, last.src, last.dst);
    assert t.links == t0.links[LinkName(last.src, last.dst) := |pairs|];
    forall i | 0 <= i < |pairs|
      ensures LinkName(pairs[i].src, pairs[i].dst) in t.links
      ensures t.links[LinkName(pairs[i].src, pairs[i].dst)] == i + 1
    {
      if i < |front| {
        assert pairs[i] == front[i];
      }
    }
  }

  /** Adds the edges in order: the last edge is added to the topology built
      from the ones before it. */
  function AddEdges(t: Topology, pairs: seq<Edge>): (r: Topology)
    ensures forall e :: e in r.graph.edges <==> e in t.graph.edges || e in pairs
    ensures r.id == t.id && r.lastId == t.lastId
    decreases |pairs|
  {
    if pairs == [] then t
    else
      var front := pairs[..|pairs| - 1];
      assert pairs == front + [pairs[|pairs| - 1]];
      assert forall e :: e in pairs <==> e in front || e == pairs[|pairs| - 1];
      AddEdge(AddEdges(t, front), pairs[|pairs| - 1].src, pairs[|pairs| - 1].dst)
  }

  /** One row of the shortest-path dictionary of a source: a destination and the
      node list from the source to it. */
  datatype Route = Route(dest: string, path: seq<string>)

  /** `dict(all_pairs_shortest_path(graph))`: source -> rows in the library's order. */
  type PathTable = map<string, seq<Route>>

  /** `paths[source].get(dest)` */
  function RouteTo(rows: seq<Route>, dest: string): (r: Option<seq<string>>)
    ensures r.None? ==> forall x :: x in rows ==> x.dest != dest
  {
    if rows == [] then None
    else if rows[0].dest == dest then Some(rows[0].path)
    else RouteTo(rows[1..], dest)
  }

  /** A walk along edges of g. */
  ghost predicate IsPath(g: Graph, p: seq<string>) {
    && |p| >= 1
    && (forall i :: 0 <= i < |p| ==> p[i] in g.nodes)
    && forall i :: 0 <= i < |p| - 1 ==> Edge(p[i], p[i + 1]) in g.edges
  }

  /** What the shortest-path routine promises: every node is a source; every row is
      a path from its source to its destination and no path between them is shorter;
      every reachable node has a row. The routine itself is a parameter of the model. */
  ghost predicate IsShortestPathTable(g: Graph, table: PathTable) {
    && (forall u :: u in g.nodes ==> u in table)
    && (forall u, i :: u in table && 0 <= i < |table[u]| ==>
          && IsPath(g, table[u][i].path)
          && table[u][i].path[0] == u
          && table[u][i].path[|table[u][i].path| - 1] == table[u][i].dest
          && RouteTo(table[u], table[u][i].dest) == Some(table[u][i].path)
          && forall p :: IsPath(g, p) && p[0] == u && p[|p| - 1] == table[u][i].dest ==>
               |p| >= |table[u][i].path|)
    && (forall u, p :: u in table && IsPath(g, p) && p[0] == u ==> RouteTo(table[u], p[|p| - 1]).Some?)
  }

  /** A path found in a row list is the path of one of its rows. */
  lemma {:induction false} RouteToIn(rows: seq<Route>, dest: string)
    ensures RouteTo(rows, dest).Some? ==> exists i :: 0 <= i < |rows| && rows[i] == Route(dest, RouteTo(rows, dest).value)
  {
    if rows != [] && rows[0].dest != dest {
      RouteToIn(rows[1..], dest);
      if RouteTo(rows, dest).Some? {
        var i :| 0 <= i < |rows[1..]| && rows[1..][i] == Route(dest, RouteTo(rows, dest).value);
        assert rows[i + 1] == rows[1..][i];
      }
    }
  }

  /** Every node reachable from a node of the graph has a row in its table. */
  lemma ReachableHasRoute(g: Graph, table: PathTable, p: seq<string>)
    requires IsShortestPathTable(g, table)
    requires IsPath(g, p)
    ensures p[0] in table && RouteTo(table[p[0]], p[|p| - 1]).Some?
  {
  }

  /** From a path between two different nodes, the table has a row toward the end
      whose second node is a neighbour of the start. */
  lemma NextHopOnPath(g: Graph, table: PathTable, p: seq<string>)
    requires IsShortestPathTable(g, table)
    requires IsPath(g, p) && p[0] != p[|p| - 1]
    ensures p[0] in table && table[p[0]] != []
    ensures RouteTo(table[p[0]], p[|p| - 1]).Some?
    ensures var q := RouteTo(table[p[0]], p[|p| - 1]).value;
      |q| >= 2 && Edge(p[0], q[1]) in g.edges && q[1] in g.nodes
  {
    ReachableHasRoute(g, table, p);
    PathToOtherHasNextHop(g, table, p[0], p[|p| - 1]);
    RouteIsPath(g, table, p[0], p[|p| - 1]);
    var q := RouteTo(table[p[0]], p[|p| - 1]).value;
    assert Edge(q[0], q[1]) in g.edges;
  }

  /** A table row is a path that starts at its source and ends at its destination. */
  lemma RouteIsPath(g: Graph, table: PathTable, u: string, v: string)
    requires IsShortestPathTable(g, table)
    requires u in table && RouteTo(table[u], v).Some?
    ensures var p := RouteTo(table[u], v).value;
      IsPath(g, p) && p[0] == u && p[|p| - 1] == v
  {
    RouteToIn(table[u], v);
  }

  /** A node's shortest path to itself is the one-node list. */
  lemma SelfPathIsSingleton(g: Graph, table: PathTable, u: string)
    requires IsShortestPathTable(g, table)
    requires u in g.nodes
    ensures RouteTo(table[u], u) == Some([u])
  {
    assert IsPath(g, [u]);
    RouteToIn(table[u], u);
    var p := RouteTo(table[u], u).value;
    var i :| 0 <= i < |table[u]| && table[u][i] == Route(u, p);
    assert IsPath(g, p) && p[0] == u;
    assert |[u]| >= |p|;
    assert p == [u];
  }

  /** A path to a different node has at least two nodes, so it has a next hop. */
  lemma PathToOtherHasNextHop(g: Graph, table: PathTable, u: string, v: string)
    requires IsShortestPathTable(g, table)
    requires u in table && RouteTo(table[u], v).Some? && u != v
    ensures |RouteTo(table[u], v).value| >= 2
    ensures Edge(u, RouteTo(table[u], v).value[1]) in g.edges
  {
    RouteIsPath(g, table, u, v);
  }
}
