/**
 * `createGraph` and `dfsComponent` of js/treeTypes.js. The first pass reads
 * every entry as an edge `source,target[,weight]` or a standalone name,
 * registers each name once (`nodes` and `allNodes`), appends one edge per
 * edge entry and links the target below the source (and, when undirected,
 * the source below the target) unless a child of that name is there
 * already. The second pass collects the components by depth-first search
 * from every node of `allNodes` not yet visited.
 *
 * A node of `allNodes` is named by its position in that list: `children`,
 * the registry and the edges' node references hold positions.
 */
module Graphs {
  import opened Lists
  import opened JsText

  /** A graph node: its name and its `children`, as positions in `allNodes`. */
  datatype GraphNode = GraphNode(value: string, children: seq<nat>)

  /** An entry of `edges`, with `sourceNode` and `targetNode` as positions in `allNodes`. */
  datatype Edge = Edge(source: string, target: string, weight: string, sourceNode: nat, targetNode: nat, isDirected: bool)

  /** What the first pass has built: `allNodes`, the `nodes` registry (name to position) and `edges`. */
  datatype Graph = Graph(allNodes: seq<GraphNode>, registry: map<string, nat>, edges: seq<Edge>)

  /** How the first pass reads one entry. */
  datatype Entry = EdgeEntry(source: string, target: string, weight: string) | Standalone(name: string) | Blank

  /**
   * An entry whose trimmed text has a comma is an edge: the trimmed first
   * and second comma fields name its ends, and its weight is the trimmed
   * third field when the graph is weighted and that field is present and
   * not empty, `"1"` otherwise. Any other non-blank entry is a standalone
   * name (its trimmed text).
   */
  function ParseEntry(value: string, isWeighted: bool): (r: Entry)
    ensures r.EdgeEntry? <==> ',' in Trim(value)
    ensures r.Blank? <==> IsBlank(value)
    ensures r.Standalone? ==> r.name == Trim(value) && r.name != [] && ',' !in r.name
    ensures r.EdgeEntry? ==> ',' !in r.source && ',' !in r.target
    ensures r.EdgeEntry? && !isWeighted ==> r.weight == "1"
  {
    var input := Trim(value);
    if ',' in input then
      SplitAtLeastTwo(input, ',');
      var parts := Split(input, ',');
      TrimWithin(parts[0]);
      TrimWithin(parts[1]);
      var weight := if isWeighted && |parts| > 2 && parts[2] != "" then Trim(parts[2]) else "1";
      EdgeEntry(Trim(parts[0]), Trim(parts[1]), weight)
    else if input != "" then Standalone(input)
    else Blank
  }

  /** `children.some(child => child.value === name)`. */
  predicate HasChildNamed(nodes: seq<GraphNode>, children: seq<nat>, name: string) {
    exists k | 0 <= k < |children| :: children[k] < |nodes| && nodes[children[k]].value == name
  }

  /** `if (!nodes[name]) { nodes[name] = new Node(name, null, null); allNodes.push(nodes[name]); }` */
  function Register(g: Graph, name: string): Graph {
    if name in g.registry then g
    else g.(allNodes := g.allNodes + [GraphNode(name, [])], registry := g.registry[name := |g.allNodes|])
  }

  /** Appends node `to`, named `name`, to the children of `from` unless a child named `name` is there. */
  function AddChild(nodes: seq<GraphNode>, from: nat, to: nat, name: string): (r: seq<GraphNode>)
    requires from < |nodes|
    ensures |r| == |nodes| && forall x | 0 <= x < |r| :: r[x].value == nodes[x].value
  {
    if HasChildNamed(nodes, nodes[from].children, name) then nodes
    else nodes[from := nodes[from].(children := nodes[from].children + [to])]
  }

  /** Every child is a node of the list. */
  ghost predicate ChildrenInRange(nodes: seq<GraphNode>) {
    forall x, y | 0 <= x < |nodes| && y in nodes[x].children :: y < |nodes|
  }

  /**
   * The registry names each node of `allNodes` by its position, so no two
   * nodes share a name; no node lists a child twice; every edge refers to
   * the nodes its names are registered to.
   */
  ghost predicate Wf(g: Graph) {
    && (forall name | name in g.registry :: g.registry[name] < |g.allNodes| && g.allNodes[g.registry[name]].value == name)
    && (forall x | 0 <= x < |g.allNodes| :: g.allNodes[x].value in g.registry && g.registry[g.allNodes[x].value] == x)
    && ChildrenInRange(g.allNodes)
    && (forall x | 0 <= x < |g.allNodes| :: Distinct(g.allNodes[x].children))
    && (forall e | 0 <= e < |g.edges| ::
          && g.edges[e].sourceNode < |g.allNodes| && g.allNodes[g.edges[e].sourceNode].value == g.edges[e].source
          && g.edges[e].targetNode < |g.allNodes| && g.allNodes[g.edges[e].targetNode].value == g.edges[e].target)
  }

  /** One entry of the first pass, as `ParseEntry` reads it. */
  function Step(g: Graph, entry: Entry, isDirected: bool): Graph
    requires Wf(g)
  {
    match entry
    case EdgeEntry(source, target, weight) =>
      RegisterWf(g, source);
      RegisterWf(Register(g, source), target);
      var g1 := Register(Register(g, source), target);
      var s, t := g1.registry[source], g1.registry[target];
      LinkEdge(g1, Edge(source, target, weight, s, t, isDirected))
    case Standalone(name) => Register(g, name)
    case Blank => g
  }

  /**
   * Records edge `e`: the source node gets the target node as a child, and
   * the target node gets the source node when the edge is undirected, each
   * unless a child of that name is there already.
   */
  function LinkEdge(g: Graph, e: Edge): Graph
    requires e.sourceNode < |g.allNodes| && e.targetNode < |g.allNodes|
  {
    var nodes1 := AddChild(g.allNodes, e.sourceNode, e.targetNode, e.target);
    var nodes2 := if !e.isDirected then AddChild(nodes1, e.targetNode, e.sourceNode, e.source) else nodes1;
    Graph(nodes2, g.registry, g.edges + [e])
  }

  /** The first pass over the entries `values`. */
  function Build(values: seq<string>, isWeighted: bool, isDirected: bool): (g: Graph)
    ensures Wf(g)
  {
    if |values| == 0 then Graph([], map[], [])
    else
      var prev := Build(values[..|values| - 1], isWeighted, isDirected);
      var entry := ParseEntry(values[|values| - 1], isWeighted);
      StepWf(prev, entry, isDirected);
      Step(prev, entry, isDirected)
  }

  lemma RegisterWf(g: Graph, name: string)
    requires Wf(g)
    ensures Wf(Register(g, name)) && name in Register(g, name).registry
    ensures Register(g, name).edges == g.edges
    ensures |g.allNodes| <= |Register(g, name).allNodes|
    ensures forall x | 0 <= x < |g.allNodes| :: Register(g, name).allNodes[x] == g.allNodes[x]
  {
  }

  /** Children named by value: in a well-formed graph a child named like node `t` is node `t`. */
  lemma HasChildNamedIff(nodes: seq<GraphNode>, from: nat, t: nat, g: Graph)
    requires Wf(g) && nodes == g.allNodes && from < |nodes| && t < |nodes|
    ensures HasChildNamed(nodes, nodes[from].children, nodes[t].value) <==> t in nodes[from].children
  {
    var ch := nodes[from].children;
    if HasChildNamed(nodes, ch, nodes[t].value) {
      var k :| 0 <= k < |ch| && ch[k] < |nodes| && nodes[ch[k]].value == nodes[t].value;
      assert ch[k] == g.registry[nodes[t].value] == t;
    }
    if t in ch {
      var k :| 0 <= k < |ch| && ch[k] == t;
    }
  }

  lemma AddChildWf(g: Graph, from: nat, to: nat, e: Edge)
    requires Wf(g) && from < |g.allNodes| && to < |g.allNodes|
    requires e.sourceNode < |g.allNodes| && g.allNodes[e.sourceNode].value == e.source
    requires e.targetNode < |g.allNodes| && g.allNodes[e.targetNode].value == e.target
    ensures Wf(Graph(AddChild(g.allNodes, from, to, g.allNodes[to].value), g.registry, g.edges + [e]))
    ensures var nodes := AddChild(g.allNodes, from, to, g.allNodes[to].value);
      && |nodes| == |g.allNodes|
      && (forall x | 0 <= x < |nodes| :: nodes[x].value == g.allNodes[x].value)
      && (forall x, y | 0 <= x < |nodes| :: y in nodes[x].children <==> y in g.allNodes[x].children || (x == from && y == to))
  {
    HasChildNamedIff(g.allNodes, from, to, g);
  }

  /** Recording an edge keeps the graph well formed, and adds exactly the links the edge makes. */
  lemma LinkEdgeWf(g: Graph, e: Edge)
    requires Wf(g)
    requires e.sourceNode < |g.allNodes| && g.allNodes[e.sourceNode].value == e.source
    requires e.targetNode < |g.allNodes| && g.allNodes[e.targetNode].value == e.target
    ensures var g' := LinkEdge(g, e);
      && Wf(g') && |g'.allNodes| == |g.allNodes| && g'.registry == g.registry && g'.edges == g.edges + [e]
      && (forall x | 0 <= x < |g'.allNodes| :: g'.allNodes[x].value == g.allNodes[x].value)
      && (forall x, y | 0 <= x < |g'.allNodes| :: y in g'.allNodes[x].children <==> y in g.allNodes[x].children || EdgeJoins(e, x, y))
  {
    var s, t := e.sourceNode, e.targetNode;
    AddChildWf(g, s, t, e);
    if !e.isDirected {
      var nodes1 := AddChild(g.allNodes, s, t, e.target);
      AddChildWf(Graph(nodes1, g.registry, g.edges + [e]), t, s, e);
      assert Graph(AddChild(nodes1, t, s, e.source), g.registry, g.edges + [e] + [e]).edges[..|g.edges| + 1] == g.edges + [e];
    }
  }

  lemma StepWf(g: Graph, entry: Entry, isDirected: bool)
    requires Wf(g)
    ensures Wf(Step(g, entry, isDirected))
  {
    match entry
    case EdgeEntry(source, target, weight) =>
      RegisterWf(g, source);
      RegisterWf(Register(g, source), target);
      var g1 := Register(Register(g, source), target);
      LinkEdgeWf(g1, Edge(source, target, weight, g1.registry[source], g1.registry[target], isDirected));
    case Standalone(name) => RegisterWf(g, name);
    case Blank =>
  }

  // ---------------------------------------------------------------------
  // What the first pass builds

  /** The names of the nodes, in `allNodes` order. */
  function Names(nodes: seq<GraphNode>): seq<string> {
    seq(|nodes|, x requires 0 <= x < |nodes| => nodes[x].value)
  }

  /** The names an entry mentions: an edge its source, then its target; a standalone entry its name. */
  function EntryNames(e: Entry): seq<string> {
    match e
    case EdgeEntry(source, target, _) => [source, target]
    case Standalone(name) => [name]
    case Blank => []
  }

  /** The weight switch does not change which names an entry mentions. */
  lemma EntryNamesIgnoreWeight(value: string, isWeighted: bool)
    ensures EntryNames(ParseEntry(value, isWeighted)) == EntryNames(ParseEntry(value, false))
  {
  }

  /** The names the entries mention, left to right. */
  function Mentions(values: seq<string>): seq<string> {
    if |values| == 0 then []
    else Mentions(values[..|values| - 1]) + EntryNames(ParseEntry(values[|values| - 1], false))
  }

  /** The registry holds the names of `allNodes`, which are the first occurrences in `m`. */
  ghost predicate NamedAfter(g: Graph, m: seq<string>) {
    && Names(g.allNodes) == FirstOccurrences(m)
    && forall x :: x in g.registry <==> x in FirstOccurrences(m)
  }

  /**
   * `allNodes` lists every mentioned name once, in the order of first
   * mention, and the registry holds exactly those names.
   */
  lemma {:induction false} BuildNames(values: seq<string>, isWeighted: bool, isDirected: bool)
    ensures Names(Build(values, isWeighted, isDirected).allNodes) == FirstOccurrences(Mentions(values))
    ensures forall name :: name in Build(values, isWeighted, isDirected).registry <==> name in Mentions(values)
    ensures Distinct(Names(Build(values, isWeighted, isDirected).allNodes))
  {
    BuildNamedAfter(values, isWeighted, isDirected);
    FirstOccurrencesSpec(Mentions(values));
  }

  lemma {:induction false} BuildNamedAfter(values: seq<string>, isWeighted: bool, isDirected: bool)
    ensures NamedAfter(Build(values, isWeighted, isDirected), Mentions(values))
  {
    if |values| > 0 {
      var init, v := values[..|values| - 1], values[|values| - 1];
      BuildNamedAfter(init, isWeighted, isDirected);
      EntryNamesIgnoreWeight(v, isWeighted);
      StepNames(Build(init, isWeighted, isDirected), ParseEntry(v, isWeighted), isDirected, Mentions(init));
    }
  }

  lemma StepNames(g: Graph, entry: Entry, isDirected: bool, m: seq<string>)
    requires Wf(g) && NamedAfter(g, m)
    ensures NamedAfter(Step(g, entry, isDirected), m + EntryNames(entry))
  {
    match entry
    case EdgeEntry(source, target, weight) =>
      RegisterWf(g, source);
      RegisterNames(g, source, m);
      RegisterNames(Register(g, source), target, m + [source]);
      assert m + [source] + [target] == m + [source, target];
      var g1 := Register(Register(g, source), target);
      var g' := Step(g, entry, isDirected);
      assert g'.registry == g1.registry;
      assert Names(g'.allNodes) == Names(g1.allNodes);
    case Standalone(name) =>
      RegisterNames(g, name, m);
    case Blank =>
      assert m + [] == m;
  }

  /** Registering a name extends `allNodes` exactly as first-occurrence order does. */
  lemma RegisterNames(g: Graph, name: string, m: seq<string>)
    requires Wf(g) && NamedAfter(g, m)
    ensures NamedAfter(Register(g, name), m + [name])
  {
    FirstOccurrencesSnoc(m, name);
    if name !in g.registry {
      assert Names(Register(g, name).allNodes) == Names(g.allNodes) + [name];
    }
  }

  /** The edge entries among the values, in order. */
  function EdgeEntries(values: seq<string>, isWeighted: bool): (r: seq<Entry>)
    ensures forall k | 0 <= k < |r| :: r[k].EdgeEntry?
  {
    if |values| == 0 then []
    else
      var e := ParseEntry(values[|values| - 1], isWeighted);
      EdgeEntries(values[..|values| - 1], isWeighted) + (if e.EdgeEntry? then [e] else [])
  }

  /** The edges record the edge entries `es`, in order, with their registered nodes. */
  ghost predicate EdgesRecord(g: Graph, es: seq<Entry>, isDirected: bool)
    requires forall k | 0 <= k < |es| :: es[k].EdgeEntry?
  {
    && |g.edges| == |es|
    && forall e | 0 <= e < |es| ::
         && g.edges[e].source == es[e].source && g.edges[e].target == es[e].target
         && g.edges[e].weight == es[e].weight && g.edges[e].isDirected == isDirected
         && g.edges[e].source in g.registry && g.edges[e].sourceNode == g.registry[g.edges[e].source]
         && g.edges[e].target in g.registry && g.edges[e].targetNode == g.registry[g.edges[e].target]
  }

  /**
   * Each edge entry appends exactly one edge, in order, with the entry's
   * names and weight, the graph's directedness, and the registered nodes of
   * its two names.
   */
  lemma {:induction false} BuildEdges(values: seq<string>, isWeighted: bool, isDirected: bool)
    ensures EdgesRecord(Build(values, isWeighted, isDirected), EdgeEntries(values, isWeighted), isDirected)
  {
    if |values| > 0 {
      BuildEdges(values[..|values| - 1], isWeighted, isDirected);
      StepEdges(Build(values[..|values| - 1], isWeighted, isDirected), ParseEntry(values[|values| - 1], isWeighted), isDirected,
        EdgeEntries(values[..|values| - 1], isWeighted));
    }
  }

  lemma StepEdges(g: Graph, entry: Entry, isDirected: bool, es: seq<Entry>)
    requires Wf(g) && (forall k | 0 <= k < |es| :: es[k].EdgeEntry?) && EdgesRecord(g, es, isDirected)
    ensures EdgesRecord(Step(g, entry, isDirected), es + (if entry.EdgeEntry? then [entry] else []), isDirected)
  {
    StepRecords(g, entry, isDirected);
    EdgesGrow(g, Step(g, entry, isDirected), entry, isDirected, es);
  }

  lemma EdgesGrow(g: Graph, g': Graph, entry: Entry, isDirected: bool, es: seq<Entry>)
    requires (forall k | 0 <= k < |es| :: es[k].EdgeEntry?) && EdgesRecord(g, es, isDirected)
    requires forall name | name in g.registry :: name in g'.registry && g'.registry[name] == g.registry[name]
    requires !entry.EdgeEntry? ==> g'.edges == g.edges
    requires entry.EdgeEntry? ==>
      && entry.source in g'.registry && entry.target in g'.registry
      && g'.edges == g.edges + [Edge(entry.source, entry.target, entry.weight,
                                     g'.registry[entry.source], g'.registry[entry.target], isDirected)]
    ensures EdgesRecord(g', es + (if entry.EdgeEntry? then [entry] else []), isDirected)
  {
    var es' := es + (if entry.EdgeEntry? then [entry] else []);
    forall e | 0 <= e < |es| ensures g'.edges[e] == g.edges[e] && es'[e] == es[e] {
    }
  }

  /** One entry keeps every registered name where it was, and appends an edge exactly for an edge entry. */
  lemma StepRecords(g: Graph, entry: Entry, isDirected: bool)
    requires Wf(g)
    ensures var g' := Step(g, entry, isDirected);
      && (forall name | name in g.registry :: name in g'.registry && g'.registry[name] == g.registry[name])
      && (!entry.EdgeEntry? ==> g'.edges == g.edges)
      && (entry.EdgeEntry? ==>
            && entry.source in g'.registry && entry.target in g'.registry
            && g'.edges == g.edges + [Edge(entry.source, entry.target, entry.weight,
                                           g'.registry[entry.source], g'.registry[entry.target], isDirected)])
  {
    match entry
    case EdgeEntry(source, target, weight) =>
      RegisterWf(g, source);
      RegisterWf(Register(g, source), target);
    case Standalone(name) =>
      RegisterWf(g, name);
    case Blank =>
  }

  /** Edge `e` joins `x` to `y`: from its source to its target, or back when it is undirected. */
  predicate EdgeJoins(e: Edge, x: nat, y: nat) {
    (e.sourceNode == x && e.targetNode == y) || (!e.isDirected && e.targetNode == x && e.sourceNode == y)
  }

  /** Some edge joins `x` to `y`. */
  predicate Joined(edges: seq<Edge>, x: nat, y: nat) {
    exists e | 0 <= e < |edges| :: EdgeJoins(edges[e], x, y)
  }

  /** The children links are exactly the links the edges make. */
  ghost predicate Adjacency(g: Graph) {
    forall x, y | 0 <= x < |g.allNodes| && 0 <= y < |g.allNodes| :: y in g.allNodes[x].children <==> Joined(g.edges, x, y)
  }

  lemma RegisterAdjacency(g: Graph, name: string)
    requires Wf(g) && Adjacency(g)
    ensures Adjacency(Register(g, name))
  {
    if name !in g.registry {
      var g' := Register(g, name);
      var n := |g.allNodes|;
      forall x, y | 0 <= x < |g'.allNodes| && 0 <= y < |g'.allNodes|
        ensures y in g'.allNodes[x].children <==> Joined(g'.edges, x, y)
      {
        if x == n || y == n {
          assert !Joined(g.edges, x, y);
          if x < n {
            assert y !in g.allNodes[x].children;
          }
        }
      }
    }
  }

  lemma StepAdjacency(g: Graph, entry: Entry, isDirected: bool)
    requires Wf(g) && Adjacency(g)
    ensures Adjacency(Step(g, entry, isDirected))
  {
    match entry
    case EdgeEntry(source, target, weight) =>
      RegisterWf(g, source);
      RegisterAdjacency(g, source);
      RegisterWf(Register(g, source), target);
      RegisterAdjacency(Register(g, source), target);
      var g1 := Register(Register(g, source), target);
      var e := Edge(source, target, weight, g1.registry[source], g1.registry[target], isDirected);
      LinkEdgeWf(g1, e);
      AdjacencyGrow(g1, LinkEdge(g1, e).allNodes, e);
    case Standalone(name) =>
      RegisterAdjacency(g, name);
    case Blank =>
  }

  /** Adding the links edge `e` makes keeps the children and the edges in step. */
  lemma AdjacencyGrow(g1: Graph, nodes2: seq<GraphNode>, e: Edge)
    requires Adjacency(g1) && |nodes2| == |g1.allNodes|
    requires forall x, y | 0 <= x < |nodes2| :: y in nodes2[x].children <==> y in g1.allNodes[x].children || EdgeJoins(e, x, y)
    ensures Adjacency(Graph(nodes2, g1.registry, g1.edges + [e]))
  {
    forall x, y | 0 <= x < |nodes2| && 0 <= y < |nodes2|
      ensures y in nodes2[x].children <==> Joined(g1.edges + [e], x, y)
    {
      JoinedSnoc(g1.edges, e, x, y);
    }
  }

  lemma JoinedSnoc(edges: seq<Edge>, e: Edge, x: nat, y: nat)
    ensures Joined(edges + [e], x, y) <==> Joined(edges, x, y) || EdgeJoins(e, x, y)
  {
    if Joined(edges, x, y) {
      var k :| 0 <= k < |edges| && EdgeJoins(edges[k], x, y);
      assert (edges + [e])[k] == edges[k];
    }
    if EdgeJoins(e, x, y) {
      assert (edges + [e])[|edges|] == e;
    }
  }

  /**
   * `y` is a child of `x` exactly when some edge goes from `x` to `y`, or
   * some undirected edge goes from `y` to `x`.
   */
  lemma {:induction false} BuildAdjacency(values: seq<string>, isWeighted: bool, isDirected: bool)
    ensures Adjacency(Build(values, isWeighted, isDirected))
  {
    if |values| > 0 {
      BuildAdjacency(values[..|values| - 1], isWeighted, isDirected);
      StepAdjacency(Build(values[..|values| - 1], isWeighted, isDirected), ParseEntry(values[|values| - 1], isWeighted), isDirected);
    }
  }

  /** In an undirected graph every link has its reverse. */
  lemma UndirectedSymmetric(values: seq<string>, isWeighted: bool, x: nat, y: nat)
    requires var g := Build(values, isWeighted, false); x < |g.allNodes| && y < |g.allNodes|
    requires y in Build(values, isWeighted, false).allNodes[x].children
    ensures x in Build(values, isWeighted, false).allNodes[y].children
  {
    var g := Build(values, isWeighted, false);
    BuildAdjacency(values, isWeighted, false);
    BuildEdges(values, isWeighted, false);
    var e :| 0 <= e < |g.edges| && EdgeJoins(g.edges[e], x, y);
    assert EdgeJoins(g.edges[e], y, x);
  }

  // ---------------------------------------------------------------------
  // Components

  /** The nodes no component holds yet. */
  ghost function Unvisited(nodes: seq<GraphNode>, visited: set<nat>): set<nat> {
    set x | 0 <= x < |nodes| && x !in visited
  }

  /**
   * From `visited`/`component` to `visited'`/`component'` the search only
   * appended nodes not visited before, each once, and marked exactly those
   * as visited.
   */
  ghost predicate Grows(nodes: seq<GraphNode>, visited: set<nat>, component: seq<nat>, visited': set<nat>, component': seq<nat>) {
    && visited <= visited'
    && (forall x | x in visited' :: x < |nodes|)
    && |component| <= |component'| && component'[..|component|] == component
    && Distinct(component'[|component|..])
    && (forall x | x in component'[|component|..] :: x !in visited)
    && visited' == visited + Elements(component'[|component|..])
  }

  /** Every child of the listed nodes is visited. */
  ghost predicate Closed(nodes: seq<GraphNode>, added: seq<nat>, visited: set<nat>) {
    forall x, y | x in added && 0 <= x < |nodes| && y in nodes[x].children :: y in visited
  }

  /**
   * `p` is a walk along `children` links that starts at `p[0]` and never
   * enters a node of `avoid`.
   */
  ghost predicate Walk(nodes: seq<GraphNode>, p: seq<nat>, avoid: set<nat>)
    decreases |p|
  {
    && |p| > 0 && p[0] < |nodes| && p[0] !in avoid
    && (|p| == 1 || (p[1] in nodes[p[0]].children && Walk(nodes, p[1..], avoid)))
  }

  /** Some walk outside `avoid` leads from `from` to `x`. */
  ghost predicate ReachableAvoiding(nodes: seq<GraphNode>, from: nat, x: nat, avoid: set<nat>) {
    exists p :: Walk(nodes, p, avoid) && p[0] == from && p[|p| - 1] == x
  }

  /** Every listed node is reachable from `from` outside `avoid`. */
  ghost predicate AllReachable(nodes: seq<GraphNode>, from: nat, added: seq<nat>, avoid: set<nat>) {
    forall x | x in added :: ReachableAvoiding(nodes, from, x, avoid)
  }

  /** A walk that avoids a set avoids every smaller set. */
  lemma {:induction false} WalkAvoidsLess(nodes: seq<GraphNode>, p: seq<nat>, avoid: set<nat>, less: set<nat>)
    requires Walk(nodes, p, avoid) && less <= avoid
    ensures Walk(nodes, p, less)
    decreases |p|
  {
    if |p| > 1 {
      WalkAvoidsLess(nodes, p[1..], avoid, less);
    }
  }

  /** A node outside `visited` reaches whatever its child reaches outside a larger set. */
  lemma ReachThroughChild(nodes: seq<GraphNode>, node: nat, child: nat, x: nat, visited: set<nat>, v1: set<nat>)
    requires node < |nodes| && node !in visited && child in nodes[node].children && visited <= v1
    requires ReachableAvoiding(nodes, child, x, v1)
    ensures ReachableAvoiding(nodes, node, x, visited)
  {
    var p :| Walk(nodes, p, v1) && p[0] == child && p[|p| - 1] == x;
    WalkAvoidsLess(nodes, p, v1, visited);
    var q := [node] + p;
    assert q[1..] == p;
    assert Walk(nodes, q, visited);
  }

  /** The nodes a search from a child appends are reachable from the searching node. */
  lemma ReachedStep(nodes: seq<GraphNode>, node: nat, child: nat, v0: set<nat>, c0: seq<nat>, v1: set<nat>, c1: seq<nat>, v2: set<nat>, c2: seq<nat>)
    requires Grows(nodes, v0, c0, v1, c1) && Grows(nodes, v1, c1, v2, c2)
    requires node < |nodes| && node !in v0 && child in nodes[node].children
    requires AllReachable(nodes, node, c1[|c0|..], v0) && AllReachable(nodes, child, c2[|c1|..], v1)
    ensures AllReachable(nodes, node, c2[|c0|..], v0)
  {
    GrowsTrans(nodes, v0, c0, v1, c1, v2, c2);
    forall x | x in c2[|c0|..] ensures ReachableAvoiding(nodes, node, x, v0) {
      if x !in c1[|c0|..] {
        assert x in c2[|c1|..];
        ReachThroughChild(nodes, node, child, x, v0, v1);
      }
    }
  }

  lemma GrowsTrans(nodes: seq<GraphNode>, v0: set<nat>, c0: seq<nat>, v1: set<nat>, c1: seq<nat>, v2: set<nat>, c2: seq<nat>)
    requires Grows(nodes, v0, c0, v1, c1) && Grows(nodes, v1, c1, v2, c2)
    ensures Grows(nodes, v0, c0, v2, c2)
    ensures c2[|c0|..] == c1[|c0|..] + c2[|c1|..]
  {
    var a, b := c1[|c0|..], c2[|c1|..];
    assert c2 == c1 + b;
    assert c2[|c0|..] == a + b;
    forall x | x in a ensures x in v1 {
      assert x in Elements(a);
    }
    DistinctConcat(a, b, []);
    assert a + b + [] == a + b;
    ElementsConcat(a, b);
  }

  lemma ElementsConcat<T>(a: seq<T>, b: seq<T>)
    ensures Elements(a + b) == Elements(a) + Elements(b)
  {
  }

  /**
   * `dfsComponent(node, visited, component, ...)`: unless `node` is visited,
   * marks it, appends it to the component, and searches from each of its
   * children in turn that is not visited yet. Afterwards `node` is visited,
   * and every node the call appended has all its children visited.
   */
  method DfsComponent(nodes: seq<GraphNode>, node: nat, visited: set<nat>, component: seq<nat>)
    returns (visited': set<nat>, component': seq<nat>)
    requires ChildrenInRange(nodes) && node < |nodes|
    requires forall x | x in visited :: x < |nodes|
    ensures Grows(nodes, visited, component, visited', component')
    ensures Closed(nodes, component'[|component|..], visited')
    ensures AllReachable(nodes, node, component'[|component|..], visited)
    ensures node in visited'
    ensures node in visited ==> visited' == visited && component' == component
    ensures node !in visited ==> |component'| > |component| && component'[|component|] == node
    decreases Unvisited(nodes, visited)
  {
    if node in visited {
      return visited, component;
    }
    visited' := visited + {node};
    component' := component + [node];
    assert component'[|component|..] == [node];
    assert Walk(nodes, [node], visited);
    var children := nodes[node].children;
    var k := 0;
    while k < |children|
      invariant 0 <= k <= |children|
      invariant Searching(nodes, node, visited, component, visited', component')
      invariant forall j | 0 <= j < k :: children[j] in visited'
      invariant AllReachable(nodes, node, component'[|component|..], visited)
    {
      var child := children[k];
      assert child in nodes[node].children;
      if child !in visited' {
        assert Unvisited(nodes, visited') < Unvisited(nodes, visited) by {
          assert node in Unvisited(nodes, visited) - Unvisited(nodes, visited');
        }
        ghost var v1, c1 := visited', component';
        visited', component' := DfsComponent(nodes, child, visited', component');
        SearchStep(nodes, node, visited, component, v1, c1, visited', component');
        ReachedStep(nodes, node, child, visited, component, v1, c1, visited', component');
      }
      k := k + 1;
    }
    SearchDone(nodes, node, visited, component, visited', component');
  }

  /** Once every child of `node` is visited, the whole search is closed. */
  lemma SearchDone(nodes: seq<GraphNode>, node: nat, visited: set<nat>, component: seq<nat>, visited': set<nat>, component': seq<nat>)
    requires Searching(nodes, node, visited, component, visited', component')
    requires forall y | y in nodes[node].children :: y in visited'
    ensures Closed(nodes, component'[|component|..], visited')
  {
    assert component'[|component|..] == [node] + component'[|component| + 1..];
  }

  /**
   * The search from `node` is under way: `node` was appended first, and
   * every node appended after it has all its children visited.
   */
  ghost predicate Searching(nodes: seq<GraphNode>, node: nat, visited: set<nat>, component: seq<nat>, visited': set<nat>, component': seq<nat>) {
    && Grows(nodes, visited, component, visited', component')
    && node in visited' && |component'| > |component| && component'[|component|] == node
    && Closed(nodes, component'[|component| + 1..], visited')
  }

  /** A search from a child continues the search from `node`. */
  lemma SearchStep(nodes: seq<GraphNode>, node: nat, v0: set<nat>, c0: seq<nat>, v1: set<nat>, c1: seq<nat>, v2: set<nat>, c2: seq<nat>)
    requires Searching(nodes, node, v0, c0, v1, c1)
    requires Grows(nodes, v1, c1, v2, c2) && Closed(nodes, c2[|c1|..], v2)
    ensures Searching(nodes, node, v0, c0, v2, c2)
  {
    GrowsTrans(nodes, v0, c0, v1, c1, v2, c2);
    assert c2 == c1 + c2[|c1|..];
    assert c2[|c0| + 1..] == c1[|c0| + 1..] + c2[|c1|..];
  }

  /** The nodes the components hold. */
  function Union(comps: seq<seq<nat>>): set<nat> {
    if |comps| == 0 then {} else Union(comps[..|comps| - 1]) + Elements(comps[|comps| - 1])
  }

  /**
   * The components found so far: each non-empty, without repeats, starting
   * with its smallest node, sharing no node with an earlier one, reachable
   * from its first node without entering an earlier one, holding every child
   * of its nodes in itself or an earlier one; and their first nodes increase.
   */
  ghost predicate ComponentsFound(nodes: seq<GraphNode>, comps: seq<seq<nat>>) {
    && (forall c | 0 <= c < |comps| :: |comps[c]| > 0 && Distinct(comps[c]))
    && (forall c | 0 <= c < |comps| :: AllReachable(nodes, comps[c][0], comps[c], Union(comps[..c])))
    && (forall c, x | 0 <= c < |comps| && x in comps[c] :: x < |nodes| && comps[c][0] <= x && x !in Union(comps[..c]))
    && (forall c, x, y | 0 <= c < |comps| && x in comps[c] && 0 <= x < |nodes| && y in nodes[x].children :: y in Union(comps[..c + 1]))
    && (forall c, d | 0 <= c < d < |comps| :: comps[c][0] < comps[d][0])
  }

  lemma UnionSnoc(comps: seq<seq<nat>>, comp: seq<nat>)
    ensures forall c | 0 <= c <= |comps| :: (comps + [comp])[..c] == comps[..c]
    ensures Union(comps + [comp]) == Union(comps) + Elements(comp)
  {
    assert (comps + [comp])[..|comps|] == comps;
  }

  lemma UnionPrefix(comps: seq<seq<nat>>)
    ensures Union(comps[..|comps|]) == Union(comps)
  {
    assert comps[..|comps|] == comps;
  }

  /** A node of component `c` is among the nodes of the components before `d`, for `c < d`. */
  lemma {:induction false} InUnionPrefix(comps: seq<seq<nat>>, c: nat, d: nat, x: nat)
    requires c < d <= |comps| && x in comps[c]
    ensures x in Union(comps[..d])
  {
    var p := comps[..d];
    assert p[..d - 1] == comps[..d - 1];
    if c < d - 1 {
      InUnionPrefix(comps, c, d - 1, x);
    } else {
      assert x in Elements(p[d - 1]);
    }
  }

  /** A node of the components before `d` lies in one of them. */
  lemma {:induction false} UnionMember(comps: seq<seq<nat>>, d: nat, x: nat) returns (c: nat)
    requires d <= |comps| && x in Union(comps[..d])
    ensures c < d && x in comps[c]
  {
    var p := comps[..d];
    assert p[..d - 1] == comps[..d - 1];
    if x in Elements(p[d - 1]) {
      c := d - 1;
    } else {
      c := UnionMember(comps, d - 1, x);
    }
  }

  /** The search from `k`, the first node no component holds, returned the new component `comp`. */
  ghost predicate NextComponent(nodes: seq<GraphNode>, comps: seq<seq<nat>>, k: nat, visited': set<nat>, comp: seq<nat>) {
    && k < |nodes| && k !in Union(comps) && (forall x | 0 <= x < k :: x in Union(comps))
    && (forall c | 0 <= c < |comps| :: |comps[c]| > 0 && comps[c][0] < k)
    && Grows(nodes, Union(comps), [], visited', comp) && Closed(nodes, comp, visited')
    && |comp| > 0 && comp[0] == k && AllReachable(nodes, k, comp, Union(comps))
  }

  /** Appending the component the search found from `k`, the first unvisited node. */
  lemma AddComponent(nodes: seq<GraphNode>, comps: seq<seq<nat>>, k: nat, visited': set<nat>, comp: seq<nat>)
    requires ComponentsFound(nodes, comps) && NextComponent(nodes, comps, k, visited', comp)
    ensures ComponentsFound(nodes, comps + [comp]) && visited' == Union(comps + [comp])
  {
    UnionSnoc(comps, comp);
    assert comp[0..] == comp;
    AddComponentNodes(nodes, comps, k, visited', comp);
    AddComponentClosed(nodes, comps, k, visited', comp);
    AddComponentReached(nodes, comps, k, visited', comp);
  }

  lemma AddComponentReached(nodes: seq<GraphNode>, comps: seq<seq<nat>>, k: nat, visited': set<nat>, comp: seq<nat>)
    requires ComponentsFound(nodes, comps) && NextComponent(nodes, comps, k, visited', comp)
    ensures var comps' := comps + [comp];
      forall c | 0 <= c < |comps'| :: AllReachable(nodes, comps'[c][0], comps'[c], Union(comps'[..c]))
  {
    UnionSnoc(comps, comp);
    var comps' := comps + [comp];
    forall c | 0 <= c < |comps'| ensures AllReachable(nodes, comps'[c][0], comps'[c], Union(comps'[..c])) {
      if c < |comps| {
        assert comps'[c] == comps[c];
      }
    }
  }

  lemma AddComponentNodes(nodes: seq<GraphNode>, comps: seq<seq<nat>>, k: nat, visited': set<nat>, comp: seq<nat>)
    requires ComponentsFound(nodes, comps) && NextComponent(nodes, comps, k, visited', comp)
    ensures var comps' := comps + [comp];
      && (forall c | 0 <= c < |comps'| :: |comps'[c]| > 0 && Distinct(comps'[c]))
      && (forall c, x | 0 <= c < |comps'| && x in comps'[c] :: x < |nodes| && comps'[c][0] <= x && x !in Union(comps'[..c]))
      && (forall c, d | 0 <= c < d < |comps'| :: comps'[c][0] < comps'[d][0])
  {
    UnionSnoc(comps, comp);
    NewComponentMembers(nodes, comps, k, visited', comp);
    var comps' := comps + [comp];
    forall c, x | 0 <= c < |comps'| && x in comps'[c]
      ensures x < |nodes| && comps'[c][0] <= x && x !in Union(comps'[..c])
    {
      assert comps'[..c] == comps[..c];
      if c < |comps| {
        assert comps'[c] == comps[c];
      }
    }
  }

  /** The new component holds unvisited nodes only, none before `k`. */
  lemma NewComponentMembers(nodes: seq<GraphNode>, comps: seq<seq<nat>>, k: nat, visited': set<nat>, comp: seq<nat>)
    requires NextComponent(nodes, comps, k, visited', comp)
    ensures forall x | x in comp :: x < |nodes| && comp[0] <= x && x !in Union(comps)
  {
    assert comp[0..] == comp;
    forall x | x in comp ensures x < |nodes| && comp[0] <= x && x !in Union(comps) {
      assert x in comp[0..];
      assert x in visited';
    }
  }

  lemma AddComponentClosed(nodes: seq<GraphNode>, comps: seq<seq<nat>>, k: nat, visited': set<nat>, comp: seq<nat>)
    requires forall c, x, y | 0 <= c < |comps| && x in comps[c] && 0 <= x < |nodes| && y in nodes[x].children :: y in Union(comps[..c + 1])
    requires Grows(nodes, Union(comps), [], visited', comp) && Closed(nodes, comp, visited')
    ensures var comps' := comps + [comp];
      forall c, x, y | 0 <= c < |comps'| && x in comps'[c] && 0 <= x < |nodes| && y in nodes[x].children :: y in Union(comps'[..c + 1])
  {
    UnionSnoc(comps, comp);
    var comps' := comps + [comp];
    assert comp[0..] == comp;
    assert comps'[..|comps| + 1] == comps';
    forall c, x, y | 0 <= c < |comps'| && x in comps'[c] && 0 <= x < |nodes| && y in nodes[x].children
      ensures y in Union(comps'[..c + 1])
    {
      if c < |comps| {
        assert comps'[c] == comps[c];
        assert comps'[..c + 1] == comps[..c + 1];
      }
    }
  }

  /**
   * The body of the first loop of `createGraph` for one entry: register the
   * names not yet registered, append the edge, and link the target below the
   * source (and, undirected, the source below the target) unless a child of
   * that name is there already.
   */
  method ReadEntry(nodes: seq<GraphNode>, registry: map<string, nat>, edges: seq<Edge>, value: string, isWeighted: bool, isDirected: bool)
    returns (nodes': seq<GraphNode>, registry': map<string, nat>, edges': seq<Edge>)
    requires Wf(Graph(nodes, registry, edges))
    ensures Graph(nodes', registry', edges') == Step(Graph(nodes, registry, edges), ParseEntry(value, isWeighted), isDirected)
  {
    nodes', registry', edges' := nodes, registry, edges;
    match ParseEntry(value, isWeighted) {
    case EdgeEntry(source, target, weight) =>
      if source !in registry' {
        registry' := registry'[source := |nodes'|];
        nodes' := nodes' + [GraphNode(source, [])];
      }
      if target !in registry' {
        registry' := registry'[target := |nodes'|];
        nodes' := nodes' + [GraphNode(target, [])];
      }
      var s, t := registry'[source], registry'[target];
      edges' := edges' + [Edge(source, target, weight, s, t, isDirected)];
      if !HasChildNamed(nodes', nodes'[s].children, target) {
        nodes' := nodes'[s := nodes'[s].(children := nodes'[s].children + [t])];
      }
      if !isDirected && !HasChildNamed(nodes', nodes'[t].children, source) {
        nodes' := nodes'[t := nodes'[t].(children := nodes'[t].children + [s])];
      }
    case Standalone(name) =>
      if name !in registry' {
        registry' := registry'[name := |nodes'|];
        nodes' := nodes' + [GraphNode(name, [])];
      }
    case Blank =>
    }
  }

  /**
   * The second pass of `createGraph`: for each node of `allNodes` in order
   * that no component holds yet, the nodes `dfsComponent` collects from it
   * form the next component.
   */
  method CollectComponents(nodes: seq<GraphNode>) returns (components: seq<seq<nat>>)
    requires ChildrenInRange(nodes)
    ensures ComponentsFound(nodes, components)
    ensures forall x | 0 <= x < |nodes| :: x in Union(components)
  {
    var visited: set<nat> := {};
    components := [];
    var k := 0;
    while k < |nodes|
      invariant 0 <= k <= |nodes| && Scanned(nodes, components, visited, k)
    {
      components, visited := ScanNode(nodes, components, visited, k);
      k := k + 1;
    }
  }

  /** The second pass has looked at the nodes before `k`, and `visited` holds the nodes of the components found. */
  ghost predicate Scanned(nodes: seq<GraphNode>, components: seq<seq<nat>>, visited: set<nat>, k: nat) {
    && ComponentsFound(nodes, components) && visited == Union(components)
    && (forall x | x in visited :: x < |nodes|)
    && (forall x | 0 <= x < k :: x in visited)
    && (forall c | 0 <= c < |components| :: components[c][0] < k)
  }

  /** One round of the second pass: a search from node `k` unless a component holds it already. */
  method ScanNode(nodes: seq<GraphNode>, components: seq<seq<nat>>, visited: set<nat>, k: nat)
    returns (components': seq<seq<nat>>, visited': set<nat>)
    requires ChildrenInRange(nodes) && k < |nodes| && Scanned(nodes, components, visited, k)
    ensures Scanned(nodes, components', visited', k + 1)
    ensures k in visited ==> components' == components && visited' == visited
    ensures k !in visited ==> |components'| == |components| + 1 && components'[..|components|] == components && components'[|components|][0] == k
  {
    components', visited' := components, visited;
    if k !in visited {
      var component;
      visited', component := DfsComponent(nodes, k, visited, []);
      ScannedNew(nodes, components, visited, k, visited', component);
      components' := components + [component];
    }
  }

  /** The search from an unvisited node `k` yields the next component, and the scan moves past `k`. */
  lemma ScannedNew(nodes: seq<GraphNode>, components: seq<seq<nat>>, visited: set<nat>, k: nat, visited': set<nat>, component: seq<nat>)
    requires k < |nodes| && k !in visited && Scanned(nodes, components, visited, k)
    requires Grows(nodes, visited, [], visited', component) && Closed(nodes, component[0..], visited')
    requires AllReachable(nodes, k, component[0..], visited) && |component| > 0 && component[0] == k
    ensures Scanned(nodes, components + [component], visited', k + 1)
  {
    NextFromScan(nodes, components, visited, k, visited', component);
    AddComponent(nodes, components, k, visited', component);
    var comps' := components + [component];
    assert forall c | 0 <= c < |comps'| :: comps'[c][0] < k + 1 by {
      forall c | 0 <= c < |comps'| ensures comps'[c][0] < k + 1 {
        if c < |components| {
          assert comps'[c] == components[c];
        }
      }
    }
    assert forall x | 0 <= x < k + 1 :: x in visited';
  }

  lemma NextFromScan(nodes: seq<GraphNode>, components: seq<seq<nat>>, visited: set<nat>, k: nat, visited': set<nat>, component: seq<nat>)
    requires k < |nodes| && k !in visited && Scanned(nodes, components, visited, k)
    requires Grows(nodes, visited, [], visited', component) && Closed(nodes, component[0..], visited')
    requires AllReachable(nodes, k, component[0..], visited) && |component| > 0 && component[0] == k
    ensures NextComponent(nodes, components, k, visited', component)
  {
    assert component[0..] == component;
  }

  /**
   * What `createGraph(arr)` leaves for the entries `values`: the graph the
   * first pass builds, and components that cover `allNodes`, each exactly
   * the nodes its first node reaches without entering an earlier component.
   * When the graph is undirected each component holds every child of its
   * nodes and is exactly the set of nodes connected to its first node.
   */
  ghost predicate CreatedGraph(values: seq<string>, isWeighted: bool, isDirected: bool, g: Graph, components: seq<seq<nat>>) {
    && g == Build(values, isWeighted, isDirected)
    && ComponentsFound(g.allNodes, components)
    && (forall x | 0 <= x < |g.allNodes| :: x in Union(components))
    && (forall c, x | 0 <= c < |components| ::
          x in components[c] <==> ReachableAvoiding(g.allNodes, components[c][0], x, Union(components[..c])))
    && (!isDirected ==>
          forall c, x, y | 0 <= c < |components| && x in components[c] && 0 <= x < |g.allNodes| && y in g.allNodes[x].children :: y in components[c])
    && (!isDirected ==>
          forall c, x | 0 <= c < |components| :: x in components[c] <==> ReachableAvoiding(g.allNodes, components[c][0], x, {}))
  }

  /**
   * `createGraph(arr)` for the entries `values` (`arr[i].value`), with the
   * weight and direction switches as parameters: the first pass builds
   * `Build(values, ...)`, the second collects the components. Every node
   * lies in exactly one component (the components cover `allNodes`, and a
   * node lies in no component after the first one holding it).
   */
  method CreateGraph(values: seq<string>, isWeighted: bool, isDirected: bool) returns (g: Graph, components: seq<seq<nat>>)
    ensures CreatedGraph(values, isWeighted, isDirected, g, components)
  {
    if |values| == 0 {
      return Graph([], map[], []), [];
    }
    g := ReadEntries(values, isWeighted, isDirected);
    components := CollectComponents(g.allNodes);
    ComponentIsReachSet(g.allNodes, components);
    if !isDirected {
      UndirectedClosed(values, isWeighted, components);
      UndirectedComponents(values, isWeighted, components);
    }
  }

  /** The first pass of `createGraph`: every entry is read in turn into `allNodes`, `nodeMap` and `edges`. */
  method ReadEntries(values: seq<string>, isWeighted: bool, isDirected: bool) returns (g: Graph)
    ensures g == Build(values, isWeighted, isDirected)
  {
    var nodes: seq<GraphNode> := [];
    var registry: map<string, nat> := map[];
    var edges: seq<Edge> := [];
    var i := 0;
    while i < |values|
      invariant 0 <= i <= |values|
      invariant Graph(nodes, registry, edges) == Build(values[..i], isWeighted, isDirected)
    {
      assert values[..i + 1][..i] == values[..i];
      nodes, registry, edges := ReadEntry(nodes, registry, edges, values[i], isWeighted, isDirected);
      i := i + 1;
    }
    assert values[..i] == values;
    g := Graph(nodes, registry, edges);
  }

  /** In an undirected graph a component holds every child of its nodes. */
  lemma UndirectedClosed(values: seq<string>, isWeighted: bool, comps: seq<seq<nat>>)
    requires ComponentsFound(Build(values, isWeighted, false).allNodes, comps)
    ensures var nodes := Build(values, isWeighted, false).allNodes;
      forall c, x, y | 0 <= c < |comps| && x in comps[c] && 0 <= x < |nodes| && y in nodes[x].children :: y in comps[c]
  {
    var nodes := Build(values, isWeighted, false).allNodes;
    forall c, x, y | 0 <= c < |comps| && x in comps[c] && 0 <= x < |nodes| && y in nodes[x].children
      ensures y in comps[c]
    {
      var d := UnionMember(comps, c + 1, y);
      if d < c {
        UndirectedSymmetric(values, isWeighted, x, y);
        assert y < |nodes|;
        var e := UnionMember(comps, d + 1, x);
        InUnionPrefix(comps, e, c, x);
        assert false;
      }
    }
  }

  /** A walk that starts in component `c` and avoids the earlier components stays in `c`. */
  lemma {:induction false} WalkInComponent(nodes: seq<GraphNode>, comps: seq<seq<nat>>, c: nat, p: seq<nat>)
    requires ComponentsFound(nodes, comps) && c < |comps|
    requires Walk(nodes, p, Union(comps[..c])) && p[0] in comps[c]
    ensures p[|p| - 1] in comps[c]
    decreases |p|
  {
    if |p| > 1 {
      var d := UnionMember(comps, c + 1, p[1]);
      if d < c {
        InUnionPrefix(comps, d, c, p[1]);
        assert false;
      }
      WalkInComponent(nodes, comps, c, p[1..]);
    }
  }

  /**
   * Each component is exactly what the search from its first node reaches
   * without entering an earlier component.
   */
  lemma ComponentIsReachSet(nodes: seq<GraphNode>, comps: seq<seq<nat>>)
    requires ComponentsFound(nodes, comps)
    ensures forall c, x | 0 <= c < |comps| :: x in comps[c] <==> ReachableAvoiding(nodes, comps[c][0], x, Union(comps[..c]))
  {
    forall c, x | 0 <= c < |comps| && ReachableAvoiding(nodes, comps[c][0], x, Union(comps[..c])) ensures x in comps[c] {
      var p :| Walk(nodes, p, Union(comps[..c])) && p[0] == comps[c][0] && p[|p| - 1] == x;
      WalkInComponent(nodes, comps, c, p);
    }
  }

  /** A walk that starts in a set closed under `children` stays in it. */
  lemma {:induction false} WalkStaysIn(nodes: seq<GraphNode>, comp: seq<nat>, p: seq<nat>)
    requires forall x, y | x in comp && 0 <= x < |nodes| && y in nodes[x].children :: y in comp
    requires Walk(nodes, p, {}) && p[0] in comp
    ensures p[|p| - 1] in comp
    decreases |p|
  {
    if |p| > 1 {
      WalkStaysIn(nodes, comp, p[1..]);
    }
  }

  /**
   * In an undirected graph each component is exactly the set of nodes
   * connected to its first node: its connected component.
   */
  lemma UndirectedComponents(values: seq<string>, isWeighted: bool, comps: seq<seq<nat>>)
    requires ComponentsFound(Build(values, isWeighted, false).allNodes, comps)
    ensures var nodes := Build(values, isWeighted, false).allNodes;
      forall c, x | 0 <= c < |comps| :: x in comps[c] <==> ReachableAvoiding(nodes, comps[c][0], x, {})
  {
    UndirectedClosed(values, isWeighted, comps);
    ClosedComponents(Build(values, isWeighted, false).allNodes, comps);
  }

  /** Components closed under `children` are exactly the sets of nodes their first nodes reach. */
  lemma ClosedComponents(nodes: seq<GraphNode>, comps: seq<seq<nat>>)
    requires ComponentsFound(nodes, comps)
    requires forall c, x, y | 0 <= c < |comps| && x in comps[c] && 0 <= x < |nodes| && y in nodes[x].children :: y in comps[c]
    ensures forall c, x | 0 <= c < |comps| :: x in comps[c] <==> ReachableAvoiding(nodes, comps[c][0], x, {})
  {
    forall c, x | 0 <= c < |comps| ensures x in comps[c] <==> ReachableAvoiding(nodes, comps[c][0], x, {}) {
      if x in comps[c] {
        assert ReachableAvoiding(nodes, comps[c][0], x, Union(comps[..c]));
        var p :| Walk(nodes, p, Union(comps[..c])) && p[0] == comps[c][0] && p[|p| - 1] == x;
        WalkAvoidsLess(nodes, p, Union(comps[..c]), {});
      }
      if ReachableAvoiding(nodes, comps[c][0], x, {}) {
        var p :| Walk(nodes, p, {}) && p[0] == comps[c][0] && p[|p| - 1] == x;
        WalkStaysIn(nodes, comps[c], p);
      }
    }
  }

  /** Some component holds `x`. */
  predicate InSomeComponent(comps: seq<seq<nat>>, x: nat) {
    exists c | 0 <= c < |comps| :: x in comps[c]
  }

  /**
   * Components that cover the nodes partition them: every node lies in one
   * component, and in no other.
   */
  lemma ComponentsPartition(nodes: seq<GraphNode>, comps: seq<seq<nat>>)
    requires ComponentsFound(nodes, comps) && forall x | 0 <= x < |nodes| :: x in Union(comps)
    ensures forall x | 0 <= x < |nodes| :: InSomeComponent(comps, x)
    ensures forall c, d, x | 0 <= c < |comps| && 0 <= d < |comps| && x in comps[c] && x in comps[d] :: c == d
  {
    forall x | 0 <= x < |nodes| ensures InSomeComponent(comps, x) {
      UnionPrefix(comps);
      var c := UnionMember(comps, |comps|, x);
    }
    forall c, d, x | 0 <= c < |comps| && 0 <= d < |comps| && x in comps[c] && x in comps[d] ensures c == d {
      if c < d {
        InUnionPrefix(comps, c, d, x);
      } else if d < c {
        InUnionPrefix(comps, d, c, x);
      }
    }
  }
}
