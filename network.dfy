/** The processed network data built by the `Graph` constructor of
    src/util.py and of the fresh-input path of src/outdated/util2.py:
    a synthetic root 0 feeding every substation, descendant sets,
    per-arc successor arcs, outgoing lists and downstream loads. */
module Network {
  import opened Lists
  import opened Reach
  import opened Sums

  /** An arc `(i, j)` from node `i` to node `j`. */
  type Arc = (int, int)

  /** A network node as produced by the generator: its id, its outage
      rate `theta`, its load `power`, and its client count (`-1` marks a
      substation). */
  datatype Node = Node(index: int, theta: real, power: real, clients: int)

  const Root: int := 0
  const SubstationClients: int := -1
  const RootNode: Node := Node(Root, 0.0, 0.0, 0)

  /** Everything the constructor stores. `outgoing` keeps the children
      of each node as a list, as src/util.py does; src/outdated/util2.py
      keeps the same children as a set. */
  datatype Network = Network(
    vertices: seq<int>,
    edges: seq<Arc>,
    substations: set<int>,
    successors: map<int, set<int>>,
    theta: map<int, real>,
    successorArcs: map<Arc, set<Arc>>,
    outgoing: map<int, seq<int>>,
    downstreamLoad: map<int, real>,
    indexNode: map<int, Node>,
    M: real)

  function Indices(nodes: seq<Node>): (r: seq<int>)
    ensures |r| == |nodes|
    ensures forall p | 0 <= p < |nodes| :: r[p] == nodes[p].index
  {
    seq(|nodes|, p requires 0 <= p < |nodes| => nodes[p].index)
  }

  /** What the constructor needs of its input: node ids are distinct and
      never the reserved root id, and every edge joins two listed nodes. */
  predicate WellFormedInput(nodes: seq<Node>, edges: seq<Arc>)
  {
    && Distinct(Indices(nodes))
    && Root !in Indices(nodes)
    && (forall e | e in edges :: e.0 in Indices(nodes) && e.1 in Indices(nodes))
  }

  /** The id-to-node dictionary built by a comprehension over the node
      list: a later node with the same id replaces an earlier one. */
  function IndexMap(nodes: seq<Node>): (m: map<int, Node>)
    ensures m.Keys == Elems(Indices(nodes))
  {
    if nodes == [] then map[]
    else
      var last := nodes[|nodes| - 1];
      assert Indices(nodes) == Indices(nodes[..|nodes| - 1]) + [last.index];
      IndexMap(nodes[..|nodes| - 1])[last.index := last]
  }

  lemma {:induction false} IndexMapDistinct(nodes: seq<Node>, p: int)
    requires Distinct(Indices(nodes)) && 0 <= p < |nodes|
    ensures IndexMap(nodes)[nodes[p].index] == nodes[p]
  {
    var n := |nodes| - 1;
    if p < n {
      assert Indices(nodes[..n]) == Indices(nodes)[..n];
      DistinctPrefix(Indices(nodes), n);
      IndexMapDistinct(nodes[..n], p);
      assert Indices(nodes)[p] != Indices(nodes)[n];
    }
  }

  /** The arcs `(0, s)` appended for every listed substation `s`, in list order. */
  function RootArcs(vs: seq<int>, idx: map<int, Node>): (r: seq<Arc>)
    requires Elems(vs) <= idx.Keys
    ensures forall a :: a in r <==> a.0 == Root && a.1 in vs && idx[a.1].clients == SubstationClients
  {
    if vs == [] then []
    else
      var last := vs[|vs| - 1];
      assert vs == vs[..|vs| - 1] + [last];
      RootArcs(vs[..|vs| - 1], idx) + (if idx[last].clients == SubstationClients then [(Root, last)] else [])
  }

  /** The node ids that are substations. */
  function Substations(idx: map<int, Node>): set<int>
  {
    set i | i in idx && idx[i].clients == SubstationClients
  }

  /** The heads `k` of arcs `(j, k)`, in the order of `vs`. */
  function Heads(vs: seq<int>, arcs: seq<Arc>, j: int): (r: seq<int>)
    ensures forall k :: k in r <==> k in vs && (j, k) in arcs
  {
    if vs == [] then []
    else
      var last := vs[|vs| - 1];
      assert vs == vs[..|vs| - 1] + [last];
      Heads(vs[..|vs| - 1], arcs, j) + (if (j, last) in arcs then [last] else [])
  }

  function OutgoingMap(vs: seq<int>, arcs: seq<Arc>): (out: map<int, seq<int>>)
    ensures out.Keys == Elems(vs)
    ensures forall j | j in out :: out[j] == Heads(vs, arcs, j)
  {
    map j | j in vs :: Heads(vs, arcs, j)
  }

  /** Every descendant over the outgoing lists is a listed node. */
  lemma DescWithinVertices(vs: seq<int>, out: map<int, seq<int>>)
    requires forall j | j in out :: forall k | k in out[j] :: k in vs
    ensures forall v :: Desc(ToSets(out), v) <= Elems(vs)
  {
    assert forall j | j in out :: forall k | k in out[j] :: k in Elems(vs);
    DescWithin(out, Elems(vs));
  }

  function SuccessorMap(vs: seq<int>, out: map<int, seq<int>>): (succ: map<int, set<int>>)
    requires forall j | j in out :: forall k | k in out[j] :: k in vs
    ensures succ.Keys == Elems(vs)
    ensures forall v | v in succ :: succ[v] == Descendants(ToSets(out), v) && succ[v] <= Elems(vs)
    ensures forall v | v in succ :: v !in succ[v]
  {
    DescWithinVertices(vs, out);
    map v | v in vs :: Descendants(ToSets(out), v)
  }

  /** The arcs whose two endpoints both lie at or below `j`. */
  function SuccessorArcs(arcs: seq<Arc>, succ: map<int, set<int>>, j: int): set<Arc>
    requires j in succ
  {
    set b | b in arcs && b.0 in succ[j] + {j} && b.1 in succ[j] + {j}
  }

  function SuccessorArcMap(arcs: seq<Arc>, succ: map<int, set<int>>): (sa: map<Arc, set<Arc>>)
    requires forall a | a in arcs :: a.1 in succ
    ensures sa.Keys == Elems(arcs)
    ensures forall a | a in sa :: sa[a] == SuccessorArcs(arcs, succ, a.1)
  {
    map a | a in arcs :: SuccessorArcs(arcs, succ, a.1)
  }

  function ThetaOf(idx: map<int, Node>): (theta: map<int, real>)
    ensures theta.Keys == idx.Keys
  {
    map i | i in idx :: idx[i].theta
  }

  function PowerOf(idx: map<int, Node>): (power: map<int, real>)
    ensures power.Keys == idx.Keys
  {
    map i | i in idx :: idx[i].power
  }

  /** Sum of `w` over `v` and its descendants, substations left out. */
  function BelowSum(vs: seq<int>, subs: set<int>, succ: map<int, set<int>>, w: map<int, real>, v: int): real
    requires v in succ && forall i | i in vs :: i in w
  {
    SumWhere(vs, (succ[v] + {v}) - subs, w)
  }

  function LoadMap(vs: seq<int>, subs: set<int>, succ: map<int, set<int>>, power: map<int, real>): (load: map<int, real>)
    requires Elems(vs) <= succ.Keys && forall i | i in vs :: i in power
    ensures load.Keys == Elems(vs)
    ensures forall v | v in load :: load[v] == BelowSum(vs, subs, succ, power, v)
  {
    map v | v in vs :: BelowSum(vs, subs, succ, power, v)
  }

  /** The key sets and containments every constructed network has. */
  predicate Consistent(net: Network)
  {
    && Distinct(net.vertices)
    && (forall a | a in net.edges :: a.0 in net.vertices && a.1 in net.vertices)
    && net.substations <= Elems(net.vertices)
    && net.indexNode.Keys == Elems(net.vertices)
    && net.theta.Keys == Elems(net.vertices)
    && net.downstreamLoad.Keys == Elems(net.vertices)
    && net.outgoing.Keys == Elems(net.vertices)
    && (forall j | j in net.outgoing :: forall k | k in net.outgoing[j] :: k in net.vertices)
    && net.successors.Keys == Elems(net.vertices)
    && (forall v | v in net.successors :: net.successors[v] <= Elems(net.vertices))
    && net.successorArcs.Keys == Elems(net.edges)
  }

  /** The relation along which everything downstream is computed. */
  function Children(net: Network): map<int, set<int>>
  {
    ToSets(net.outgoing)
  }

  /** A consistent network whose derived tables are what the constructor
      computes from its vertices, arcs and nodes. */
  predicate Valid(net: Network)
  {
    && Consistent(net)
    && net.substations == Substations(net.indexNode)
    && net.theta == ThetaOf(net.indexNode)
    && (forall j | j in net.outgoing :: net.outgoing[j] == Heads(net.vertices, net.edges, j))
    && (forall v | v in net.successors :: net.successors[v] == Descendants(Children(net), v))
    && (forall a | a in net.successorArcs :: net.successorArcs[a] == SuccessorArcs(net.edges, net.successors, a.1))
    && (forall v | v in net.downstreamLoad ::
          net.downstreamLoad[v] == BelowSum(net.vertices, net.substations, net.successors, PowerOf(net.indexNode), v))
  }

  /** The `Graph` constructor on fresh input. */
  function MakeNetwork(nodes: seq<Node>, edges: seq<Arc>): Network
    requires WellFormedInput(nodes, edges)
  {
    var idx0 := IndexMap(nodes);
    var arcs := edges + RootArcs(Indices(nodes), idx0);
    var idx := idx0[Root := RootNode];
    var vs := Indices(nodes) + [Root];
    var subs := Substations(idx);
    var out := OutgoingMap(vs, arcs);
    var succ := SuccessorMap(vs, out);
    var theta := ThetaOf(idx);
    Network(vs, arcs, subs, succ, theta, SuccessorArcMap(arcs, succ), out,
            LoadMap(vs, subs, succ, PowerOf(idx)), idx, 10.0 * SumWhere(vs, Elems(vs), theta))
  }

  lemma VerticesDistinct(nodes: seq<Node>)
    requires Distinct(Indices(nodes)) && Root !in Indices(nodes)
    ensures Distinct(Indices(nodes) + [Root])
  {
  }

  lemma MakeNetworkConsistent(nodes: seq<Node>, edges: seq<Arc>)
    requires WellFormedInput(nodes, edges)
    ensures var net := MakeNetwork(nodes, edges);
      && net.vertices == Indices(nodes) + [Root]
      && net.edges == edges + RootArcs(Indices(nodes), IndexMap(nodes))
      && Consistent(net)
  {
    MakeNetworkArcsInside(nodes, edges);
    MakeNetworkNodeKeys(nodes, edges);
    MakeNetworkTreeKeys(nodes, edges);
  }

  /** The vertex list has no repeats and every arc joins two vertices. */
  lemma MakeNetworkArcsInside(nodes: seq<Node>, edges: seq<Arc>)
    requires WellFormedInput(nodes, edges)
    ensures var net := MakeNetwork(nodes, edges);
      && net.vertices == Indices(nodes) + [Root]
      && net.edges == edges + RootArcs(Indices(nodes), IndexMap(nodes))
      && Distinct(net.vertices)
      && (forall a | a in net.edges :: a.0 in net.vertices && a.1 in net.vertices)
  {
    VerticesDistinct(nodes);
  }

  /** The node tables are keyed by the vertices. */
  lemma MakeNetworkNodeKeys(nodes: seq<Node>, edges: seq<Arc>)
    requires WellFormedInput(nodes, edges)
    ensures var net := MakeNetwork(nodes, edges);
      && net.substations <= Elems(net.vertices)
      && net.indexNode.Keys == Elems(net.vertices)
      && net.theta.Keys == Elems(net.vertices)
      && net.downstreamLoad.Keys == Elems(net.vertices)
  {
    var idx := IndexMap(nodes)[Root := RootNode];
    IndexKeys(nodes);
    var net := MakeNetwork(nodes, edges);
    assert net.indexNode == idx && net.substations == Substations(idx) && net.theta == ThetaOf(idx);
  }

  /** The id table with the root added is keyed by the vertex list. */
  lemma IndexKeys(nodes: seq<Node>)
    ensures (IndexMap(nodes)[Root := RootNode]).Keys == Elems(Indices(nodes) + [Root])
  {
    ElemsAppend(Indices(nodes), Root);
  }

  /** The child and descendant tables are keyed by the vertices and name
      only vertices; the arc table is keyed by the arcs. */
  lemma MakeNetworkTreeKeys(nodes: seq<Node>, edges: seq<Arc>)
    requires WellFormedInput(nodes, edges)
    ensures var net := MakeNetwork(nodes, edges);
      && net.outgoing.Keys == Elems(net.vertices)
      && (forall j | j in net.outgoing :: forall k | k in net.outgoing[j] :: k in net.vertices)
      && net.successors.Keys == Elems(net.vertices)
      && (forall v | v in net.successors :: net.successors[v] <= Elems(net.vertices))
      && net.successorArcs.Keys == Elems(net.edges)
  {
  }

  lemma MakeNetworkNodeTables(nodes: seq<Node>, edges: seq<Arc>)
    requires WellFormedInput(nodes, edges)
    ensures var net := MakeNetwork(nodes, edges);
      && net.indexNode == IndexMap(nodes)[Root := RootNode]
      && net.substations == Substations(net.indexNode)
      && net.theta == ThetaOf(net.indexNode)
      && Root in net.theta && net.theta[Root] == 0.0
      && (forall j | j in net.outgoing :: net.outgoing[j] == Heads(net.vertices, net.edges, j))
      && (forall v | v in net.successors :: net.successors[v] == Descendants(Children(net), v))
  {
  }

  lemma MakeNetworkArcTables(nodes: seq<Node>, edges: seq<Arc>)
    requires WellFormedInput(nodes, edges)
    ensures var net := MakeNetwork(nodes, edges);
      && (forall a | a in net.successorArcs :: net.successorArcs[a] == SuccessorArcs(net.edges, net.successors, a.1))
      && (forall v | v in net.downstreamLoad ::
            net.downstreamLoad[v] == BelowSum(net.vertices, net.substations, net.successors, PowerOf(net.indexNode), v))
  {
  }

  /** The constructor yields a valid network whose vertex list is the
      node ids followed by the root, whose arc list is the input edges
      followed by the root arcs, with `theta[0] = 0` and `M` ten times the
      total outage rate. */
  lemma MakeNetworkValid(nodes: seq<Node>, edges: seq<Arc>)
    requires WellFormedInput(nodes, edges)
    ensures var net := MakeNetwork(nodes, edges);
      && Valid(net)
      && net.vertices == Indices(nodes) + [Root]
      && net.edges == edges + RootArcs(Indices(nodes), IndexMap(nodes))
      && net.indexNode == IndexMap(nodes)[Root := RootNode]
      && Root in net.theta && net.theta[Root] == 0.0
      && net.M == 10.0 * SetSum(net.theta.Keys, net.theta)
  {
    var net := MakeNetwork(nodes, edges);
    MakeNetworkConsistent(nodes, edges);
    MakeNetworkNodeTables(nodes, edges);
    MakeNetworkArcTables(nodes, edges);
    SumWhereIsSetSum(net.vertices, Elems(net.vertices), net.theta);
  }

  /** The network is a forest below the root: no node reaches itself. */
  predicate Forest(net: Network)
  {
    Acyclic(Children(net))
  }

  lemma {:induction false} MarkedNodes(nodes: seq<Node>, i: int)
    requires Distinct(Indices(nodes)) && Root !in Indices(nodes)
    ensures i in Substations(IndexMap(nodes)[Root := RootNode]) <==>
      exists p :: 0 <= p < |nodes| && nodes[p].index == i && nodes[p].clients == SubstationClients
  {
    var idx := IndexMap(nodes)[Root := RootNode];
    if i in Substations(idx) {
      assert i != Root;
      assert i in Indices(nodes);
      var p :| 0 <= p < |nodes| && Indices(nodes)[p] == i;
      IndexMapDistinct(nodes, p);
    }
    if p :| 0 <= p < |nodes| && nodes[p].index == i && nodes[p].clients == SubstationClients {
      IndexMapDistinct(nodes, p);
      assert Indices(nodes)[p] == i;
    }
  }

  /** `substations` is exactly the set of listed nodes whose client
      count is `-1`. */
  lemma SubstationsAreMarked(nodes: seq<Node>, edges: seq<Arc>, i: int)
    requires WellFormedInput(nodes, edges)
    ensures i in MakeNetwork(nodes, edges).substations <==>
      exists p :: 0 <= p < |nodes| && nodes[p].index == i && nodes[p].clients == SubstationClients
  {
    MakeNetworkValid(nodes, edges);
    MarkedNodes(nodes, i);
  }

  /** The arc list is the input edges followed by exactly the arcs
      `(0, s)` for the substations `s`. */
  lemma ArcListShape(nodes: seq<Node>, edges: seq<Arc>)
    requires WellFormedInput(nodes, edges)
    ensures var net := MakeNetwork(nodes, edges);
      && net.edges[..|edges|] == edges
      && (forall a :: a in net.edges[|edges|..] <==> a.0 == Root && a.1 in net.substations)
  {
    var net := MakeNetwork(nodes, edges);
    MakeNetworkValid(nodes, edges);
    var roots := RootArcs(Indices(nodes), IndexMap(nodes));
    assert net.edges[..|edges|] == edges;
    assert net.edges[|edges|..] == roots;
    forall a ensures a in roots <==> a.0 == Root && a.1 in net.substations {
      if a.1 in Indices(nodes) {
        assert a.1 != Root;
        assert net.indexNode[a.1] == IndexMap(nodes)[a.1];
      }
    }
  }

  /** `outgoing[j]` is exactly the heads of the arcs leaving `j`. */
  lemma OutgoingExact(net: Network, j: int, k: int)
    requires Valid(net) && j in net.vertices
    ensures k in net.outgoing[j] <==> (j, k) in net.edges
  {
  }

  /** An arc of the network is a step of `Children`. */
  lemma ArcIsChild(net: Network, a: Arc)
    requires Valid(net) && a in net.edges
    ensures a.0 in Children(net) && a.1 in Children(net)[a.0]
  {
    OutgoingExact(net, a.0, a.1);
  }

  /** `successors[v]` is the set of nodes other than `v` reachable from
      `v` by one or more arcs of the arc list: `v` itself is left out even
      when it lies on a cycle. */
  lemma SuccessorsAreReachable(net: Network, v: int, x: int)
    requires Valid(net) && v in net.vertices
    ensures x in net.successors[v] <==>
      x != v && exists p :: IsWalk(Children(net), p) && p[0] == v && p[|p| - 1] == x
  {
    DescendantsIsReachability(Children(net), v, x);
  }

  /** In a forest `successors[v]` is the whole reachable set. */
  lemma SuccessorsInForest(net: Network, v: int)
    requires Valid(net) && Forest(net) && v in net.vertices
    ensures net.successors[v] == Desc(Children(net), v)
  {
    AcyclicDescendants(Children(net), v);
  }

  /** The nodes at or below the head of an arc lie at or below its tail. */
  lemma BelowAlongArc(net: Network, a: Arc)
    requires Valid(net) && a in net.edges
    ensures net.successors[a.1] + {a.1} <= net.successors[a.0] + {a.0}
  {
    ArcIsChild(net, a);
    ChildIsDesc(Children(net), a.0, a.1);
    DescTransitive(Children(net), a.0, a.1);
  }

  /** With non-negative weights a sum below the head of an arc is at most
      the sum below its tail. */
  lemma BelowSumMonotone(net: Network, w: map<int, real>, a: Arc)
    requires Valid(net) && a in net.edges
    requires forall i | i in net.vertices :: i in w && w[i] >= 0.0
    ensures BelowSum(net.vertices, net.substations, net.successors, w, a.1)
         <= BelowSum(net.vertices, net.substations, net.successors, w, a.0)
  {
    BelowAlongArc(net, a);
    SumWhereMono(net.vertices, (net.successors[a.1] + {a.1}) - net.substations,
                 (net.successors[a.0] + {a.0}) - net.substations, w);
  }

  /** The node sum below `v` is the order-free sum over the node set. */
  lemma BelowSumIsSetSum(net: Network, w: map<int, real>, v: int)
    requires Consistent(net) && v in net.vertices
    requires forall i | i in net.vertices :: i in w
    ensures BelowSum(net.vertices, net.substations, net.successors, w, v)
         == SetSum((net.successors[v] + {v}) - net.substations, w)
  {
    assert Elems(net.vertices) <= w.Keys by {
      forall i | i in Elems(net.vertices) ensures i in w.Keys {
        assert i in net.vertices;
      }
    }
    SumWhereIsSetSum(net.vertices, (net.successors[v] + {v}) - net.substations, w);
  }

  predicate NonnegativeLoads(net: Network)
  {
    forall i | i in net.indexNode :: net.indexNode[i].power >= 0.0
  }

  predicate NonnegativeRates(net: Network)
  {
    forall i | i in net.theta :: net.theta[i] >= 0.0
  }

  /** `downstream_load[v]` is the total power of `v` and all its
      descendants, substations skipped. */
  lemma DownstreamLoadIsTotal(net: Network, v: int)
    requires Valid(net) && v in net.vertices
    ensures net.downstreamLoad[v] == SetSum((net.successors[v] + {v}) - net.substations, PowerOf(net.indexNode))
  {
    BelowSumIsSetSum(net, PowerOf(net.indexNode), v);
  }

  /** Downstream load never grows along an arc and is never negative. */
  lemma DownstreamLoadMonotone(net: Network, a: Arc)
    requires Valid(net) && NonnegativeLoads(net) && a in net.edges
    ensures 0.0 <= net.downstreamLoad[a.1] <= net.downstreamLoad[a.0]
  {
    var w := PowerOf(net.indexNode);
    BelowSumMonotone(net, w, a);
    SumWhereNonneg(net.vertices, (net.successors[a.1] + {a.1}) - net.substations, w);
  }

  /** The descendant-theta sum of src/util.py (`get_downstream_theta`). */
  function DownstreamTheta(net: Network, v: int): real
    requires Consistent(net) && v in net.vertices
  {
    BelowSum(net.vertices, net.substations, net.successors, net.theta, v)
  }

  /** The descendant-theta sum is the total outage rate of `v` and all
      its descendants, substations skipped. */
  lemma DownstreamThetaIsTotal(net: Network, v: int)
    requires Consistent(net) && v in net.vertices
    ensures DownstreamTheta(net, v) == SetSum((net.successors[v] + {v}) - net.substations, net.theta)
  {
    BelowSumIsSetSum(net, net.theta, v);
  }

  /** The lower bound on expected energy not supplied: every
      non-substation node weighted by its downstream load. */
  function LowerBound(net: Network): real
    requires Consistent(net)
  {
    SumWhere(net.vertices, Elems(net.vertices) - net.substations, LowerTerms(net))
  }

  /** The upper bound: each substation's load times the summed outage
      rates of its descendants. */
  function UpperBound(net: Network): real
    requires Consistent(net)
  {
    SumWhere(net.vertices, net.substations, UpperTerms(net))
  }

  /** An arc's successor arcs include the successor arcs of each of them. */
  lemma SuccessorArcsNested(net: Network, a: Arc, b: Arc)
    requires Valid(net) && a in net.edges && b in net.successorArcs[a]
    ensures b in net.edges && net.successorArcs[b] <= net.successorArcs[a]
  {
    var succ := net.successors;
    assert net.successorArcs[a] == SuccessorArcs(net.edges, succ, a.1);
    assert b in net.successorArcs;
    assert net.successorArcs[b] == SuccessorArcs(net.edges, succ, b.1);
    SuccessorArcsNestedIn(net.edges, Children(net), succ, a.1, b.1);
  }

  /** Successor arcs are nested along the descendant relation. */
  lemma SuccessorArcsNestedIn(arcs: seq<Arc>, g: map<int, set<int>>, succ: map<int, set<int>>, u: int, w: int)
    requires u in succ && w in succ
    requires succ[u] == Descendants(g, u) && succ[w] == Descendants(g, w)
    requires w in succ[u] + {u}
    ensures SuccessorArcs(arcs, succ, w) <= SuccessorArcs(arcs, succ, u)
  {
    if w != u {
      DescTransitive(g, u, w);
    }
    assert succ[w] + {w} <= succ[u] + {u};
  }

  /** In a forest no arc is among its own successor arcs. */
  lemma SuccessorArcsExcludeSelf(net: Network, a: Arc)
    requires Valid(net) && Forest(net) && a in net.edges
    ensures a !in net.successorArcs[a]
  {
    var g := Children(net);
    ArcIsChild(net, a);
    ChildIsDesc(g, a.0, a.1);
    DescTransitive(g, a.0, a.1);
    assert a.0 !in Desc(g, a.0);
    assert a.0 !in net.successors[a.1] + {a.1};
    assert a in net.successorArcs;
  }

  /** In a forest an arc below `r` does not have `r` below it. */
  lemma SuccessorArcsAntisymmetric(net: Network, r: Arc, a: Arc)
    requires Valid(net) && Forest(net) && r in net.edges && a in net.successorArcs[r]
    ensures r !in net.successorArcs[a]
  {
    SuccessorArcsNested(net, r, a);
    SuccessorArcsExcludeSelf(net, r);
  }

  /** The weights summed by the lower bound. */
  function LowerTerms(net: Network): (w: map<int, real>)
    requires Consistent(net)
    ensures w.Keys == Elems(net.vertices)
  {
    map i | i in net.vertices :: Mul(net.downstreamLoad[i], net.theta[i])
  }

  /** The summed outage rate of the descendants of `s`. */
  function DescendantRate(net: Network, s: int): real
    requires Consistent(net) && s in net.vertices
  {
    SumWhere(net.vertices, net.successors[s], net.theta)
  }

  /** The weights summed by the upper bound. */
  function UpperTerms(net: Network): (w: map<int, real>)
    requires Consistent(net)
    ensures w.Keys == Elems(net.vertices)
  {
    map s | s in net.vertices :: Mul(net.downstreamLoad[s], DescendantRate(net, s))
  }

  /** The lower bound is the sum, over the non-substation nodes, of
      downstream load times outage rate. */
  lemma LowerBoundIsNodeSum(net: Network)
    requires Consistent(net)
    ensures LowerBound(net) == SetSum(Elems(net.vertices) - net.substations, LowerTerms(net))
  {
    SumWhereIsSetSum(net.vertices, Elems(net.vertices) - net.substations, LowerTerms(net));
  }

  /** The upper bound is the sum, over the substations, of downstream
      load times the total outage rate of the substation's descendants. */
  lemma UpperBoundIsNodeSum(net: Network)
    requires Consistent(net)
    ensures UpperBound(net) == SetSum(net.substations, UpperTerms(net))
    ensures forall s | s in net.substations :: DescendantRate(net, s) == SetSum(net.successors[s], net.theta)
  {
    SumWhereIsSetSum(net.vertices, net.substations, UpperTerms(net));
    forall s | s in net.substations
      ensures DescendantRate(net, s) == SetSum(net.successors[s], net.theta)
    {
      DescendantRateIsSetSum(net, s);
    }
  }

  lemma DescendantRateIsSetSum(net: Network, s: int)
    requires Consistent(net) && s in net.vertices
    ensures DescendantRate(net, s) == SetSum(net.successors[s], net.theta)
  {
    SumWhereIsSetSum(net.vertices, net.successors[s], net.theta);
  }

  lemma LoadsNonnegative(net: Network)
    requires Valid(net) && NonnegativeLoads(net)
    ensures forall i | i in net.downstreamLoad :: net.downstreamLoad[i] >= 0.0
  {
    forall i | i in net.downstreamLoad ensures net.downstreamLoad[i] >= 0.0 {
      SumWhereNonneg(net.vertices, (net.successors[i] + {i}) - net.substations, PowerOf(net.indexNode));
    }
  }

  lemma DescendantRateNonnegative(net: Network, s: int)
    requires Consistent(net) && NonnegativeRates(net) && s in net.vertices
    ensures DescendantRate(net, s) >= 0.0
  {
    SumWhereNonneg(net.vertices, net.successors[s], net.theta);
  }

  lemma LowerBoundNonnegative(net: Network)
    requires Consistent(net) && NonnegativeRates(net)
    requires forall i | i in net.downstreamLoad :: net.downstreamLoad[i] >= 0.0
    ensures 0.0 <= LowerBound(net)
  {
    var lt := LowerTerms(net);
    forall i | i in net.vertices ensures lt[i] >= 0.0 {
      MulNonneg(net.downstreamLoad[i], net.theta[i]);
    }
    SumWhereNonneg(net.vertices, Elems(net.vertices) - net.substations, lt);
  }

  lemma UpperBoundNonnegative(net: Network)
    requires Consistent(net) && NonnegativeRates(net)
    requires forall i | i in net.downstreamLoad :: net.downstreamLoad[i] >= 0.0
    ensures 0.0 <= UpperBound(net)
  {
    var ut := UpperTerms(net);
    forall i | i in net.vertices ensures ut[i] >= 0.0 {
      DescendantRateNonnegative(net, i);
      MulNonneg(net.downstreamLoad[i], DescendantRate(net, i));
    }
    SumWhereNonneg(net.vertices, net.substations, ut);
  }

  /** Both bounds are non-negative when loads and outage rates are. */
  lemma BoundsNonnegative(net: Network)
    requires Valid(net) && NonnegativeLoads(net) && NonnegativeRates(net)
    ensures 0.0 <= LowerBound(net) && 0.0 <= UpperBound(net)
  {
    LoadsNonnegative(net);
    LowerBoundNonnegative(net);
    UpperBoundNonnegative(net);
  }
}
