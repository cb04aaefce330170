/** The `Graph` object of src/outdated/util2.py: the same network tables
    as src/util.py, a plain `GraphPickle` record to save and restore them,
    a memoised downstream load, the downstream-outage recursion without an
    explicit switch branch, and `get_subtrees` returning tuples. */
module Util2 {
  import opened Lists
  import opened Reach
  import opened Sums
  import opened Network
  import opened Outages
  import opened Subtrees
  import Util

  /** The saved form of a graph: every dictionary becomes its list of
      `(key, value)` pairs. The networkx graph object `G` is not part of
      this model. */
  datatype GraphPickle = GraphPickle(
    vertices: seq<int>,
    edges: seq<Arc>,
    substations: set<int>,
    successorsTuples: seq<(int, set<int>)>,
    successorsArcsTuples: seq<(Arc, set<Arc>)>,
    thetaTuples: seq<(int, real)>,
    downstreamLoadTuples: seq<(int, real)>,
    outgoing: seq<(int, seq<int>)>,
    indexNode: seq<(int, Node)>,
    M: real)

  /** `to_graph_pickle` of a network: node-keyed tables listed in vertex
      order, the successor-arc table in arc order, which is the insertion
      order of each dictionary on the constructor's path. */
  function Pickle(net: Network): GraphPickle
    requires Consistent(net)
  {
    GraphPickle(
      net.vertices, net.edges, net.substations,
      PairsOf(net.successors, net.vertices),
      PairsOf(net.successorArcs, net.edges),
      PairsOf(net.theta, net.vertices),
      PairsOf(net.downstreamLoad, net.vertices),
      PairsOf(net.outgoing, net.vertices),
      PairsOf(net.indexNode, net.vertices),
      net.M)
  }

  /** The pickle path of the constructor: each dictionary rebuilt from
      its pair list, a later pair winning over an earlier one. */
  function Unpickle(p: GraphPickle): Network
  {
    Network(
      p.vertices, p.edges, p.substations,
      MapOfPairs(p.successorsTuples),
      MapOfPairs(p.thetaTuples),
      MapOfPairs(p.successorsArcsTuples),
      MapOfPairs(p.outgoing),
      MapOfPairs(p.downstreamLoadTuples),
      MapOfPairs(p.indexNode),
      p.M)
  }

  /** Restoring a saved network gives back every table unchanged. */
  lemma PickleRoundTrip(net: Network)
    requires Consistent(net)
    ensures Unpickle(Pickle(net)) == net
  {
    MapOfPairsOf(net.successors, net.vertices);
    MapOfPairsOf(net.successorArcs, net.edges);
    MapOfPairsOf(net.theta, net.vertices);
    MapOfPairsOf(net.downstreamLoad, net.vertices);
    MapOfPairsOf(net.outgoing, net.vertices);
    MapOfPairsOf(net.indexNode, net.vertices);
  }

  /** Every value of `memo` is the outage value of its arc under `XV`. */
  predicate SoundThetaMemo(net: Network, XV: map<Arc, real>, memo: map<Arc, real>)
  {
    && Ready(net) && Covers(net, XV)
    && forall a | a in memo :: a in XV && a.1 in net.vertices && memo[a] == Outage(net, XV, a.0, a.1)
  }

  lemma SoundThetaMemoPut(net: Network, XV: map<Arc, real>, memo: map<Arc, real>, a: Arc, v: real)
    requires SoundThetaMemo(net, XV, memo) && a in XV && a.1 in net.vertices
    requires v == Outage(net, XV, a.0, a.1)
    ensures SoundThetaMemo(net, XV, memo[a := v])
  {
  }

  /** The value stored for an arc once its children are summed. */
  lemma OutageStep(net: Network, XV: map<Arc, real>, i: int, j: int, total: real)
    requires Ready(net) && Covers(net, XV) && (i, j) in XV && j in net.vertices
    requires total == ChildOutage(net, XV, j, net.outgoing[j])
    ensures Mul(1.0 - XV[(i, j)], net.theta[j] + total) == Outage(net, XV, i, j)
  {
  }

  /** One step of the children loop: adding the next child's value. */
  lemma ChildOutageStep(net: Network, XV: map<Arc, real>, j: int, ks: seq<int>, t: int, total: real, c: real)
    requires Ready(net) && Covers(net, XV) && j in net.vertices
    requires ks == net.outgoing[j] && 0 <= t < |ks|
    requires total == ChildOutage(net, XV, j, ks[..t]) && c == Outage(net, XV, j, ks[t])
    ensures total + c == ChildOutage(net, XV, j, ks[..t + 1])
  {
    assert ks[..t + 1][..t] == ks[..t];
  }

  /** One step of a loop that sums `o` over a list left to right. */
  lemma SeqSumStep(ks: seq<Arc>, o: map<Arc, real>, t: int, r: real)
    requires 0 <= t < |ks| && (forall k | k in ks :: k in o) && r == SeqSum(ks[..t], o)
    ensures r + o[ks[t]] == SeqSum(ks[..t + 1], o)
  {
    assert ks[..t + 1][..t] == ks[..t];
  }

  /** The entry sets of a list of tuples. */
  function Sets(ts: seq<seq<Arc>>): (ss: seq<set<Arc>>)
    ensures |ss| == |ts| && forall p | 0 <= p < |ts| :: ss[p] == Elems(ts[p])
  {
    seq(|ts|, p requires 0 <= p < |ts| => Elems(ts[p]))
  }

  /** `tuple(s)`: the members of a set in some order, each once. */
  method Tuple(s: set<Arc>) returns (t: seq<Arc>)
    ensures Distinct(t) && Elems(t) == s
  {
    t := [];
    var rest := s;
    while rest != {}
      invariant rest <= s && Distinct(t) && Elems(t) == s - rest
      decreases |rest|
    {
      var a :| a in rest;
      assert a !in t;
      assert Elems(t + [a]) == Elems(t) + {a};
      t := t + [a];
      rest := rest - {a};
    }
  }

  /** Each set of a list converted with `tuple`. */
  method Tuples(sets: seq<set<Arc>>) returns (output: seq<seq<Arc>>)
    ensures Sets(output) == sets && forall p | 0 <= p < |output| :: Distinct(output[p])
  {
    output := [];
    var t := 0;
    while t < |sets|
      invariant 0 <= t <= |sets| && |output| == t
      invariant forall p | 0 <= p < t :: Distinct(output[p]) && Elems(output[p]) == sets[p]
    {
      var tuple := Tuple(sets[t]);
      output := output + [tuple];
      t := t + 1;
    }
    assert Sets(output) == sets;
  }

  /** Every value of `load` is the total power at and below its node,
      substations left out. */
  predicate SoundLoads(net: Network, load: map<int, real>)
  {
    && Consistent(net)
    && forall i | i in load ::
         i in net.vertices && load[i] == BelowSum(net.vertices, net.substations, net.successors, PowerOf(net.indexNode), i)
  }

  lemma SoundLoadsPut(net: Network, load: map<int, real>, i: int, v: real)
    requires SoundLoads(net, load) && i in net.vertices
    requires v == BelowSum(net.vertices, net.substations, net.successors, PowerOf(net.indexNode), i)
    ensures SoundLoads(net, load[i := v])
  {
  }

  /** What the fresh-input path promises of its tables: they are valid,
      `theta[0] = 0`, `M` is ten times the summed outage rates, and every
      downstream load is the power at and below its node. */
  ghost predicate FreshTables(net: Network)
  {
    && Valid(net) && SoundLoads(net, net.downstreamLoad)
    && Root in net.theta && net.theta[Root] == 0.0 && net.M == 10.0 * SetSum(net.theta.Keys, net.theta)
  }

  lemma MakeNetworkFresh(nodes: seq<Node>, edges: seq<Arc>, net: Network)
    requires WellFormedInput(nodes, edges) && net == MakeNetwork(nodes, edges)
    ensures FreshTables(net)
  {
    MakeNetworkValid(nodes, edges);
  }

  class Graph {
    /** The tables the constructor builds or restores. */
    const net: Network
    /** The memo of `get_downstream_load`, keyed by node. */
    var downstreamLoad: map<int, real>
    /** The memo of `calculate_downstream_theta`, keyed by arc. */
    var downstreamTheta: map<Arc, real>

    /** The fresh-input path: the same tables as src/util.py, with
        `theta[0] = 0`, `M` ten times the summed outage rates, every
        downstream load stored, and an empty outage memo. */
    constructor (nodes: seq<Node>, edges: seq<Arc>)
      requires WellFormedInput(nodes, edges)
      ensures downstreamLoad == net.downstreamLoad && downstreamTheta == map[]
      ensures net == MakeNetwork(nodes, edges) && FreshTables(net)
    {
      net := MakeNetwork(nodes, edges);
      downstreamLoad := MakeNetwork(nodes, edges).downstreamLoad;
      downstreamTheta := map[];
      new;
      assert downstreamLoad == net.downstreamLoad && downstreamTheta == map[];
      MakeNetworkFresh(nodes, edges, net);
    }

    /** The pickle path: every table rebuilt from its pair list. */
    constructor Load(p: GraphPickle)
      ensures net == Unpickle(p) && downstreamLoad == net.downstreamLoad && downstreamTheta == map[]
    {
      net := Unpickle(p);
      downstreamLoad := Unpickle(p).downstreamLoad;
      downstreamTheta := map[];
    }

    /** The tables as the object holds them now. */
    function Tables(): Network
      reads this
    {
      net.(downstreamLoad := downstreamLoad)
    }

    /** `to_graph_pickle`: restoring the record gives back the tables. */
    function ToGraphPickle(): (p: GraphPickle)
      reads this
      requires Consistent(Tables())
      ensures Unpickle(p) == Tables()
    {
      PickleRoundTrip(Tables());
      Pickle(Tables())
    }

    /** Every stored downstream load is the total power at and below its
        node, substations left out. */
    predicate LoadSound()
      reads this
    {
      SoundLoads(net, downstreamLoad)
    }

    /** `get_downstream_load`: a stored value is returned as it is;
        otherwise the power of the node and its descendants, substations
        left out, is summed in any order and stored. */
    method GetDownstreamLoad(index: int) returns (r: real)
      requires Consistent(net) && index in net.vertices
      modifies this`downstreamLoad
      ensures index in downstreamLoad && r == downstreamLoad[index]
      ensures index in old(downstreamLoad) ==> downstreamLoad == old(downstreamLoad)
      ensures index !in old(downstreamLoad) ==> downstreamLoad == old(downstreamLoad)[index := r]
      ensures index !in old(downstreamLoad) || old(LoadSound()) ==>
        r == BelowSum(net.vertices, net.substations, net.successors, PowerOf(net.indexNode), index)
      ensures old(LoadSound()) ==> LoadSound()
    {
      if index !in downstreamLoad {
        var nodes := net.successors[index] + {index};
        r := SumOutside(nodes, net.substations, PowerOf(net.indexNode));
        SumWhereIsSetSum(net.vertices, nodes - net.substations, PowerOf(net.indexNode));
        if LoadSound() {
          SoundLoadsPut(net, downstreamLoad, index, r);
        }
        downstreamLoad := downstreamLoad[index := r];
      } else {
        r := downstreamLoad[index];
      }
    }

    /** Every memoised value is the outage value of its arc under `XV`. */
    predicate ThetaMemoSound(XV: map<Arc, real>)
      reads this
    {
      SoundThetaMemo(net, XV, downstreamTheta)
    }

    /** `calculate_downstream_theta`: an arc already in the memo is
        answered from it; otherwise `(1 - XV[i, j])` times `theta[j]` plus
        the children's values is computed and stored. From a memo sound
        for `XV` the answer is the outage value of the arc. */
    method CalculateDownstreamTheta(i: int, j: int, XV: map<Arc, real>) returns (r: real)
      requires Ready(net) && Covers(net, XV) && (i, j) in XV && j in net.vertices
      modifies this`downstreamTheta
      decreases |Desc(Children(net), j)|, 1
      ensures (i, j) in downstreamTheta && r == downstreamTheta[(i, j)]
      ensures old(downstreamTheta).Keys <= downstreamTheta.Keys
      ensures forall a | a in old(downstreamTheta) :: downstreamTheta[a] == old(downstreamTheta)[a]
      ensures (i, j) in old(downstreamTheta) ==> downstreamTheta == old(downstreamTheta)
      ensures old(ThetaMemoSound(XV)) ==> ThetaMemoSound(XV) && r == Outage(net, XV, i, j)
    {
      if (i, j) !in downstreamTheta {
        var ks := net.outgoing[j];
        ghost var sound := ThetaMemoSound(XV);
        var total := 0.0;
        var t := 0;
        while t < |ks|
          invariant 0 <= t <= |ks|
          invariant (i, j) !in old(downstreamTheta)
          invariant old(downstreamTheta).Keys <= downstreamTheta.Keys
          invariant forall a | a in old(downstreamTheta) :: downstreamTheta[a] == old(downstreamTheta)[a]
          invariant sound ==> ThetaMemoSound(XV) && total == ChildOutage(net, XV, j, ks[..t])
        {
          total := AddChild(j, ks, t, total, XV);
          t := t + 1;
        }
        assert ks[..|ks|] == ks;
        var v := Mul(1.0 - XV[(i, j)], net.theta[j] + total);
        if sound {
          OutageStep(net, XV, i, j, total);
          SoundThetaMemoPut(net, XV, downstreamTheta, (i, j), v);
        }
        downstreamTheta := downstreamTheta[(i, j) := v];
      }
      r := downstreamTheta[(i, j)];
    }


    /** One step of the children loop: the value of the arc to the child
        `ks[t]` of `j` added to `total`. */
    method AddChild(j: int, ks: seq<int>, t: int, total: real, XV: map<Arc, real>) returns (total': real)
      requires Ready(net) && Covers(net, XV) && j in net.vertices && ks == net.outgoing[j] && 0 <= t < |ks|
      modifies this`downstreamTheta
      decreases |Desc(Children(net), j)|, 0
      ensures old(downstreamTheta).Keys <= downstreamTheta.Keys
      ensures forall a | a in old(downstreamTheta) :: downstreamTheta[a] == old(downstreamTheta)[a]
      ensures old(ThetaMemoSound(XV)) && total == ChildOutage(net, XV, j, ks[..t]) ==>
        ThetaMemoSound(XV) && total' == ChildOutage(net, XV, j, ks[..t + 1])
    {
      var k := ks[t];
      ChildShrinks(net, j, k);
      var c := CalculateDownstreamTheta(j, k, XV);
      if old(ThetaMemoSound(XV)) && total == ChildOutage(net, XV, j, ks[..t]) {
        ChildOutageStep(net, XV, j, ks, t, total, c);
      }
      total' := total + c;
    }
    /** `calculate_V_s`: the memo is cleared whatever `reset` says, so the
        result is always the subtree's value. */
    method CalculateVs(subtree: set<Arc>, XV: map<Arc, real>, reset: bool) returns (r: real)
      requires Ready(net) && Covers(net, XV) && Scorable(net, XV, subtree)
      requires downstreamLoad == net.downstreamLoad
      modifies this`downstreamTheta
      ensures ThetaMemoSound(XV) && r == Vs(net, XV, subtree)
    {
      ClearThetaMemo(XV);
      r := SumVs(subtree, XV);
    }

    /** `calculate_V_s` without the reset: from a sound memo, the
        subtree's value. */
    method SumVs(subtree: set<Arc>, XV: map<Arc, real>) returns (r: real)
      requires Ready(net) && Covers(net, XV) && Scorable(net, XV, subtree)
      requires downstreamLoad == net.downstreamLoad
      modifies this`downstreamTheta
      ensures old(ThetaMemoSound(XV)) ==> ThetaMemoSound(XV) && r == Vs(net, XV, subtree)
    {
      ghost var w := Util.VsWeights(net, XV, subtree);
      r := SumWeighted(subtree, XV, w);
    }

    /** The memo emptied: sound for any switch vector. */
    method ClearThetaMemo(XV: map<Arc, real>)
      requires Ready(net) && Covers(net, XV)
      modifies this`downstreamTheta
      ensures downstreamTheta == map[] && ThetaMemoSound(XV)
    {
      downstreamTheta := map[];
    }

    /** The sum of `calculate_V_s` over the arcs of `subtree` in any order. */
    method SumWeighted(subtree: set<Arc>, XV: map<Arc, real>, ghost w: map<Arc, real>) returns (r: real)
      requires Ready(net) && Covers(net, XV) && Scorable(net, XV, subtree) && Util.SummandsOf(net, XV, subtree, w)
      requires downstreamLoad == net.downstreamLoad
      modifies this`downstreamTheta
      ensures old(ThetaMemoSound(XV)) ==> ThetaMemoSound(XV) && r == SetSum(subtree, w)
    {
      ghost var sound := ThetaMemoSound(XV);
      var load := downstreamLoad;
      r := 0.0;
      var rest := subtree;
      while rest != {}
        invariant rest <= subtree
        invariant sound ==> ThetaMemoSound(XV) && r == SetSum(subtree, w) - SetSum(rest, w)
        decreases |rest|
      {
        var a :| a in rest;
        var term := WeightedOutage(a, XV, load);
        if sound {
          SetSumStep(subtree, rest, w, a, r);
        }
        r := r + term;
        rest := rest - {a};
      }
    }

    /** One summand of `calculate_V_s`: the arc's load drop, read from
        the load table `load`, times its memoised outage value. */
    method WeightedOutage(a: Arc, XV: map<Arc, real>, load: map<int, real>) returns (term: real)
      requires Ready(net) && Covers(net, XV) && a in XV && a in net.edges && load == net.downstreamLoad
      modifies this`downstreamTheta
      ensures old(ThetaMemoSound(XV)) ==> ThetaMemoSound(XV) && term == Mul(net.downstreamLoad[a.0] - net.downstreamLoad[a.1], Outage(net, XV, a.0, a.1))
    {
      var c := CalculateDownstreamTheta(a.0, a.1, XV);
      term := Mul(load[a.0] - load[a.1], c);
    }

    /** `get_downstream_theta`: the memo is cleared and the arcs' outage
        values summed in the order given; over a list without repetitions
        that is the summed outage value of its arcs. */
    method GetDownstreamTheta(subtree: seq<Arc>, XV: map<Arc, real>) returns (r: real)
      requires Ready(net) && Covers(net, XV) && Scorable(net, XV, Elems(subtree))
      modifies this`downstreamTheta
      ensures ThetaMemoSound(XV) && r == SeqSum(subtree, ArcOutages(net, XV, Elems(subtree)))
      ensures Distinct(subtree) ==> r == ThetaSum(net, XV, Elems(subtree))
    {
      downstreamTheta := map[];
      Util.ArcOutagesOf(net, XV, Elems(subtree));
      r := SumOutages(subtree, XV, ArcOutages(net, XV, Elems(subtree)));
      if Distinct(subtree) {
        SeqSumIsSetSum(subtree, ArcOutages(net, XV, Elems(subtree)));
      }
    }

    /** The sum of `calculate_downstream_theta` over `subtree`, left to right. */
    method SumOutages(subtree: seq<Arc>, XV: map<Arc, real>, ghost o: map<Arc, real>) returns (r: real)
      requires Ready(net) && Covers(net, XV) && Scorable(net, XV, Elems(subtree)) && Util.OutagesOf(net, XV, Elems(subtree), o)
      modifies this`downstreamTheta
      ensures old(ThetaMemoSound(XV)) ==> ThetaMemoSound(XV) && r == SeqSum(subtree, o)
    {
      ghost var sound := ThetaMemoSound(XV);
      r := 0.0;
      var t := 0;
      while t < |subtree|
        invariant 0 <= t <= |subtree|
        invariant sound ==> ThetaMemoSound(XV) && r == SeqSum(subtree[..t], o)
      {
        r := AddOutage(subtree, XV, o, t, r);
        t := t + 1;
      }
      assert subtree[..|subtree|] == subtree;
    }

    /** One step of the sum: the outage value of `subtree[t]` added. */
    method AddOutage(subtree: seq<Arc>, XV: map<Arc, real>, ghost o: map<Arc, real>, t: int, r: real) returns (r': real)
      requires Ready(net) && Covers(net, XV) && Scorable(net, XV, Elems(subtree)) && Util.OutagesOf(net, XV, Elems(subtree), o)
      requires 0 <= t < |subtree|
      modifies this`downstreamTheta
      ensures old(ThetaMemoSound(XV)) && r == SeqSum(subtree[..t], o) ==> ThetaMemoSound(XV) && r' == SeqSum(subtree[..t + 1], o)
    {
      var a := subtree[t];
      assert a in Elems(subtree);
      var c := CalculateDownstreamTheta(a.0, a.1, XV);
      if old(ThetaMemoSound(XV)) && r == SeqSum(subtree[..t], o) {
        SeqSumStep(subtree, o, t, r);
      }
      r' := r + c;
    }

    /** `get_subtrees`: the same runs as src/util.py, each returned as a
        tuple of its arcs. */
    method GetSubtrees(XV: map<Arc, real>, order: seq<Arc>) returns (output: seq<seq<Arc>>)
      requires Valid(net) && Distinct(order) && Elems(order) == XV.Keys && forall a | a in order :: a in net.edges
      ensures RunsOf(net, XV, Starts(net, XV, order), Sets(output))
      ensures forall p | 0 <= p < |output| :: Distinct(output[p])
      ensures Union(Sets(output)) <= Elems(net.edges) - Switches(XV)
      ensures Forest(net) && Indexed(net, XV) ==> Union(Sets(output)) == Elems(net.edges) - Switches(XV)
    {
      IndexedOrder(net, XV, order);
      ValidNested(net);
      var sets := Util.SplitAtSwitches(net, XV, order);
      SubtreesUnion(net, XV, order, sets);
      output := Tuples(sets);
    }
  }

  /** `outgoing[j]` holds exactly the heads of the arcs leaving `j`. */
  lemma OutgoingIsHeads(net: Network, j: int)
    requires Valid(net) && j in net.vertices
    ensures Elems(net.outgoing[j]) == set a | a in net.edges && a.0 == j :: a.1
  {
    forall k ensures k in net.outgoing[j] <==> (j, k) in net.edges {
      OutgoingExact(net, j, k);
    }
  }
}
