/** The `Graph` object of src/util.py: the network tables of the
    constructor, the memoised contribution recursion, the subtree value
    and the split of the arcs into subtrees between switches. */
module Util {
  import opened Lists
  import opened Reach
  import opened Sums
  import opened Network
  import opened Outages
  import opened Subtrees

  /** The output sets of `get_subtrees`, one per start of `Starts`: an
      outer walk over the arcs in the order of `XV`, and for each
      unswitched arc not yet explored an inner walk over the switched arcs
      in the same order that subtracts the tree of every switched arc
      still inside the current tree. */
  method SplitAtSwitches(net: Network, XV: map<Arc, real>, order: seq<Arc>) returns (output: seq<set<Arc>>)
    requires Consistent(net) && Nested(net) && Distinct(order) && Elems(order) == XV.Keys
    requires forall a | a in order :: a in net.edges
    ensures RunsOf(net, XV, Starts(net, XV, order), output)
  {
    var blocked := map a | a in XV && XV[a] == 1.0 :: net.successorArcs[a] + {a};
    var explored: set<Arc> := {};
    output := [];
    ghost var st: seq<Arc> := [];
    var t := 0;
    while t < |order|
      invariant 0 <= t <= |order|
      invariant st == Starts(net, XV, order[..t])
      invariant RunsOf(net, XV, st, output)
      invariant explored == Covered(net, XV, st)
    {
      var arc := order[t];
      StartsNext(net, XV, order, t);
      if XV[arc] == 1.0 || arc in explored {
      } else {
        var tree := SubtractBlocked(net, XV, order, blocked, arc);
        CoveredAppend(net, XV, st, arc);
        RunsAppend(net, XV, st, output, arc);
        explored := explored + tree;
        output := output + [tree];
        st := st + [arc];
      }
      t := t + 1;
    }
    assert order[..|order|] == order;
  }

  /** The inner walk of `get_subtrees` over the blocked-off trees, kept in
      the order of `XV`: it leaves the run of `arc`. */
  method SubtractBlocked(net: Network, XV: map<Arc, real>, order: seq<Arc>, blocked: map<Arc, set<Arc>>, arc: Arc)
    returns (tree: set<Arc>)
    requires Consistent(net) && Nested(net) && Elems(order) == XV.Keys && (forall a | a in order :: a in net.edges) && arc in net.edges
    requires blocked == map a | a in XV && XV[a] == 1.0 :: net.successorArcs[a] + {a}
    ensures tree == Run(net, XV, arc)
  {
    tree := net.successorArcs[arc] + {arc};
    var u := 0;
    while u < |order|
      invariant 0 <= u <= |order|
      invariant tree == Tree(net, arc) - Cut(net, arc, Switches(XV) * Elems(order[..u]))
    {
      var root := order[u];
      var D := Switches(XV) * Elems(order[..u]);
      if root in blocked {
        CutStep(net, arc, D, root);
        assert Switches(XV) * Elems(order[..u + 1]) == D + {root};
        if root in tree {
          tree := tree - blocked[root];
        }
      } else {
        assert Switches(XV) * Elems(order[..u + 1]) == D;
      }
      u := u + 1;
    }
    assert Switches(XV) * Elems(order[..|order|]) == Switches(XV);
  }

  /** Every value of `memo` is the contribution of its arc under `XV`. */
  predicate SoundMemo(net: Network, XV: map<Arc, real>, memo: map<Arc, real>)
  {
    && Ready(net) && Covers(net, XV)
    && forall a | a in memo :: a in XV && a.1 in net.vertices && memo[a] == Contribution(net, XV, a.0, a.1)
  }

  /** Storing the contribution of an arc keeps a memo sound. */
  lemma SoundMemoPut(net: Network, XV: map<Arc, real>, memo: map<Arc, real>, a: Arc, v: real)
    requires SoundMemo(net, XV, memo) && a in XV && a.1 in net.vertices
    requires v == Contribution(net, XV, a.0, a.1)
    ensures SoundMemo(net, XV, memo[a := v])
  {
  }

  /** The value stored for an unswitched arc once its children are summed. */
  lemma ContributionStep(net: Network, XV: map<Arc, real>, i: int, j: int, total: real)
    requires Ready(net) && Covers(net, XV) && (i, j) in XV && j in net.vertices && XV[(i, j)] != 1.0
    requires total == ChildContribution(net, XV, j, net.outgoing[j])
    ensures Mul(1.0 - XV[(i, j)], net.theta[j] + total) == Contribution(net, XV, i, j)
  {
  }

  /** One step of the children loop: adding the next child's contribution. */
  lemma ChildContributionStep(net: Network, XV: map<Arc, real>, j: int, ks: seq<int>, t: int, total: real, c: real)
    requires Ready(net) && Covers(net, XV) && j in net.vertices
    requires ks == net.outgoing[j] && 0 <= t < |ks|
    requires total == ChildContribution(net, XV, j, ks[..t]) && c == Contribution(net, XV, j, ks[t])
    ensures total + c == ChildContribution(net, XV, j, ks[..t + 1])
  {
    assert ks[..t + 1][..t] == ks[..t];
  }

  /** `o` holds the outage value of every arc of `S`. */
  predicate OutagesOf(net: Network, XV: map<Arc, real>, S: set<Arc>, o: map<Arc, real>)
    requires Ready(net) && Covers(net, XV) && Scorable(net, XV, S)
  {
    S <= o.Keys && forall a | a in S :: o[a] == Outage(net, XV, a.0, a.1)
  }

  /** `w` holds, for every arc of `S`, its value in `o` weighted by the
      load its tail loses beyond its head. */
  predicate WeightsOf(load: map<int, real>, S: set<Arc>, o: map<Arc, real>, w: map<Arc, real>)
  {
    && S <= o.Keys && S <= w.Keys
    && forall a | a in S :: a.0 in load && a.1 in load && w[a] == Mul(load[a.0] - load[a.1], o[a])
  }

  /** `w` holds, for every arc of `S`, its load drop times its outage value. */
  predicate SummandsOf(net: Network, XV: map<Arc, real>, S: set<Arc>, w: map<Arc, real>)
    requires Ready(net) && Covers(net, XV) && Scorable(net, XV, S)
  {
    && S <= w.Keys
    && forall a | a in S ::
         w[a] == Mul(net.downstreamLoad[a.0] - net.downstreamLoad[a.1], Outage(net, XV, a.0, a.1))
  }

  /** Reading one summand off `SummandsOf`. */
  lemma SummandAt(net: Network, XV: map<Arc, real>, S: set<Arc>, w: map<Arc, real>, a: Arc)
    requires Ready(net) && Covers(net, XV) && Scorable(net, XV, S) && SummandsOf(net, XV, S, w) && a in S
    ensures w[a] == Mul(net.downstreamLoad[a.0] - net.downstreamLoad[a.1], Outage(net, XV, a.0, a.1))
  {
  }

  lemma SummandsOfParts(net: Network, XV: map<Arc, real>, S: set<Arc>, o: map<Arc, real>, w: map<Arc, real>)
    requires Ready(net) && Covers(net, XV) && Scorable(net, XV, S)
    requires OutagesOf(net, XV, S, o) && WeightsOf(net.downstreamLoad, S, o, w)
    ensures SummandsOf(net, XV, S, w)
  {
  }

  /** Weights whose set sum is the value of `S`, one summand per arc. */
  lemma VsWeights(net: Network, XV: map<Arc, real>, S: set<Arc>) returns (w: map<Arc, real>)
    requires Ready(net) && Covers(net, XV) && Scorable(net, XV, S)
    ensures SummandsOf(net, XV, S, w) && Vs(net, XV, S) == SetSum(S, w)
  {
    w := Weighted(net.downstreamLoad, ArcOutages(net, XV, S));
    VsSummands(net, XV, S);
  }

  /** An arc's load drop times its outage value is non-negative when the
      drop and the outage rates are and switch values lie in [0, 1]. */
  lemma TermNonnegative(net: Network, XV: map<Arc, real>, a: Arc)
    requires Ready(net) && NonnegativeRates(net) && Covers(net, XV) && Fractional(XV)
    requires a in XV && a.1 in net.vertices && a.0 in net.downstreamLoad && a.1 in net.downstreamLoad
    requires 0.0 <= net.downstreamLoad[a.1] <= net.downstreamLoad[a.0]
    ensures 0.0 <= Mul(net.downstreamLoad[a.0] - net.downstreamLoad[a.1], Outage(net, XV, a.0, a.1))
  {
    OutageAntitone(net, XV, XV, a.0, a.1);
    MulNonneg(net.downstreamLoad[a.0] - net.downstreamLoad[a.1], Outage(net, XV, a.0, a.1));
  }

  /** With loads and rates non-negative and switch values in [0, 1], the
      load-weighted outage value of any set of arcs is non-negative. */
  lemma VsNonnegative(net: Network, XV: map<Arc, real>, S: set<Arc>)
    requires Valid(net) && Forest(net) && NonnegativeRates(net) && NonnegativeLoads(net)
    requires Covers(net, XV) && Fractional(XV) && Scorable(net, XV, S)
    ensures 0.0 <= Vs(net, XV, S)
  {
    var w := VsWeights(net, XV, S);
    var zero := map a | a in S :: 0.0;
    forall a | a in S ensures zero[a] <= w[a] {
      SummandAt(net, XV, S, w, a);
      DownstreamLoadMonotone(net, a);
      TermNonnegative(net, XV, a);
    }
    SetSumZero(S, zero);
    SetSumMono(S, zero, w);
  }

  lemma VsSummands(net: Network, XV: map<Arc, real>, S: set<Arc>)
    requires Ready(net) && Covers(net, XV) && Scorable(net, XV, S)
    ensures SummandsOf(net, XV, S, Weighted(net.downstreamLoad, ArcOutages(net, XV, S)))
  {
    ArcOutagesOf(net, XV, S);
    WeightedOf(net.downstreamLoad, S, ArcOutages(net, XV, S));
    SummandsOfParts(net, XV, S, ArcOutages(net, XV, S), Weighted(net.downstreamLoad, ArcOutages(net, XV, S)));
  }

  lemma ArcOutagesOf(net: Network, XV: map<Arc, real>, S: set<Arc>)
    requires Ready(net) && Covers(net, XV) && Scorable(net, XV, S)
    ensures OutagesOf(net, XV, S, ArcOutages(net, XV, S))
  {
    forall a | a in S ensures ArcOutages(net, XV, S)[a] == Outage(net, XV, a.0, a.1) {
      OutageAt(net, XV, S, a);
    }
  }

  lemma OutageAt(net: Network, XV: map<Arc, real>, S: set<Arc>, a: Arc)
    requires Ready(net) && Covers(net, XV) && Scorable(net, XV, S) && a in S
    ensures ArcOutages(net, XV, S)[a] == Outage(net, XV, a.0, a.1)
  {
  }

  lemma WeightedOf(load: map<int, real>, S: set<Arc>, o: map<Arc, real>)
    requires S <= o.Keys && forall b | b in o :: b.0 in load && b.1 in load
    ensures WeightsOf(load, S, o, Weighted(load, o))
  {
  }

  lemma MadeValid(nodes: seq<Node>, edges: seq<Arc>, net: Network)
    requires WellFormedInput(nodes, edges) && net == MakeNetwork(nodes, edges)
    ensures Valid(net)
  {
    MakeNetworkValid(nodes, edges);
  }

  /** The summand of `calculate_V_s` for arc `a` read from a memo: the
      load its tail loses beyond its head times the memoised value. */
  function MemoTerm(net: Network, memo: map<Arc, real>, a: Arc): real
    requires Consistent(net) && a in memo && a in net.edges
  {
    Mul(net.downstreamLoad[a.0] - net.downstreamLoad[a.1], memo[a])
  }

  /** The summands of `calculate_V_s` read from a memo holding every arc
      of `S`, whatever `XV` they were computed for. */
  ghost function MemoSummands(net: Network, memo: map<Arc, real>, S: set<Arc>): (w: map<Arc, real>)
    requires Consistent(net) && forall a | a in S :: a in memo && a in net.edges
    ensures w.Keys == S
    ensures forall a | a in S :: w[a] == MemoTerm(net, memo, a)
  {
    map a | a in S :: MemoTerm(net, memo, a)
  }

  class Graph {
    /** The tables the constructor builds. */
    const net: Network
    /** The memo of `calculate_contribution`, keyed by arc. */
    var objectives: map<Arc, real>

    /** The tables of the constructor on the node and edge lists of a
        dataset, with an empty memo. */
    constructor (nodes: seq<Node>, edges: seq<Arc>)
      requires WellFormedInput(nodes, edges)
      ensures objectives == map[] && net == MakeNetwork(nodes, edges) && Valid(net)
    {
      var n := MakeNetwork(nodes, edges);
      MadeValid(nodes, edges, n);
      net := n;
      objectives := map[];
    }

    /** Every memoised value is the contribution of its arc under `XV`. */
    predicate MemoSound(XV: map<Arc, real>)
      reads this
    {
      SoundMemo(net, XV, objectives)
    }

    /** The arcs whose endpoints both lie at or below `index`, collected
        by one pass over the arc list. */
    method GetSuccessorArcs(index: int) returns (r: set<Arc>)
      requires Consistent(net) && index in net.vertices
      ensures r == SuccessorArcs(net.edges, net.successors, index)
    {
      var below := net.successors[index] + {index};
      r := {};
      var t := 0;
      while t < |net.edges|
        invariant 0 <= t <= |net.edges|
        invariant r == set b | b in net.edges[..t] && b.0 in below && b.1 in below
      {
        var a := net.edges[t];
        assert net.edges[..t + 1] == net.edges[..t] + [a];
        if a.0 in below && a.1 in below {
          r := r + {a};
        }
        t := t + 1;
      }
      assert net.edges[..|net.edges|] == net.edges;
    }

    /** The memoised recursion: an arc already in the memo is answered
        from it, whatever `XV` it was computed for; otherwise its value is
        computed, children first, and stored. Starting from a memo that is
        sound for `XV`, the answer is the contribution of the arc and the
        memo stays sound. */
    method CalculateContribution(i: int, j: int, XV: map<Arc, real>) returns (r: real)
      requires Ready(net) && Covers(net, XV) && (i, j) in XV && j in net.vertices
      modifies this
      decreases |Desc(Children(net), j)|, 1
      ensures (i, j) in objectives && r == objectives[(i, j)]
      ensures old(objectives).Keys <= objectives.Keys
      ensures forall a | a in old(objectives) :: objectives[a] == old(objectives)[a]
      ensures (i, j) in old(objectives) ==> objectives == old(objectives)
      ensures old(MemoSound(XV)) ==> MemoSound(XV) && r == Contribution(net, XV, i, j)
    {
      if (i, j) !in objectives {
        if XV[(i, j)] == 1.0 {
          if MemoSound(XV) {
            SoundMemoPut(net, XV, objectives, (i, j), 0.0);
          }
          objectives := objectives[(i, j) := 0.0];
        } else {
          var ks := net.outgoing[j];
          ghost var sound := MemoSound(XV);
          var total := 0.0;
          var t := 0;
          while t < |ks|
            invariant 0 <= t <= |ks|
            invariant (i, j) !in old(objectives)
            invariant old(objectives).Keys <= objectives.Keys
            invariant forall a | a in old(objectives) :: objectives[a] == old(objectives)[a]
            invariant sound ==> MemoSound(XV) && total == ChildContribution(net, XV, j, ks[..t])
          {
            total := AddChild(j, ks, t, total, XV);
            t := t + 1;
          }
          assert ks[..|ks|] == ks;
          var v := Mul(1.0 - XV[(i, j)], net.theta[j] + total);
          if sound {
            ContributionStep(net, XV, i, j, total);
            SoundMemoPut(net, XV, objectives, (i, j), v);
          }
          objectives := objectives[(i, j) := v];
        }
      }
      r := objectives[(i, j)];
    }


    /** One step of the children loop: the value of the arc to the child
        `ks[t]` of `j` added to `total`. */
    method AddChild(j: int, ks: seq<int>, t: int, total: real, XV: map<Arc, real>) returns (total': real)
      requires Ready(net) && Covers(net, XV) && j in net.vertices && ks == net.outgoing[j] && 0 <= t < |ks|
      modifies this
      decreases |Desc(Children(net), j)|, 0
      ensures old(objectives).Keys <= objectives.Keys
      ensures forall a | a in old(objectives) :: objectives[a] == old(objectives)[a]
      ensures old(MemoSound(XV)) && total == ChildContribution(net, XV, j, ks[..t]) ==>
        MemoSound(XV) && total' == ChildContribution(net, XV, j, ks[..t + 1])
    {
      var k := ks[t];
      ChildShrinks(net, j, k);
      var c := CalculateContribution(j, k, XV);
      if old(MemoSound(XV)) && total == ChildContribution(net, XV, j, ks[..t]) {
        ChildContributionStep(net, XV, j, ks, t, total, c);
      }
      total' := total + c;
    }
    /** `calculate_V_s`: the subtree's arcs are visited in any order, each
        weighted by the load its tail loses beyond its head. With `reset`
        the memo is cleared first and the result is the subtree's value;
        without it the result is that value only when the memo was sound
        for `XV` already. */
    method CalculateVs(subtree: set<Arc>, XV: map<Arc, real>, reset: bool) returns (r: real)
      requires Ready(net) && Covers(net, XV) && Scorable(net, XV, subtree)
      modifies this
      ensures !reset ==> old(objectives).Keys <= objectives.Keys
      ensures !reset ==> Extends(old(objectives), objectives)
      ensures (reset || old(MemoSound(XV))) ==> MemoSound(XV) && r == Vs(net, XV, subtree)
      ensures !reset && (forall a | a in subtree :: a in old(objectives)) ==>
        objectives == old(objectives) && r == SetSum(subtree, MemoSummands(net, old(objectives), subtree))
    {
      if reset {
        objectives := map[];
      }
      VsSummands(net, XV, subtree);
      r := SumWeighted(subtree, XV, Weighted(net.downstreamLoad, ArcOutages(net, XV, subtree)));
    }

    /** The sum of `calculate_V_s` over the arcs of `subtree` taken in any
        order, against weights `w` that hold each arc's weighted outage
        value. */
    method SumWeighted(subtree: set<Arc>, XV: map<Arc, real>, ghost w: map<Arc, real>) returns (r: real)
      requires Ready(net) && Covers(net, XV) && Scorable(net, XV, subtree) && SummandsOf(net, XV, subtree, w)
      modifies this
      ensures old(objectives).Keys <= objectives.Keys
      ensures Extends(old(objectives), objectives)
      ensures old(MemoSound(XV)) ==> MemoSound(XV) && r == SetSum(subtree, w)
      ensures (forall a | a in subtree :: a in old(objectives)) ==>
        objectives == old(objectives) && r == SetSum(subtree, MemoSummands(net, old(objectives), subtree))
    {
      ghost var sound := MemoSound(XV);
      ghost var stale := forall a | a in subtree :: a in objectives;
      ghost var m := if stale then MemoSummands(net, objectives, subtree) else map[];
      r := 0.0;
      var rest := subtree;
      while rest != {}
        invariant rest <= subtree
        invariant old(objectives).Keys <= objectives.Keys
        invariant Extends(old(objectives), objectives)
        invariant sound ==> MemoSound(XV) && r == SetSum(subtree, w) - SetSum(rest, w)
        invariant stale ==> objectives == old(objectives) && r == SetSum(subtree, m) - SetSum(rest, m)
        decreases rest
      {
        var a :| a in rest;
        r := AddTerm(subtree, XV, w, m, rest, a, r, sound, stale);
        rest := rest - {a};
      }
    }

    /** One pass of that loop: the summand of `a` added to `r`. */
    method AddTerm(subtree: set<Arc>, XV: map<Arc, real>, ghost w: map<Arc, real>, ghost m: map<Arc, real>,
                   ghost rest: set<Arc>, a: Arc, r: real, ghost sound: bool, ghost stale: bool) returns (r': real)
      requires Ready(net) && Covers(net, XV) && Scorable(net, XV, subtree) && SummandsOf(net, XV, subtree, w)
      requires rest <= subtree && a in rest
      requires sound ==> MemoSound(XV) && r == SetSum(subtree, w) - SetSum(rest, w)
      requires stale ==> (forall b | b in subtree :: b in objectives)
      requires stale ==> m == MemoSummands(net, objectives, subtree) && r == SetSum(subtree, m) - SetSum(rest, m)
      modifies this
      ensures old(objectives).Keys <= objectives.Keys
      ensures Extends(old(objectives), objectives)
      ensures sound ==> MemoSound(XV) && r' == SetSum(subtree, w) - SetSum(rest - {a}, w)
      ensures stale ==> objectives == old(objectives) && r' == SetSum(subtree, m) - SetSum(rest - {a}, m)
    {
      SummandAt(net, XV, subtree, w, a);
      var term := WeightedContribution(a, XV);
      if sound {
        SetSumStep(subtree, rest, w, a, r);
      }
      if stale {
        assert term == m[a];
        SetSumStep(subtree, rest, m, a, r);
      }
      r' := r + term;
    }

    /** One summand of `calculate_V_s`: the arc's load drop times its
        memoised contribution, which is its outage value when the memo is
        sound. */
    method WeightedContribution(a: Arc, XV: map<Arc, real>) returns (term: real)
      requires Ready(net) && Covers(net, XV) && a in XV && a in net.edges
      modifies this
      ensures old(objectives).Keys <= objectives.Keys
      ensures Extends(old(objectives), objectives)
      ensures old(MemoSound(XV)) ==> MemoSound(XV) && term == Mul(net.downstreamLoad[a.0] - net.downstreamLoad[a.1], Outage(net, XV, a.0, a.1))
      ensures a in old(objectives) ==>
        objectives == old(objectives) && term == MemoTerm(net, old(objectives), a)
    {
      var c := CalculateContribution(a.0, a.1, XV);
      if old(MemoSound(XV)) {
        ContributionIsOutage(net, XV, a.0, a.1);
      }
      term := Mul(net.downstreamLoad[a.0] - net.downstreamLoad[a.1], c);
    }

    /** `get_subtrees`, over the arcs of `XV` in the order `order`. */
    method GetSubtrees(XV: map<Arc, real>, order: seq<Arc>) returns (output: seq<set<Arc>>)
      requires Valid(net) && Distinct(order) && Elems(order) == XV.Keys && forall a | a in order :: a in net.edges
      ensures RunsOf(net, XV, Starts(net, XV, order), output)
      ensures Union(output) <= Elems(net.edges) - Switches(XV)
      ensures Forest(net) && Indexed(net, XV) ==> Union(output) == Elems(net.edges) - Switches(XV)
    {
      IndexedOrder(net, XV, order);
      ValidNested(net);
      output := SplitAtSwitches(net, XV, order);
      SubtreesUnion(net, XV, order, output);
    }
  }
}
