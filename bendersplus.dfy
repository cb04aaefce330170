/** The Benders decomposition of src/bendersplus.py over the `Graph` of
    src/outdated/util2.py: the master's forced switches and switch budget,
    and the `MIPSOL` callback, which keeps two dictionaries across calls,
    `_downstream_theta` with the plain outage sum of each subtree and
    `_searched_subtrees` with its savings, both keyed by the subtree's
    tuple of arcs. */
module BendersPlus {
  import opened Lists
  import opened Sums
  import opened Network
  import opened Outages
  import opened Subtrees
  import opened Cuts
  import Sa
  import Util2

  // ---------------------------------------------------------------------
  // The master problem's switch constraints
  // ---------------------------------------------------------------------

  /** `[(0, j) for j in V if (0, j) in A]`: the arcs whose switch is
      forced to 1. */
  function ForcedArcs(vs: seq<int>, edges: seq<Arc>): (r: seq<Arc>)
    ensures forall a :: a in r <==> a.0 == Root && a.1 in vs && a in edges
    ensures Distinct(vs) ==> Distinct(r)
  {
    if vs == [] then []
    else
      var last := vs[|vs| - 1];
      assert vs == vs[..|vs| - 1] + [last];
      ForcedArcs(vs[..|vs| - 1], edges) + (if (Root, last) in edges then [(Root, last)] else [])
  }

  /** The arcs `(0, s)` for the nodes `s` of `S`. */
  function RootPairs(S: set<int>): (r: set<Arc>)
    ensures forall a :: a in r <==> a.0 == Root && a.1 in S
  {
    RootPairsExact(S);
    set s | s in S :: (Root, s)
  }

  lemma RootPairsExact(S: set<int>)
    ensures forall a: Arc :: a in (set s | s in S :: (Root, s)) <==> a.0 == Root && a.1 in S
  {
    forall a: Arc | a.0 == Root && a.1 in S ensures a in (set s | s in S :: (Root, s)) {
      RootPairMember(S, a.1);
    }
  }

  lemma RootPairMember(S: set<int>, x: int)
    requires x in S
    ensures (Root, x) in (set s | s in S :: (Root, s))
  {
  }

  /** In a constructed network the forced arcs are exactly the arcs from
      the root to the substations. */
  lemma ForcedArcsAreSubstationArcs(nodes: seq<Node>, edges: seq<Arc>, net: Network)
    requires WellFormedInput(nodes, edges) && net == MakeNetwork(nodes, edges)
    ensures Elems(ForcedArcs(net.vertices, net.edges)) == RootPairs(net.substations)
  {
    MakeNetworkValid(nodes, edges);
    ArcListShape(nodes, edges);
    ForcedArcsShape(nodes, edges, net);
  }

  lemma ForcedArcsShape(nodes: seq<Node>, edges: seq<Arc>, net: Network)
    requires WellFormedInput(nodes, edges) && Consistent(net)
    requires |edges| <= |net.edges| && net.edges[..|edges|] == edges
    requires forall a :: a in net.edges[|edges|..] <==> a.0 == Root && a.1 in net.substations
    ensures Elems(ForcedArcs(net.vertices, net.edges)) == RootPairs(net.substations)
  {
    assert net.edges == net.edges[..|edges|] + net.edges[|edges|..];
    forall a ensures a in ForcedArcs(net.vertices, net.edges) <==> a in RootPairs(net.substations) {
      if a in RootPairs(net.substations) {
        assert a in net.edges[|edges|..];
      }
    }
  }

  /** One root arc per substation. */
  lemma {:induction false} RootPairsCount(S: set<int>)
    ensures |RootPairs(S)| == |S|
    decreases |S|
  {
    if S != {} {
      var x := AnyOf(S);
      RootPairsCount(S - {x});
      assert RootPairs(S) == RootPairs(S - {x}) + {(Root, x)};
    }
  }

  /** A 0/1 vector summed over its keys counts its ones. */
  lemma {:induction false} IndicatorSum(keys: set<Arc>, placed: seq<Arc>)
    ensures SetSum(keys, Indicator(keys, placed)) == |keys * Elems(placed)| as real
    decreases |keys|
  {
    if keys != {} {
      var a :| a in keys;
      var I := Indicator(keys, placed);
      SetSumRemove(keys, I, a);
      IndicatorSum(keys - {a}, placed);
      SetSumAgree(keys - {a}, I, Indicator(keys - {a}, placed));
      if a in placed {
        assert keys * Elems(placed) == (keys - {a}) * Elems(placed) + {a};
      } else {
        assert keys * Elems(placed) == (keys - {a}) * Elems(placed);
      }
    }
  }

  /** The master's switch constraints on a vector `X` over the arcs:
      binary, every forced arc switched, and at most `n` switches. */
  ghost predicate MasterFeasible(net: Network, X: map<Arc, real>, n: int)
  {
    && Indexed(net, X) && Binary(X)
    && (forall a | a in ForcedArcs(net.vertices, net.edges) :: a in X && X[a] == 1.0)
    && SetSum(Elems(net.edges), X) <= n as real
  }

  /** `N = floor(P * len(A)) + len(G.substations)` counts the forced
      switches on top of the share `P` of all arcs: the forced switches
      alone always meet the master's switch constraints, and they leave
      exactly `floor(P * len(A))` switches free. */
  lemma ForcedPlacementFeasible(nodes: seq<Node>, edges: seq<Arc>, p: real, net: Network)
    requires WellFormedInput(nodes, edges) && net == MakeNetwork(nodes, edges) && 0.0 <= p
    ensures var n := Sa.Budget(p, |net.edges|, |net.substations|);
      var forced := ForcedArcs(net.vertices, net.edges);
      && n - |Elems(forced)| == (p * |net.edges| as real).Floor
      && MasterFeasible(net, Indicator(Elems(net.edges), forced), n)
  {
    MakeNetworkValid(nodes, edges);
    ForcedArcsAreSubstationArcs(nodes, edges, net);
    ForcedBudget(net, p);
  }

  lemma ForcedBudget(net: Network, p: real)
    requires Consistent(net) && 0.0 <= p
    requires Elems(ForcedArcs(net.vertices, net.edges)) == RootPairs(net.substations)
    ensures var n := Sa.Budget(p, |net.edges|, |net.substations|);
      var forced := ForcedArcs(net.vertices, net.edges);
      && n - |Elems(forced)| == (p * |net.edges| as real).Floor
      && MasterFeasible(net, Indicator(Elems(net.edges), forced), n)
  {
    var forced := ForcedArcs(net.vertices, net.edges);
    RootPairsCount(net.substations);
    ForcedSum(net, forced);
    BudgetCovers(p, |net.edges|, |net.substations|);
  }

  /** With a non-negative share, the budget is at least the number of
      substations, and exceeds it by the floor of the share of the arcs. */
  lemma BudgetCovers(p: real, arcCount: nat, substationCount: nat)
    requires 0.0 <= p
    ensures Sa.Budget(p, arcCount, substationCount) - substationCount == (p * arcCount as real).Floor >= 0
  {
    assert 0.0 <= p * arcCount as real;
  }

  /** The forced switches alone count one switch per forced arc. */
  lemma ForcedSum(net: Network, forced: seq<Arc>)
    requires forall a | a in forced :: a in net.edges
    ensures var X := Indicator(Elems(net.edges), forced);
      && Indexed(net, X) && Binary(X) && (forall a | a in forced :: a in X && X[a] == 1.0)
      && SetSum(Elems(net.edges), X) == |Elems(forced)| as real
  {
    IndicatorSum(Elems(net.edges), forced);
    assert Elems(net.edges) * Elems(forced) == Elems(forced);
  }

  // ---------------------------------------------------------------------
  // The two caches of the callback
  // ---------------------------------------------------------------------

  /** The cached `theta_s` of the tuple `t` is the plain outage sum of its
      arcs at the incumbent it was computed at, of which it is a region. */
  ghost predicate ThetaAt(net: Network, thetas: map<seq<Arc>, real>, from: map<seq<Arc>, map<Arc, real>>, t: seq<Arc>)
    requires Ready(net) && t in thetas
  {
    t in from && Region(net, from[t], Elems(t)) && thetas[t] == ThetaSum(net, from[t], Elems(t))
  }

  ghost predicate ThetasExact(net: Network, thetas: map<seq<Arc>, real>, from: map<seq<Arc>, map<Arc, real>>)
    requires Ready(net)
  {
    forall t {:trigger ThetaAt(net, thetas, from, t)} | t in thetas :: ThetaAt(net, thetas, from, t)
  }

  /** The cached savings of `t` are exact for the incumbent recorded with
      them. */
  ghost predicate SavingsAt(net: Network, searched: map<seq<Arc>, map<Arc, real>>, from: map<seq<Arc>, map<Arc, real>>, t: seq<Arc>)
    requires Ready(net) && t in searched
  {
    t in from && EntryExact(Plain, net, Elems(t), searched[t], from[t])
  }

  ghost predicate SavingsExact(net: Network, searched: map<seq<Arc>, map<Arc, real>>, from: map<seq<Arc>, map<Arc, real>>)
    requires Ready(net)
  {
    forall t {:trigger SavingsAt(net, searched, from, t)} | t in searched :: SavingsAt(net, searched, from, t)
  }

  /** A cached `theta_s` is the value of its subtree at every incumbent of
      which the subtree is a region. */
  lemma CachedThetaExact(net: Network, thetas: map<seq<Arc>, real>, from: map<seq<Arc>, map<Arc, real>>, t: seq<Arc>, XV: map<Arc, real>)
    requires Ready(net) && ThetasExact(net, thetas, from) && t in thetas && Region(net, XV, Elems(t))
    ensures thetas[t] == ThetaSum(net, XV, Elems(t))
  {
    assert ThetaAt(net, thetas, from, t);
    RegionValueLocal(net, from[t], XV, Elems(t));
  }

  lemma ThetasExactPut(net: Network, thetas: map<seq<Arc>, real>, from: map<seq<Arc>, map<Arc, real>>,
                       t: seq<Arc>, v: real, X: map<Arc, real>)
    requires Ready(net) && ThetasExact(net, thetas, from) && Region(net, X, Elems(t))
    requires v == ThetaSum(net, X, Elems(t))
    ensures ThetasExact(net, thetas[t := v], from[t := X])
  {
    var th2, f2 := thetas[t := v], from[t := X];
    forall u | u in th2 ensures ThetaAt(net, th2, f2, u) {
      if u != t {
        assert ThetaAt(net, thetas, from, u);
        UpdateElsewhere(thetas, t, v, u);
        UpdateElsewhere(from, t, X, u);
      }
    }
  }

  lemma SavingsExactAt(net: Network, searched: map<seq<Arc>, map<Arc, real>>, from: map<seq<Arc>, map<Arc, real>>, t: seq<Arc>)
    requires Ready(net) && SavingsExact(net, searched, from) && t in searched
    ensures t in from && EntryExact(Plain, net, Elems(t), searched[t], from[t])
  {
    assert SavingsAt(net, searched, from, t);
  }

  lemma SavingsExactPut(net: Network, searched: map<seq<Arc>, map<Arc, real>>, from: map<seq<Arc>, map<Arc, real>>,
                        t: seq<Arc>, savings: map<Arc, real>, X: map<Arc, real>)
    requires Ready(net) && SavingsExact(net, searched, from)
    requires EntryExact(Plain, net, Elems(t), savings, X)
    ensures SavingsExact(net, searched[t := savings], from[t := X])
  {
    var s2, f2 := searched[t := savings], from[t := X];
    forall u | u in s2 ensures SavingsAt(net, s2, f2, u) {
      if u != t {
        assert SavingsAt(net, searched, from, u);
        UpdateElsewhere(searched, t, savings, u);
        UpdateElsewhere(from, t, X, u);
      }
    }
  }

  /** The `p`-th cut is over the `p`-th tuple, and its constant and savings
      are what the two caches hold for that tuple. */
  ghost predicate Recorded(keys: seq<seq<Arc>>, cuts: seq<LazyCut>, thetas: map<seq<Arc>, real>, searched: map<seq<Arc>, map<Arc, real>>)
  {
    && |keys| == |cuts|
    && forall p | 0 <= p < |cuts| ::
         && cuts[p].arcs == Elems(keys[p])
         && keys[p] in thetas && cuts[p].rhs == thetas[keys[p]]
         && keys[p] in searched && cuts[p].savings == searched[keys[p]]
  }

  lemma RecordedAppend(keys: seq<seq<Arc>>, cuts: seq<LazyCut>, t: seq<Arc>, cut: LazyCut,
                       th1: map<seq<Arc>, real>, s1: map<seq<Arc>, map<Arc, real>>,
                       th2: map<seq<Arc>, real>, s2: map<seq<Arc>, map<Arc, real>>)
    requires Recorded(keys, cuts, th1, s1) && Extends(th1, th2) && Extends(s1, s2)
    requires cut.arcs == Elems(t) && t in th2 && cut.rhs == th2[t] && t in s2 && cut.savings == s2[t]
    ensures Recorded(keys + [t], cuts + [cut], th2, s2)
  {
  }

  /** The callback's state, the two dictionaries `_downstream_theta` and
      `_searched_subtrees` of `run_benders` over the `Graph` `graph`. Each
      entry also records, as ghost state, the incumbent it was computed at. */
  class ThetaCutCache {
    const graph: Util2.Graph
    var thetas: map<seq<Arc>, real>
    var searched: map<seq<Arc>, map<Arc, real>>
    ghost var thetaFrom: map<seq<Arc>, map<Arc, real>>
    ghost var savingsFrom: map<seq<Arc>, map<Arc, real>>

    constructor(graph: Util2.Graph)
      ensures this.graph == graph && thetas == map[] && searched == map[]
      ensures thetaFrom == map[] && savingsFrom == map[]
    {
      this.graph := graph;
      thetas := map[];
      searched := map[];
      thetaFrom := map[];
      savingsFrom := map[];
    }

    /** Every entry of both dictionaries is exact for the incumbent it
        was computed at. */
    ghost predicate Exact()
      reads this
      requires Ready(graph.net)
    {
      ThetasExact(graph.net, thetas, thetaFrom) && SavingsExact(graph.net, searched, savingsFrom)
    }

    /** `theta_s`: `get_downstream_theta(subtree, XV)` stored under the
        tuple the first time it is seen, and read back afterwards. */
    method Theta(t: seq<Arc>, XV: map<Arc, real>) returns (thetaS: real)
      requires Ready(graph.net) && Distinct(t) && Region(graph.net, XV, Elems(t)) && Exact()
      modifies this, graph
      ensures Exact() && searched == old(searched) && savingsFrom == old(savingsFrom)
      ensures thetaS == ThetaSum(graph.net, XV, Elems(t)) && t in thetas && thetas[t] == thetaS
      ensures Extends(old(thetas), thetas) && thetas.Keys == old(thetas).Keys + {t}
    {
      if t !in thetas {
        var v := graph.GetDownstreamTheta(t, XV);
        ThetasExactPut(graph.net, thetas, thetaFrom, t, v, XV);
        ExtendsPut(thetas, t, v);
        thetas := thetas[t := v];
        thetaFrom := thetaFrom[t := XV];
      } else {
        CachedThetaExact(graph.net, thetas, thetaFrom, t, XV);
        ExtendsPresent(thetas, t);
      }
      thetaS := thetas[t];
    }

    /** The tentative-switch loop over the tuple: each arc is switched in
        `XV`, `get_downstream_theta` taken, and the arc switched back to 0.
        The arcs carry no switch, so `XV` ends as it started. */
    method SearchSubtree(t: seq<Arc>, XV: map<Arc, real>, thetaS: real) returns (savings: map<Arc, real>, X: map<Arc, real>)
      requires Ready(graph.net) && Distinct(t) && Region(graph.net, XV, Elems(t))
      modifies graph
      ensures X == XV && Elems(t) <= savings.Keys && SavingsOf(Plain, graph.net, XV, Elems(t), thetaS, savings)
    {
      savings := map[];
      X := XV;
      var k := 0;
      while k < |t|
        invariant 0 <= k <= |t| && X == XV
        invariant Elems(t[..k]) <= savings.Keys
        invariant SavingsOf(Plain, graph.net, XV, Elems(t), thetaS, savings)
      {
        savings, X := SearchStep(t, XV, thetaS, savings, k);
        k := k + 1;
      }
      assert t[..|t|] == t;
    }

    /** One arc of that loop: its saving is added to `savings`. */
    method SearchStep(t: seq<Arc>, XV: map<Arc, real>, thetaS: real, savings: map<Arc, real>, k: nat)
      returns (savings': map<Arc, real>, X: map<Arc, real>)
      requires Ready(graph.net) && Distinct(t) && Region(graph.net, XV, Elems(t)) && k < |t|
      requires Elems(t[..k]) <= savings.Keys && SavingsOf(Plain, graph.net, XV, Elems(t), thetaS, savings)
      modifies graph
      ensures X == XV && Elems(t[..k + 1]) <= savings'.Keys
      ensures SavingsOf(Plain, graph.net, XV, Elems(t), thetaS, savings')
    {
      var b := t[k];
      var saving;
      saving, X := TrySwitch(t, XV, thetaS, b);
      SavingsPut(Plain, graph.net, XV, Elems(t), thetaS, savings, b, saving);
      ElemsPrefix(t, k);
      savings' := savings[b := saving];
    }

    /** One pass of that loop: `b` switched, the tuple's outage sum taken,
        and `b` switched back. */
    method TrySwitch(t: seq<Arc>, XV: map<Arc, real>, thetaS: real, b: Arc) returns (saving: real, X: map<Arc, real>)
      requires Ready(graph.net) && Distinct(t) && Covers(graph.net, XV) && Scorable(graph.net, XV, Elems(t))
      requires b in t && XV[b] == 0.0
      modifies graph
      ensures X == XV && Covers(graph.net, XV[b := 1.0]) && Scorable(graph.net, XV[b := 1.0], Elems(t))
      ensures thetaS - saving == ThetaSum(graph.net, XV[b := 1.0], Elems(t))
    {
      SwitchOneScorable(graph.net, XV, Elems(t), b);
      X := XV[b := 1.0];
      var v := graph.GetDownstreamTheta(t, X);
      saving := thetaS - v;
      FlipBack(XV, b);
      X := X[b := 0.0];
    }

    /** The savings of `subtree`: computed by the tentative-switch loop and
        stored the first time the tuple is seen, read back afterwards. */
    method Savings(t: seq<Arc>, XV: map<Arc, real>, thetaS: real) returns (savings: map<Arc, real>, X: map<Arc, real>)
      requires Ready(graph.net) && Distinct(t) && Region(graph.net, XV, Elems(t)) && Exact()
      requires thetaS == ThetaSum(graph.net, XV, Elems(t))
      modifies this, graph
      ensures X == XV && Exact() && thetas == old(thetas) && thetaFrom == old(thetaFrom)
      ensures Elems(t) <= savings.Keys && SavingsOf(Plain, graph.net, XV, Elems(t), thetaS, savings)
      ensures t in searched && savings == searched[t]
      ensures Extends(old(searched), searched) && searched.Keys == old(searched).Keys + {t}
    {
      if t !in searched {
        savings, X := SearchSubtree(t, XV, thetaS);
        SavingsExactPut(graph.net, searched, savingsFrom, t, savings, XV);
        ExtendsPut(searched, t, savings);
        searched := searched[t := savings];
        savingsFrom := savingsFrom[t := XV];
      } else {
        X := XV;
        SavingsExactAt(graph.net, searched, savingsFrom, t);
        CachedSavingsReusable(Plain, graph.net, Elems(t), searched[t], savingsFrom[t], XV);
        ExtendsPresent(searched, t);
        savings := searched[t];
      }
    }

    /** The body of the subtree loop of the callback for the tuple `t` of
        the incumbent `XV`: the cut `sum(Lambda) >= theta_s - sum(Savings * X)`. */
    method CutFor(t: seq<Arc>, XV: map<Arc, real>) returns (cut: LazyCut)
      requires Ready(graph.net) && Distinct(t) && Region(graph.net, XV, Elems(t)) && Exact()
      modifies this, graph
      ensures Exact() && cut.arcs == Elems(t) && CutOf(Plain, graph.net, XV, cut)
      ensures t in thetas && cut.rhs == thetas[t] && t in searched && cut.savings == searched[t]
      ensures Extends(old(thetas), thetas) && thetas.Keys == old(thetas).Keys + {t}
      ensures Extends(old(searched), searched) && searched.Keys == old(searched).Keys + {t}
    {
      var thetaS := Theta(t, XV);
      var savings, _ := Savings(t, XV, thetaS);
      cut := LazyCut(Elems(t), thetaS, savings);
    }

    /** After the first cuts of the subtree loop, started with the caches
        `th0` and `s0`: one cut per tuple so far, each recorded in both
        caches, which have gained exactly those tuples. */
    ghost predicate Built(XV: map<Arc, real>, keys: seq<seq<Arc>>, cuts: seq<LazyCut>,
                          th0: map<seq<Arc>, real>, s0: map<seq<Arc>, map<Arc, real>>)
      reads this
      requires Ready(graph.net)
    {
      && Exact() && CutsOf(Plain, graph.net, XV, cuts) && Recorded(keys, cuts, thetas, searched)
      && Extends(th0, thetas) && thetas.Keys == th0.Keys + Elems(keys)
      && Extends(s0, searched) && searched.Keys == s0.Keys + Elems(keys)
    }

    /** One pass of the subtree loop: the cut for `tuples[k]`. */
    method NextCut(XV: map<Arc, real>, tuples: seq<seq<Arc>>, k: nat, cuts: seq<LazyCut>,
                   ghost th0: map<seq<Arc>, real>, ghost s0: map<seq<Arc>, map<Arc, real>>)
      returns (cuts': seq<LazyCut>)
      requires Ready(graph.net) && k < |tuples| && Distinct(tuples[k]) && Region(graph.net, XV, Elems(tuples[k]))
      requires Built(XV, tuples[..k], cuts, th0, s0)
      modifies this, graph
      ensures Built(XV, tuples[..k + 1], cuts', th0, s0)
    {
      ghost var th1, s1 := thetas, searched;
      var cut := CutFor(tuples[k], XV);
      ElemsAppend(tuples[..k], tuples[k]);
      assert tuples[..k + 1] == tuples[..k] + [tuples[k]];
      ExtendsTrans(th0, th1, thetas, Elems(tuples[..k]), {tuples[k]});
      ExtendsTrans(s0, s1, searched, Elems(tuples[..k]), {tuples[k]});
      RecordedAppend(tuples[..k], cuts, tuples[k], cut, th1, s1, thetas, searched);
      CutsAppend(Plain, graph.net, XV, cuts, cut);
      cuts' := cuts + [cut];
    }

    /** The subtree loop of the callback over the tuples, in order. */
    method CutsFor(XV: map<Arc, real>, tuples: seq<seq<Arc>>) returns (cuts: seq<LazyCut>)
      requires Ready(graph.net) && Regions(graph.net, XV, Util2.Sets(tuples)) && Exact()
      requires forall p | 0 <= p < |tuples| :: Distinct(tuples[p])
      modifies this, graph
      ensures Built(XV, tuples, cuts, old(thetas), old(searched))
    {
      cuts := [];
      ExtendsRefl(thetas);
      ExtendsRefl(searched);
      var k := 0;
      while k < |tuples|
        invariant 0 <= k <= |tuples| && Built(XV, tuples[..k], cuts, old(thetas), old(searched))
      {
        assert Util2.Sets(tuples)[k] == Elems(tuples[k]);
        cuts := NextCut(XV, tuples, k, cuts, old(thetas), old(searched));
        k := k + 1;
      }
      assert tuples[..|tuples|] == tuples;
    }

    /** The `MIPSOL` branch of `Callback` on the solver's incumbent `raw`:
        it is rounded, split into tuples of arcs in arc order, and one cut
        per tuple is returned for `cbLazy`, in order. Each cut's constant
        is the plain outage sum of its subtree at the incumbent and its
        savings are the subtree's savings at the incumbent, cached or not;
        both caches gain exactly the tuples seen. */
    method Callback(raw: map<Arc, real>) returns (cuts: seq<LazyCut>, ghost tuples: seq<seq<Arc>>)
      requires Valid(graph.net) && Radial(graph.net) && Forest(graph.net) && Distinct(graph.net.edges)
      requires Indexed(graph.net, raw) && NearBinary(raw) && Exact()
      modifies this, graph
      ensures Exact()
      ensures RunsOf(graph.net, Rounded(raw), Starts(graph.net, Rounded(raw), graph.net.edges), ArcSeq(cuts))
      ensures CutsOf(Plain, graph.net, Rounded(raw), cuts) && Recorded(tuples, cuts, thetas, searched)
      ensures Extends(old(thetas), thetas) && thetas.Keys == old(thetas).Keys + Elems(tuples)
      ensures Extends(old(searched), searched) && searched.Keys == old(searched).Keys + Elems(tuples)
    {
      var XV := Rounded(raw);
      RoundedBinary(raw);
      var out := graph.GetSubtrees(XV, graph.net.edges);
      SubtreesAreRegions(graph.net, XV, Starts(graph.net, XV, graph.net.edges), Util2.Sets(out));
      cuts := CutsFor(XV, out);
      tuples := out;
      assert ArcSeq(cuts) == Util2.Sets(out);
    }
  }
}
