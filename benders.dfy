/** The `MIPSOL` callback of `run_optimisation` in src/benders.py, over
    the `Graph` of src/util.py: no state is kept between calls; every
    subtree value and saving is computed afresh, the savings on a copy of
    the incumbent with one more arc switched. */
module Benders {
  import opened Lists
  import opened Network
  import opened Outages
  import opened Subtrees
  import opened Cuts
  import Util

  /** The savings of the region `S` of `XV`: for each arc, `V_s` less the
      value of `S` on a copy of `XV` with that arc switched. `XV` itself
      is a value and stays as it is. */
  method SubtreeSavings(graph: Util.Graph, S: set<Arc>, XV: map<Arc, real>, vs: real) returns (savings: map<Arc, real>)
    requires Ready(graph.net) && Covers(graph.net, XV) && Scorable(graph.net, XV, S)
    modifies graph
    ensures S <= savings.Keys && SavingsOf(LoadWeighted, graph.net, XV, S, vs, savings)
  {
    savings := map[];
    var rest := S;
    while rest != {}
      invariant rest <= S && S - rest <= savings.Keys
      invariant SavingsOf(LoadWeighted, graph.net, XV, S, vs, savings)
      decreases |rest|
    {
      var b :| b in rest;
      TakeOne(S, rest, savings.Keys, b);
      var saving := SavingOnCopy(graph, S, XV, vs, b);
      SavingsPut(LoadWeighted, graph.net, XV, S, vs, savings, b, saving);
      savings := savings[b := saving];
      rest := rest - {b};
    }
  }

  /** One pass of that loop: the copy `XV_copy` with `b` switched, and
      `V_s` less its value. */
  method SavingOnCopy(graph: Util.Graph, S: set<Arc>, XV: map<Arc, real>, vs: real, b: Arc) returns (saving: real)
    requires Ready(graph.net) && Covers(graph.net, XV) && Scorable(graph.net, XV, S) && b in S
    modifies graph
    ensures Covers(graph.net, XV[b := 1.0]) && Scorable(graph.net, XV[b := 1.0], S)
    ensures vs - saving == Vs(graph.net, XV[b := 1.0], S)
  {
    SwitchOneScorable(graph.net, XV, S, b);
    var copy := XV[b := 1.0];
    var v := graph.CalculateVs(S, copy, true);
    saving := vs - v;
  }

  /** The cut for the subtree `S`: `V_s` and the savings, both fresh. */
  method CutFor(graph: Util.Graph, S: set<Arc>, XV: map<Arc, real>) returns (cut: LazyCut)
    requires Ready(graph.net) && Covers(graph.net, XV) && Scorable(graph.net, XV, S)
    modifies graph
    ensures cut.arcs == S && CutOf(LoadWeighted, graph.net, XV, cut)
  {
    var vs := graph.CalculateVs(S, XV, true);
    var savings := SubtreeSavings(graph, S, XV, vs);
    cut := LazyCut(S, vs, savings);
  }

  /** The subtree loop: one cut per subtree, in order. */
  method CutsFor(graph: Util.Graph, XV: map<Arc, real>, subtrees: seq<set<Arc>>) returns (cuts: seq<LazyCut>)
    requires Ready(graph.net) && Regions(graph.net, XV, subtrees)
    modifies graph
    ensures ArcSeq(cuts) == subtrees && CutsOf(LoadWeighted, graph.net, XV, cuts)
  {
    cuts := [];
    var t := 0;
    while t < |subtrees|
      invariant 0 <= t <= |subtrees|
      invariant ArcSeq(cuts) == subtrees[..t] && CutsOf(LoadWeighted, graph.net, XV, cuts)
    {
      assert Region(graph.net, XV, subtrees[t]);
      var cut := CutFor(graph, subtrees[t], XV);
      CutsAppend(LoadWeighted, graph.net, XV, cuts, cut);
      ArcSeqAppend(cuts, cut, subtrees, t);
      cuts := cuts + [cut];
      t := t + 1;
    }
    assert subtrees[..|subtrees|] == subtrees;
  }

  /** The value `Callback` reports for a rounded incumbent is at least the
      lower bound `Elb` when loads and outage rates are non-negative. */
  lemma ReportedAboveLowerBound(net: Network, XV: map<Arc, real>)
    requires Valid(net) && Forest(net) && NonnegativeRates(net) && NonnegativeLoads(net)
    requires Indexed(net, XV) && Binary(XV)
    ensures Covers(net, XV) && Scorable(net, XV, Elems(net.edges))
    ensures LowerBound(net) <= Vs(net, XV, Elems(net.edges)) + LowerBound(net)
  {
    IndexedCovers(net, XV);
    assert Fractional(XV);
    Util.VsNonnegative(net, XV, Elems(net.edges));
  }

  /** The `MIPSOL` branch of `Callback` on the solver's incumbent `raw`:
      it is rounded; the value it reports is `calculate_V_s` over all arcs
      plus the lower bound `Elb`; and one cut per subtree, in arc order, is
      returned for `cbLazy`. The cuts depend on the incumbent alone. */
  method Callback(graph: Util.Graph, raw: map<Arc, real>) returns (current: real, cuts: seq<LazyCut>)
    requires Valid(graph.net) && Radial(graph.net) && Forest(graph.net) && Distinct(graph.net.edges)
    requires Indexed(graph.net, raw) && NearBinary(raw)
    modifies graph
    ensures Covers(graph.net, Rounded(raw)) && Scorable(graph.net, Rounded(raw), Elems(graph.net.edges))
    ensures current == Vs(graph.net, Rounded(raw), Elems(graph.net.edges)) + LowerBound(graph.net)
    ensures RunsOf(graph.net, Rounded(raw), Starts(graph.net, Rounded(raw), graph.net.edges), ArcSeq(cuts))
    ensures CutsOf(LoadWeighted, graph.net, Rounded(raw), cuts)
  {
    var XV := Rounded(raw);
    RoundedBinary(raw);
    IndexedCovers(graph.net, XV);
    var all := graph.CalculateVs(Elems(graph.net.edges), XV, true);
    current := all + LowerBound(graph.net);
    var subtrees := graph.GetSubtrees(XV, graph.net.edges);
    SubtreesAreRegions(graph.net, XV, Starts(graph.net, XV, graph.net.edges), subtrees);
    cuts := CutsFor(graph, XV, subtrees);
  }
}
