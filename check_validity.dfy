/** The post-hoc constraint check of src/check_validity.py: the switch
    budget is asserted, then every arc of a solver's output is checked
    against the interruption-flow equality, the slack bound and the
    substation rule of the MIP. */
module CheckValidity {
  import opened Wrappers
  import opened Lists
  import opened Sums
  import opened Network
  import opened Outages
  import Sa
  import Util2

  /** What an optimisation run hands back: the switch values `X`, the
      slack `FSlack` of every node and the interruption time `F` of
      every arc. */
  datatype Output = Output(X: map<Arc, real>, FSlack: map<int, real>, F: map<Arc, real>)

  /** Every value the check looks up for the arc `a` of `F` is present
      (the source would stop on a missing key). */
  predicate ArcReadable(net: Network, out: Output, a: Arc)
  {
    && a in out.F && a.1 in out.FSlack && a in out.X && a.1 in net.theta && a.1 in net.outgoing
    && forall k | k in net.vertices && k in net.outgoing[a.1] :: (a.1, k) in out.F
  }

  /** Every arc of `F` can be checked. */
  predicate Readable(net: Network, out: Output)
  {
    forall a {:trigger ArcReadable(net, out, a)} | a in out.F :: ArcReadable(net, out, a)
  }

  /** `sum([F[j, k] for k in V if k in outgoing[j]])`, the nodes taken in
      the order of `vs`. */
  function ChildFlow(F: map<Arc, real>, j: int, vs: seq<int>, ks: seq<int>): real
    requires forall k | k in vs && k in ks :: (j, k) in F
  {
    if vs == [] then 0.0
    else
      var k := vs[|vs| - 1];
      ChildFlow(F, j, vs[..|vs| - 1], ks) + (if k in ks then F[(j, k)] else 0.0)
  }

  /** The equality `FSlack[j] + F[i, j] == theta[j] + sum of F[j, k]`
      fails at `a = (i, j)`. */
  predicate FlowFails(net: Network, out: Output, a: Arc)
    requires ArcReadable(net, out, a)
  {
    out.FSlack[a.1] + out.F[a] != net.theta[a.1] + ChildFlow(out.F, a.1, net.vertices, net.outgoing[a.1])
  }

  /** The slack exceeds `M * X[i, j]`. */
  predicate SlackFails(net: Network, out: Output, a: Arc)
    requires ArcReadable(net, out, a)
  {
    out.FSlack[a.1] > net.M * out.X[a]
  }

  /** An arc out of the root carries no switch. */
  predicate SubstationFails(net: Network, out: Output, a: Arc)
    requires ArcReadable(net, out, a)
  {
    a.0 == Root && out.X[a] == 0.0
  }

  /** At least one of the three checks fails at `a`. */
  predicate Flagged(net: Network, out: Output, a: Arc)
    requires ArcReadable(net, out, a)
  {
    FlowFails(net, out, a) || SlackFails(net, out, a) || SubstationFails(net, out, a)
  }

  /** `N = floor(P * len(G.edges)) + len(G.substations)`. */
  function SwitchLimit(net: Network, p: real): (n: int)
    ensures (n - |net.substations|) as real <= p * |net.edges| as real < (n - |net.substations| + 1) as real
    ensures n == Sa.Budget(p, |net.edges|, |net.substations|)
  {
    Sa.Budget(p, |net.edges|, |net.substations|)
  }

  /** The three checks of the loop body at `a = (i, j)`: each failing
      check sets the flag, which is never cleared. */
  method CheckArc(net: Network, out: Output, a: Arc, violation: bool) returns (flag: bool)
    requires ArcReadable(net, out, a)
    ensures flag <==> violation || Flagged(net, out, a)
  {
    flag := violation;
    var (i, j) := a;
    var lhs := out.FSlack[j] + out.F[a];
    var rhs := net.theta[j] + ChildFlow(out.F, j, net.vertices, net.outgoing[j]);
    if lhs != rhs {
      flag := true;
    }
    if out.FSlack[j] > net.M * out.X[a] {
      flag := true;
    }
    if i == 0 {
      if out.X[a] == 0.0 {
        flag := true;
      }
    }
  }

  /** `check_constraints`: a total of switch values above `N` is an
      assertion failure; otherwise the outcome is the `violation` flag,
      which is set exactly when some arc of `F` fails some check. The
      output is only read. */
  method CheckConstraints(net: Network, p: real, out: Output) returns (r: Result<bool, string>)
    requires Readable(net, out)
    ensures r.Failure? <==> SetSum(out.X.Keys, out.X) > SwitchLimit(net, p) as real
    ensures r.Success? ==> (r.value <==> exists a | a in out.F && ArcReadable(net, out, a) :: Flagged(net, out, a))
  {
    var total := SumOutside(out.X.Keys, {}, out.X);
    assert out.X.Keys - {} == out.X.Keys;
    if total > SwitchLimit(net, p) as real {
      return Failure("AssertionError");
    }
    var violation := false;
    var rest := out.F.Keys;
    while rest != {}
      invariant rest <= out.F.Keys
      invariant violation <==> exists a | a in out.F.Keys - rest && ArcReadable(net, out, a) :: Flagged(net, out, a)
      decreases |rest|
    {
      var a :| a in rest;
      assert ArcReadable(net, out, a);
      violation := CheckArc(net, out, a, violation);
      assert out.F.Keys - (rest - {a}) == (out.F.Keys - rest) + {a};
      rest := rest - {a};
    }
    return Success(violation);
  }

  /** Sum of `F[j, k]` over the heads `k` listed in `ks`, left to right. */
  function ArcSum(F: map<Arc, real>, j: int, ks: seq<int>): real
    requires forall k | k in ks :: (j, k) in F
  {
    if ks == [] then 0.0
    else
      var k := ks[|ks| - 1];
      assert k in ks;
      ArcSum(F, j, ks[..|ks| - 1]) + F[(j, k)]
  }

  /** Filtering the nodes `vs` by membership in the children list of `j`
      sums `F` over the heads of `j`'s arcs among `vs`. */
  lemma {:induction false} ChildFlowIsArcSum(F: map<Arc, real>, j: int, vs: seq<int>, V: seq<int>, E: seq<Arc>)
    requires forall k | k in vs :: k in V
    requires forall k | k in V && (j, k) in E :: (j, k) in F
    ensures forall k | k in Heads(vs, E, j) :: (j, k) in F
    ensures ChildFlow(F, j, vs, Heads(V, E, j)) == ArcSum(F, j, Heads(vs, E, j))
  {
    if vs != [] {
      var pre, k := vs[..|vs| - 1], vs[|vs| - 1];
      var H := Heads(V, E, j);
      ChildFlowIsArcSum(F, j, pre, V, E);
      assert k in vs;
      assert k in H <==> (j, k) in E;
      assert ChildFlow(F, j, vs, H) == ChildFlow(F, j, pre, H) + (if k in H then F[(j, k)] else 0.0);
      var hs := Heads(vs, E, j);
      if (j, k) in E {
        assert hs == Heads(pre, E, j) + [k];
        assert hs[..|hs| - 1] == Heads(pre, E, j);
      } else {
        assert hs == Heads(pre, E, j);
      }
    }
  }

  /** Over children of `j`, summing outage values read from `F` is the
      outage sum of the recursion. */
  lemma {:induction false} ArcSumIsChildOutage(net: Network, XV: map<Arc, real>, F: map<Arc, real>, j: int, ks: seq<int>)
    requires Ready(net) && Covers(net, XV) && j in net.vertices
    requires forall k | k in ks :: k in net.outgoing[j]
    requires forall k | k in net.outgoing[j] :: (j, k) in F && F[(j, k)] == Outage(net, XV, j, k)
    ensures ArcSum(F, j, ks) == ChildOutage(net, XV, j, ks)
  {
    if ks != [] {
      ArcSumIsChildOutage(net, XV, F, j, ks[..|ks| - 1]);
    }
  }

  /** The switched-off part and the remaining part add up to the whole. */
  lemma MulSplit(x: real, s: real)
    ensures Mul(1.0 - x, s) + Mul(x, s) == s
  {
  }

  /** The outage recursion is a feasible flow: with `F` the outage values
      and the slack at `j` the part switched off there,
      `XV[i, j] * (theta[j] + outages below j)`, the equality check
      passes at `(i, j)`. */
  lemma OutageFlowBalances(net: Network, XV: map<Arc, real>, out: Output, i: int, j: int)
    requires Ready(net) && Covers(net, XV) && (i, j) in XV && j in net.vertices
    requires net.outgoing[j] == Heads(net.vertices, net.edges, j)
    requires ArcReadable(net, out, (i, j)) && out.F[(i, j)] == Outage(net, XV, i, j)
    requires forall k | k in net.outgoing[j] :: (j, k) in out.F && out.F[(j, k)] == Outage(net, XV, j, k)
    requires out.FSlack[j] == Mul(XV[(i, j)], net.theta[j] + ChildOutage(net, XV, j, net.outgoing[j]))
    ensures !FlowFails(net, out, (i, j))
  {
    var ks := net.outgoing[j];
    ChildFlowIsArcSum(out.F, j, net.vertices, net.vertices, net.edges);
    ArcSumIsChildOutage(net, XV, out.F, j, ks);
    OutageBalance(net, XV, i, j, out.F[(i, j)], out.FSlack[j]);
  }

  /** The outage value of `(i, j)` and the part switched off at `j` add
      up to `theta[j]` plus the outages below `j`. */
  lemma OutageBalance(net: Network, XV: map<Arc, real>, i: int, j: int, f: real, slack: real)
    requires Ready(net) && Covers(net, XV) && (i, j) in XV && j in net.vertices
    requires f == Outage(net, XV, i, j)
    requires slack == Mul(XV[(i, j)], net.theta[j] + ChildOutage(net, XV, j, net.outgoing[j]))
    ensures slack + f == net.theta[j] + ChildOutage(net, XV, j, net.outgoing[j])
  {
    var total := ChildOutage(net, XV, j, net.outgoing[j]);
    Util2.OutageStep(net, XV, i, j, total);
    MulSplit(XV[(i, j)], net.theta[j] + total);
  }
}
