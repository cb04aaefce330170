/** The downstream-outage recursion shared by every solver of the
    repository: the value of an arc `(i, j)` is zero when the arc carries
    a switch and otherwise the outage rate of `j` plus the values of the
    arcs leaving `j`. It is written three ways in the source:

    - `Outage`: `(1 - XV[i, j]) * (theta[j] + sum of children)`, as in
      `calculate_downstream_theta` of src/outdated/util2.py and
      `calculate_F_RHS` of src/outdated/mip3.py;
    - `Contribution`: the same with an explicit `XV[i, j] == 1 -> 0`
      branch, as in `calculate_contribution` of src/util.py;
    - `FRhs`: the switch decided by membership in a placement list, as in
      `calculate_F_RHS` of src/sa.py and src/outdated/combined.py.

    The recursion terminates because the network is a forest: a child has
    strictly fewer descendants than its parent. */
module Outages {
  import opened Lists
  import opened Reach
  import opened Sums
  import opened Network

  /** A switch value for every arc the recursion can reach. */
  predicate Covers(net: Network, XV: map<Arc, real>)
  {
    forall j | j in net.outgoing :: forall k | k in net.outgoing[j] :: (j, k) in XV
  }

  /** What the recursion needs: consistent tables over a forest. */
  predicate Ready(net: Network)
  {
    Consistent(net) && Forest(net)
  }

  /** Switch values all lie between 0 and 1. */
  predicate Fractional(XV: map<Arc, real>)
  {
    forall a | a in XV :: 0.0 <= XV[a] <= 1.0
  }

  lemma ChildShrinks(net: Network, j: int, k: int)
    requires Ready(net) && j in net.vertices && k in net.outgoing[j]
    ensures |Desc(Children(net), k)| < |Desc(Children(net), j)|
  {
    DescShrinks(Children(net), j, k);
  }

  function Outage(net: Network, XV: map<Arc, real>, i: int, j: int): real
    requires Ready(net) && Covers(net, XV) && (i, j) in XV && j in net.vertices
    decreases |Desc(Children(net), j)|, 1, 0
  {
    Mul(1.0 - XV[(i, j)], net.theta[j] + ChildOutage(net, XV, j, net.outgoing[j]))
  }

  /** Sum of `Outage(j, k)` over the children `k` listed in `ks`, left to right. */
  function ChildOutage(net: Network, XV: map<Arc, real>, j: int, ks: seq<int>): real
    requires Ready(net) && Covers(net, XV) && j in net.vertices
    requires forall k | k in ks :: k in net.outgoing[j]
    decreases |Desc(Children(net), j)|, 0, |ks|
  {
    if ks == [] then 0.0
    else
      var k := ks[|ks| - 1];
      ChildShrinks(net, j, k);
      ChildOutage(net, XV, j, ks[..|ks| - 1]) + Outage(net, XV, j, k)
  }

  function Contribution(net: Network, XV: map<Arc, real>, i: int, j: int): real
    requires Ready(net) && Covers(net, XV) && (i, j) in XV && j in net.vertices
    decreases |Desc(Children(net), j)|, 1, 0
  {
    if XV[(i, j)] == 1.0 then 0.0
    else Mul(1.0 - XV[(i, j)], net.theta[j] + ChildContribution(net, XV, j, net.outgoing[j]))
  }

  function ChildContribution(net: Network, XV: map<Arc, real>, j: int, ks: seq<int>): real
    requires Ready(net) && Covers(net, XV) && j in net.vertices
    requires forall k | k in ks :: k in net.outgoing[j]
    decreases |Desc(Children(net), j)|, 0, |ks|
  {
    if ks == [] then 0.0
    else
      var k := ks[|ks| - 1];
      ChildShrinks(net, j, k);
      ChildContribution(net, XV, j, ks[..|ks| - 1]) + Contribution(net, XV, j, k)
  }

  function FRhs(net: Network, placed: seq<Arc>, i: int, j: int): real
    requires Ready(net) && j in net.vertices
    decreases |Desc(Children(net), j)|, 1, 0
  {
    var x := if (i, j) in placed then 1.0 else 0.0;
    Mul(1.0 - x, net.theta[j] + ChildFRhs(net, placed, j, net.outgoing[j]))
  }

  function ChildFRhs(net: Network, placed: seq<Arc>, j: int, ks: seq<int>): real
    requires Ready(net) && j in net.vertices
    requires forall k | k in ks :: k in net.outgoing[j]
    decreases |Desc(Children(net), j)|, 0, |ks|
  {
    if ks == [] then 0.0
    else
      var k := ks[|ks| - 1];
      ChildShrinks(net, j, k);
      ChildFRhs(net, placed, j, ks[..|ks| - 1]) + FRhs(net, placed, j, k)
  }

  /** The arcs the recursion looks up. */
  function ChildArcs(net: Network): set<Arc>
  {
    set j, k | j in net.outgoing && k in net.outgoing[j] :: (j, k)
  }

  /** The 0/1 switch vector of a placement list over the arcs `keys`. */
  function Indicator(keys: set<Arc>, placed: seq<Arc>): (XV: map<Arc, real>)
    ensures XV.Keys == keys
    ensures forall a | a in keys :: XV[a] == (if a in placed then 1.0 else 0.0)
  {
    map a | a in keys :: if a in placed then 1.0 else 0.0
  }

  /** Switch values are 0 or 1. */
  predicate Binary(XV: map<Arc, real>)
  {
    forall a | a in XV :: XV[a] == 0.0 || XV[a] == 1.0
  }

  /** The explicit `XV == 1` branch of src/util.py never changes the value:
      for every switch vector, `Contribution` is the product form. */
  lemma {:induction false} ContributionIsOutage(net: Network, XV: map<Arc, real>, i: int, j: int)
    requires Ready(net) && Covers(net, XV) && (i, j) in XV && j in net.vertices
    ensures Contribution(net, XV, i, j) == Outage(net, XV, i, j)
    decreases |Desc(Children(net), j)|, 1, 0
  {
    ChildContributionIsOutage(net, XV, j, net.outgoing[j]);
  }

  lemma {:induction false} ChildContributionIsOutage(net: Network, XV: map<Arc, real>, j: int, ks: seq<int>)
    requires Ready(net) && Covers(net, XV) && j in net.vertices
    requires forall k | k in ks :: k in net.outgoing[j]
    ensures ChildContribution(net, XV, j, ks) == ChildOutage(net, XV, j, ks)
    decreases |Desc(Children(net), j)|, 0, |ks|
  {
    if ks != [] {
      var k := ks[|ks| - 1];
      ChildShrinks(net, j, k);
      ChildContributionIsOutage(net, XV, j, ks[..|ks| - 1]);
      ContributionIsOutage(net, XV, j, k);
    }
  }

  /** The membership form of src/sa.py is the product form applied to the
      0/1 indicator of the placement list. */
  lemma {:induction false} FRhsIsOutage(net: Network, placed: seq<Arc>, keys: set<Arc>, i: int, j: int)
    requires Ready(net) && j in net.vertices
    requires ChildArcs(net) + {(i, j)} <= keys
    ensures Covers(net, Indicator(keys, placed))
    ensures FRhs(net, placed, i, j) == Outage(net, Indicator(keys, placed), i, j)
    decreases |Desc(Children(net), j)|, 1, 0
  {
    IndicatorCovers(net, placed, keys);
    ChildFRhsIsOutage(net, placed, keys, j, net.outgoing[j]);
  }

  lemma IndicatorCovers(net: Network, placed: seq<Arc>, keys: set<Arc>)
    requires ChildArcs(net) <= keys
    ensures Covers(net, Indicator(keys, placed))
  {
    forall j, k | j in net.outgoing && k in net.outgoing[j] ensures (j, k) in keys {
      assert (j, k) in ChildArcs(net);
    }
  }

  lemma {:induction false} ChildFRhsIsOutage(net: Network, placed: seq<Arc>, keys: set<Arc>, j: int, ks: seq<int>)
    requires Ready(net) && j in net.vertices
    requires ChildArcs(net) <= keys
    requires forall k | k in ks :: k in net.outgoing[j]
    ensures Covers(net, Indicator(keys, placed))
    ensures ChildFRhs(net, placed, j, ks) == ChildOutage(net, Indicator(keys, placed), j, ks)
    decreases |Desc(Children(net), j)|, 0, |ks|
  {
    IndicatorCovers(net, placed, keys);
    if ks != [] {
      var k := ks[|ks| - 1];
      ChildShrinks(net, j, k);
      assert (j, k) in ChildArcs(net);
      ChildFRhsIsOutage(net, placed, keys, j, ks[..|ks| - 1]);
      FRhsIsOutage(net, placed, keys, j, k);
    }
  }

  /** Only membership in the placement list matters: two lists with the
      same arcs, in any order and with any repetitions, give the same
      value. */
  lemma FRhsMembershipOnly(net: Network, p1: seq<Arc>, p2: seq<Arc>, i: int, j: int)
    requires Ready(net) && j in net.vertices
    requires Elems(p1) == Elems(p2)
    ensures FRhs(net, p1, i, j) == FRhs(net, p2, i, j)
  {
    var keys := ChildArcs(net) + {(i, j)};
    FRhsIsOutage(net, p1, keys, i, j);
    FRhsIsOutage(net, p2, keys, i, j);
    IndicatorOfSameArcs(keys, p1, p2);
  }

  lemma IndicatorOfSameArcs(keys: set<Arc>, p1: seq<Arc>, p2: seq<Arc>)
    requires Elems(p1) == Elems(p2)
    ensures Indicator(keys, p1) == Indicator(keys, p2)
  {
    forall a | a in keys ensures (a in p1) == (a in p2) {
      assert a in p1 <==> a in Elems(p1);
    }
  }

  /** The arcs whose switch values the value of `(i, j)` can depend on:
      `(i, j)` itself and every arc leaving `j` or one of its descendants. */
  predicate Below(net: Network, i: int, j: int, b: Arc)
  {
    b == (i, j) || b.0 == j || b.0 in Desc(Children(net), j)
  }

  /** Two switch vectors that agree on the arcs below `(i, j)` give it
      the same value. */
  lemma {:induction false} OutageCongruent(net: Network, X1: map<Arc, real>, X2: map<Arc, real>, i: int, j: int)
    requires Ready(net) && Covers(net, X1) && Covers(net, X2)
    requires (i, j) in X1 && (i, j) in X2 && j in net.vertices
    requires forall b | b in X1 && b in X2 && Below(net, i, j, b) :: X1[b] == X2[b]
    ensures Outage(net, X1, i, j) == Outage(net, X2, i, j)
    decreases |Desc(Children(net), j)|, 1, 0
  {
    ChildOutageCongruent(net, X1, X2, j, net.outgoing[j]);
  }

  lemma {:induction false} ChildOutageCongruent(net: Network, X1: map<Arc, real>, X2: map<Arc, real>, j: int, ks: seq<int>)
    requires Ready(net) && Covers(net, X1) && Covers(net, X2) && j in net.vertices
    requires forall k | k in ks :: k in net.outgoing[j]
    requires forall b | b in X1 && b in X2 && (b.0 == j || b.0 in Desc(Children(net), j)) :: X1[b] == X2[b]
    ensures ChildOutage(net, X1, j, ks) == ChildOutage(net, X2, j, ks)
    decreases |Desc(Children(net), j)|, 0, |ks|
  {
    if ks != [] {
      var k := ks[|ks| - 1];
      var g := Children(net);
      ChildShrinks(net, j, k);
      ChildIsDesc(g, j, k);
      DescTransitive(g, j, k);
      ChildOutageCongruent(net, X1, X2, j, ks[..|ks| - 1]);
      OutageCongruent(net, X1, X2, j, k);
    }
  }

  /** With switch values in [0, 1] and non-negative outage rates, the
      value is non-negative; and switching more (pointwise larger switch
      values) never increases it. */
  lemma {:induction false} OutageAntitone(net: Network, X1: map<Arc, real>, X2: map<Arc, real>, i: int, j: int)
    requires Ready(net) && NonnegativeRates(net)
    requires Covers(net, X1) && Covers(net, X2) && Fractional(X1) && Fractional(X2)
    requires (i, j) in X1 && (i, j) in X2 && j in net.vertices
    requires forall b | b in X1 && b in X2 :: X1[b] >= X2[b]
    ensures 0.0 <= Outage(net, X1, i, j) <= Outage(net, X2, i, j)
    decreases |Desc(Children(net), j)|, 1, 0
  {
    ChildOutageAntitone(net, X1, X2, j, net.outgoing[j]);
    var s1 := net.theta[j] + ChildOutage(net, X1, j, net.outgoing[j]);
    var s2 := net.theta[j] + ChildOutage(net, X2, j, net.outgoing[j]);
    assert 0.0 <= s1 <= s2;
    assert 0.0 <= 1.0 - X1[(i, j)] <= 1.0 - X2[(i, j)];
    MulMono(1.0 - X1[(i, j)], 1.0 - X2[(i, j)], s1, s2);
  }

  lemma {:induction false} ChildOutageAntitone(net: Network, X1: map<Arc, real>, X2: map<Arc, real>, j: int, ks: seq<int>)
    requires Ready(net) && NonnegativeRates(net)
    requires Covers(net, X1) && Covers(net, X2) && Fractional(X1) && Fractional(X2)
    requires j in net.vertices && forall k | k in ks :: k in net.outgoing[j]
    requires forall b | b in X1 && b in X2 :: X1[b] >= X2[b]
    ensures 0.0 <= ChildOutage(net, X1, j, ks) <= ChildOutage(net, X2, j, ks)
    decreases |Desc(Children(net), j)|, 0, |ks|
  {
    if ks != [] {
      var k := ks[|ks| - 1];
      ChildShrinks(net, j, k);
      ChildOutageAntitone(net, X1, X2, j, ks[..|ks| - 1]);
      OutageAntitone(net, X1, X2, j, k);
    }
  }

  lemma MulMono(a1: real, a2: real, b1: real, b2: real)
    requires 0.0 <= a1 <= a2 && 0.0 <= b1 <= b2
    ensures 0.0 <= a1 * b1 <= a2 * b2
  {
    assert a1 * b1 <= a2 * b1;
    assert a2 * b1 <= a2 * b2;
  }
}
