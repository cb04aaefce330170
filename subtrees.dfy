/** The subtree decomposition of `get_subtrees` (src/util.py and
    src/outdated/util2.py), stated on values: for a switch placement, the
    run of an arc is its downstream arc tree with every tree hanging below
    a switched arc cut away. This module defines runs, the order-driven
    list of runs the source emits, the value of a subtree, and proves
    what the decomposition and the cut cache rely on. */
module Subtrees {
  import opened Lists
  import opened Reach
  import opened Sums
  import opened Network
  import opened Outages

  /** Every node has at most one incoming arc. */
  predicate Radial(net: Network)
  {
    forall a, b | a in net.edges && b in net.edges && a.1 == b.1 :: a == b
  }

  /** `v` and every node below it. */
  function Down(net: Network, v: int): set<int>
    requires Consistent(net) && v in net.vertices
  {
    net.successors[v] + {v}
  }

  /** An arc together with its successor arcs: `successor_arcs[a] | {a}`. */
  function Tree(net: Network, a: Arc): set<Arc>
    requires Consistent(net) && a in net.edges
  {
    net.successorArcs[a] + {a}
  }

  /** The arcs carrying a switch. */
  function Switches(XV: map<Arc, real>): set<Arc>
  {
    set a | a in XV && XV[a] == 1.0
  }

  /** The arcs of `Tree(a)` lying in the tree of some arc of `D` that is in `Tree(a)`. */
  function Cut(net: Network, a: Arc, D: set<Arc>): set<Arc>
    requires Consistent(net) && a in net.edges
  {
    set b | b in Tree(net, a) && exists r :: r in D && r in net.edges && r in Tree(net, a) && b in Tree(net, r)
  }

  /** The run of `a`: the arcs of its tree not cut off by a switched arc
      of the same tree. */
  function Run(net: Network, XV: map<Arc, real>, a: Arc): set<Arc>
    requires Consistent(net) && a in net.edges
  {
    Tree(net, a) - Cut(net, a, Switches(XV))
  }

  /** Membership in a tree, in terms of the nodes below the arc's head. */
  lemma TreeMember(net: Network, a: Arc, b: Arc)
    requires Valid(net) && a in net.edges
    ensures b in Tree(net, a) <==>
      b == a || (b in net.edges && b.0 in Down(net, a.1) && b.1 in Down(net, a.1))
  {
    assert a in net.successorArcs;
  }

  /** The tree of an arc of a tree lies inside it. */
  lemma TreeNested(net: Network, a: Arc, b: Arc)
    requires Valid(net) && a in net.edges && b in Tree(net, a)
    ensures b in net.edges && Tree(net, b) <= Tree(net, a)
  {
    if b != a {
      SuccessorArcsNested(net, a, b);
    }
  }

  /** An arc of the successor relation is an arc of the network. */
  lemma ChildIsArc(net: Network, q: int, x: int)
    requires Valid(net) && q in Children(net) && x in Children(net)[q]
    ensures (q, x) in net.edges
  {
    OutgoingExact(net, q, x);
  }

  /** In a radial network the parent of a node below `u` is `u` or below `u`. */
  lemma ParentBelow(net: Network, u: int, x: int, p: int)
    requires Valid(net) && Radial(net) && u in net.vertices
    requires x in net.successors[u] && (p, x) in net.edges
    ensures p in Down(net, u)
  {
    var g := Children(net);
    assert x in Desc(g, u);
    var q := DescParent(g, u, x);
    ChildIsArc(net, q, x);
    RadialParent(net, (q, x), (p, x));
  }

  lemma RadialParent(net: Network, a: Arc, b: Arc)
    requires Radial(net) && a in net.edges && b in net.edges && a.1 == b.1
    ensures a.0 == b.0
  {
  }

  /** In a radial network every node has at most one parent. */
  lemma RadialUniqueParents(net: Network)
    requires Valid(net) && Radial(net)
    ensures UniqueParents(Children(net))
  {
    var g := Children(net);
    forall q1, q2, x | q1 in g && q2 in g && x in g[q1] && x in g[q2] ensures q1 == q2 {
      ChildIsArc(net, q1, x);
      ChildIsArc(net, q2, x);
      RadialParent(net, (q1, x), (q2, x));
    }
  }

  /** In a radial network two nodes with a common node below them lie
      one below the other. */
  lemma NodeLaminar(net: Network, u: int, w: int, z: int)
    requires Valid(net) && Radial(net) && u in net.vertices && w in net.vertices
    requires z in Down(net, u) && z in Down(net, w)
    ensures u in Down(net, w) || w in Down(net, u)
  {
    var g := Children(net);
    if z != u {
      DescIsReachability(g, u, z);
      var p :| IsWalk(g, p) && p[0] == u && p[|p| - 1] == z;
      RadialUniqueParents(net);
      WalkMeetsBelow(g, p, w);
    }
  }

  /** An arc whose head lies below the head of `y` is in the tree of `y`. */
  lemma HeadBelow(net: Network, x: Arc, y: Arc)
    requires Valid(net) && Radial(net) && x in net.edges && y in net.edges
    ensures x.1 in Down(net, y.1) ==> x in Tree(net, y)
  {
    TreeMember(net, y, x);
    if x.1 in Down(net, y.1) && x.1 != y.1 {
      ParentBelow(net, y.1, x.1, x.0);
    }
  }

  /** Trees of a radial network are laminar: two trees that meet are nested. */
  lemma TreeLaminar(net: Network, x: Arc, y: Arc, b: Arc)
    requires Valid(net) && Radial(net) && x in net.edges && y in net.edges
    requires b in Tree(net, x) && b in Tree(net, y)
    ensures x in Tree(net, y) || y in Tree(net, x)
  {
    TreeMember(net, x, b);
    TreeMember(net, y, b);
    if b != x && b != y {
      NodeLaminar(net, x.1, y.1, b.0);
      if x.1 in Down(net, y.1) {
        HeadBelow(net, x, y);
      } else {
        HeadBelow(net, y, x);
      }
    }
  }

  /** No arc of a run carries a switch. */
  lemma RunSwitchFree(net: Network, XV: map<Arc, real>, a: Arc)
    requires Valid(net) && a in net.edges
    ensures forall b | b in Run(net, XV, a) :: b !in Switches(XV)
  {
    forall b | b in Run(net, XV, a) ensures b !in Switches(XV) {
      TreeNested(net, a, b);
      assert b in Tree(net, b);
    }
  }

  /** A run lies inside the tree it starts from. */
  lemma RunInTree(net: Network, XV: map<Arc, real>, a: Arc)
    requires Consistent(net) && a in net.edges
    ensures Run(net, XV, a) <= Tree(net, a)
  {
  }

  /** In a forest an arc strictly below `a` does not have `a` in its tree. */
  lemma TreesAntisymmetric(net: Network, a: Arc, r: Arc)
    requires Valid(net) && Forest(net) && a in net.edges && r in net.successorArcs[a]
    ensures a !in Tree(net, r)
  {
    SuccessorArcsNested(net, a, r);
    SuccessorArcsExcludeSelf(net, a);
    SuccessorArcsAntisymmetric(net, a, r);
  }

  /** In a forest the run of an arc without a switch contains the arc. */
  lemma RunContainsStart(net: Network, XV: map<Arc, real>, a: Arc)
    requires Valid(net) && Forest(net) && a in net.edges && a !in Switches(XV)
    ensures a in Run(net, XV, a)
  {
    NotBelowOthers(net, a, Switches(XV));
    NotCut(net, a, Switches(XV), a);
  }

  /** In a forest `a` lies in the tree of no other arc of its own tree. */
  lemma NotBelowOthers(net: Network, a: Arc, D: set<Arc>)
    requires Valid(net) && Forest(net) && a in net.edges && a !in D
    ensures forall r | r in D && r in net.edges && r in Tree(net, a) :: a !in Tree(net, r)
  {
    forall r | r in D && r in net.edges && r in Tree(net, a)
      ensures a !in Tree(net, r)
    {
      NotBelowOther(net, a, r);
    }
  }

  lemma NotBelowOther(net: Network, a: Arc, r: Arc)
    requires Valid(net) && Forest(net) && a in net.edges && r in net.edges && r in Tree(net, a) && r != a
    ensures a !in Tree(net, r)
  {
    OtherInTree(net, a, r);
    TreesAntisymmetric(net, a, r);
  }

  /** An arc of `Tree(a)` other than `a` lies strictly below it. */
  lemma OtherInTree(net: Network, a: Arc, r: Arc)
    requires Consistent(net) && a in net.edges && r in Tree(net, a) && r != a
    ensures r in net.successorArcs[a]
  {
  }

  /** An arc outside the tree of every arc of `D` in `Tree(a)` is not cut. */
  lemma NotCut(net: Network, a: Arc, D: set<Arc>, b: Arc)
    requires Consistent(net) && a in net.edges
    requires forall r | r in D && r in net.edges && r in Tree(net, a) :: b !in Tree(net, r)
    ensures b !in Cut(net, a, D)
  {
  }

  /** A cut arc lies in the tree of a cutting arc. */
  lemma CutWitness(net: Network, a: Arc, D: set<Arc>, b: Arc) returns (r: Arc)
    requires Consistent(net) && a in net.edges && b in Cut(net, a, D)
    ensures r in D && r in net.edges && r in Tree(net, a) && b in Tree(net, r)
  {
    r :| r in D && r in net.edges && r in Tree(net, a) && b in Tree(net, r);
  }

  /** An arc of the run of `a` is outside the tree of every switched arc of `Tree(a)`. */
  lemma RunAvoids(net: Network, XV: map<Arc, real>, a: Arc, b: Arc, r: Arc)
    requires Consistent(net) && a in net.edges && b in Run(net, XV, a)
    requires r in Switches(XV) && r in net.edges && r in Tree(net, a)
    ensures b !in Tree(net, r)
  {
  }

  /** An arc lying below a switched arc of `Tree(a)` is not in the run of `a`. */
  lemma CutOff(net: Network, XV: map<Arc, real>, a: Arc, b: Arc, r: Arc)
    requires Consistent(net) && a in net.edges
    requires r in Switches(XV) && r in net.edges && r in Tree(net, a) && b in Tree(net, r)
    ensures b !in Run(net, XV, a)
  {
  }

  /** In a radial forest the runs of two arcs are disjoint when the later
      one is not below or equal to the earlier one and was not absorbed
      by the earlier run. */
  lemma RunDisjoint(net: Network, XV: map<Arc, real>, s: Arc, a: Arc)
    requires Valid(net) && Radial(net) && s in net.edges && a in net.edges
    requires s != a && s !in net.successorArcs[a] && a !in Run(net, XV, s)
    ensures Run(net, XV, s) * Run(net, XV, a) == {}
  {
    forall b | b in Run(net, XV, a) ensures b !in Run(net, XV, s) {
      if b in Tree(net, s) {
        TreeLaminar(net, s, a, b);
        assert a in Tree(net, s);
        var r := CutWitness(net, s, Switches(XV), a);
        TreeNested(net, r, a);
        CutOff(net, XV, s, b, r);
      }
    }
  }

  /** Every arc leaving the head of an arc of a run is in the run or
      switched: a run is bounded by switches. */
  lemma RunBoundary(net: Network, XV: map<Arc, real>, a: Arc, b: Arc, k: int)
    requires Valid(net) && Radial(net) && a in net.edges
    requires b in Run(net, XV, a) && (b.1, k) in net.edges
    ensures (b.1, k) in Run(net, XV, a) || (b.1, k) in Switches(XV)
  {
    var c := (b.1, k);
    TreeNested(net, a, b);
    ArcIsChild(net, c);
    ChildIsDesc(Children(net), b.1, k);
    TreeMember(net, b, c);
    assert c in Tree(net, a);
    if c !in Switches(XV) {
      forall r | r in Switches(XV) && r in net.edges && r in Tree(net, a)
        ensures c !in Tree(net, r)
      {
        RunAvoids(net, XV, a, b, r);
        HeadBelow(net, b, r);
        TreeMember(net, r, c);
      }
      NotCut(net, a, Switches(XV), c);
    }
  }

  /** Every arc of each tree in `done`, in the order of `done`. */
  function Covered(net: Network, XV: map<Arc, real>, done: seq<Arc>): set<Arc>
    requires Consistent(net)
  {
    set s, b | s in done && s in net.edges && b in Run(net, XV, s) :: b
  }

  /** The arcs of `order` that start a subtree: those without a switch
      that no earlier subtree has absorbed, as the loop of `get_subtrees`
      decides them. */
  function Starts(net: Network, XV: map<Arc, real>, order: seq<Arc>): (st: seq<Arc>)
    requires Consistent(net) && forall a | a in order :: a in net.edges
    ensures forall s | s in st :: s in order && s !in Switches(XV)
  {
    if order == [] then []
    else
      var pre := Starts(net, XV, order[..|order| - 1]);
      var a := order[|order| - 1];
      if a in Switches(XV) || a in Covered(net, XV, pre) then pre else pre + [a]
  }

  /** Every arc processed after its parent arcs: no arc precedes an arc
      that has it among its successor arcs. */
  predicate AncestorFirst(net: Network, order: seq<Arc>)
  {
    forall p, q | 0 <= p < q < |order| && order[q] in net.successorArcs :: order[p] !in net.successorArcs[order[q]]
  }

  /** The order minus its last arc, with the facts the recursion of `Starts` needs. */
  lemma StartsStep(net: Network, XV: map<Arc, real>, order: seq<Arc>)
    requires Consistent(net) && (forall a | a in order :: a in net.edges) && order != []
    ensures var pre := Starts(net, XV, order[..|order| - 1]);
      && Covered(net, XV, pre) <= Covered(net, XV, Starts(net, XV, order))
      && (Starts(net, XV, order) == pre + [order[|order| - 1]]
          <==> order[|order| - 1] !in Switches(XV) && order[|order| - 1] !in Covered(net, XV, pre))
      && (Starts(net, XV, order) == pre || Starts(net, XV, order) == pre + [order[|order| - 1]])
  {
    var pre := Starts(net, XV, order[..|order| - 1]);
    var a := order[|order| - 1];
    if a !in Switches(XV) && a !in Covered(net, XV, pre) {
      assert Starts(net, XV, order) == pre + [a];
    } else {
      assert Starts(net, XV, order) == pre;
      assert |pre + [a]| != |pre|;
    }
  }

  /** Every output set starts from an arc without a switch and contains it. */
  lemma SubtreesContainStart(net: Network, XV: map<Arc, real>, order: seq<Arc>)
    requires Valid(net) && Forest(net) && forall a | a in order :: a in net.edges
    ensures forall s | s in Starts(net, XV, order) :: s !in Switches(XV) && s in Run(net, XV, s)
  {
    forall s | s in Starts(net, XV, order) ensures s in Run(net, XV, s) {
      RunContainsStart(net, XV, s);
    }
  }

  /** No output set holds a switched arc, and every output arc is an arc of the network. */
  lemma SubtreesWithin(net: Network, XV: map<Arc, real>, order: seq<Arc>)
    requires Valid(net) && forall a | a in order :: a in net.edges
    ensures Covered(net, XV, Starts(net, XV, order)) <= Elems(net.edges) - Switches(XV)
  {
    forall b | b in Covered(net, XV, Starts(net, XV, order)) ensures b in net.edges && b !in Switches(XV) {
      var s :| s in Starts(net, XV, order) && s in net.edges && b in Run(net, XV, s);
      RunSwitchFree(net, XV, s);
      TreeNested(net, s, b);
    }
  }

  /** Every arc of the order without a switch lies in some output set,
      whatever the order. */
  lemma {:induction false} SubtreesCover(net: Network, XV: map<Arc, real>, order: seq<Arc>)
    requires Valid(net) && Forest(net) && forall a | a in order :: a in net.edges
    ensures forall a | a in order && a !in Switches(XV) :: a in Covered(net, XV, Starts(net, XV, order))
  {
    if order != [] {
      var a := order[|order| - 1];
      SubtreesCover(net, XV, order[..|order| - 1]);
      if a !in Switches(XV) {
        RunContainsStart(net, XV, a);
      }
      CoverStep(net, XV, order);
    }
  }

  /** The step of that induction: the last arc of the order is covered
      by an earlier run or starts its own. */
  lemma CoverStep(net: Network, XV: map<Arc, real>, order: seq<Arc>)
    requires Consistent(net) && (forall a | a in order :: a in net.edges) && order != []
    requires var pre := order[..|order| - 1];
      forall b | b in pre && b !in Switches(XV) :: b in Covered(net, XV, Starts(net, XV, pre))
    requires var a := order[|order| - 1]; a !in Switches(XV) ==> a in Run(net, XV, a)
    ensures forall a | a in order && a !in Switches(XV) :: a in Covered(net, XV, Starts(net, XV, order))
  {
    var pre := order[..|order| - 1];
    var a := order[|order| - 1];
    StartsStep(net, XV, order);
    var st := Starts(net, XV, pre);
    if a !in Switches(XV) && a !in Covered(net, XV, st) {
      assert a in Covered(net, XV, st + [a]);
    }
    forall b | b in order && b !in Switches(XV) ensures b in Covered(net, XV, Starts(net, XV, order)) {
      if b != a {
        assert b in pre;
      }
    }
  }

  /** Over an order that lists every arc, the output sets together hold
      exactly the arcs without a switch. */
  lemma SubtreesPartition(net: Network, XV: map<Arc, real>, order: seq<Arc>)
    requires Valid(net) && Forest(net) && forall a | a in order :: a in net.edges
    requires forall a | a in net.edges :: a in order
    ensures Covered(net, XV, Starts(net, XV, order)) == Elems(net.edges) - Switches(XV)
  {
    SubtreesWithin(net, XV, order);
    SubtreesCover(net, XV, order);
    forall a | a in Elems(net.edges) - Switches(XV) ensures a in Covered(net, XV, Starts(net, XV, order)) {
      assert a in order;
    }
  }

  /** When every arc comes after the arcs above it, the output sets are
      pairwise disjoint. */
  lemma {:induction false} SubtreesDisjoint(net: Network, XV: map<Arc, real>, order: seq<Arc>)
    requires Valid(net) && Radial(net) && forall a | a in order :: a in net.edges
    requires Distinct(order) && AncestorFirst(net, order)
    ensures var st := Starts(net, XV, order);
      forall p, q | 0 <= p < q < |st| :: Run(net, XV, st[p]) * Run(net, XV, st[q]) == {}
  {
    if order != [] {
      var pre := order[..|order| - 1];
      var a := order[|order| - 1];
      DistinctPrefix(order, |order| - 1);
      DistinctLast(order);
      SubtreesDisjoint(net, XV, pre);
      StartsStep(net, XV, order);
      var st := Starts(net, XV, pre);
      if a !in Switches(XV) && a !in Covered(net, XV, st) {
        NewStartDisjoint(net, XV, order);
        RunsDisjointAppend(net, XV, st, a);
      }
    }
  }

  /** A new start is disjoint from the runs of the earlier starts: they
      come before it, so none lies below it, and it lies in none of their
      runs. */
  lemma NewStartDisjoint(net: Network, XV: map<Arc, real>, order: seq<Arc>)
    requires Valid(net) && Radial(net) && forall a | a in order :: a in net.edges
    requires Distinct(order) && AncestorFirst(net, order) && order != []
    requires order[|order| - 1] !in Covered(net, XV, Starts(net, XV, order[..|order| - 1]))
    ensures forall s | s in Starts(net, XV, order[..|order| - 1]) ::
      Run(net, XV, s) * Run(net, XV, order[|order| - 1]) == {}
  {
    var pre := order[..|order| - 1];
    var a := order[|order| - 1];
    var st := Starts(net, XV, pre);
    DistinctLast(order);
    forall s | s in st ensures Run(net, XV, s) * Run(net, XV, a) == {} {
      var i :| 0 <= i < |pre| && pre[i] == s;
      assert order[i] == s;
      assert s !in net.successorArcs[a];
      RunDisjoint(net, XV, s, a);
    }
  }

  /** Appending a run disjoint from all earlier ones keeps the runs
      pairwise disjoint. */
  lemma RunsDisjointAppend(net: Network, XV: map<Arc, real>, st: seq<Arc>, a: Arc)
    requires Consistent(net) && a in net.edges && forall s | s in st :: s in net.edges
    requires forall p, q | 0 <= p < q < |st| :: Run(net, XV, st[p]) * Run(net, XV, st[q]) == {}
    requires forall s | s in st :: Run(net, XV, s) * Run(net, XV, a) == {}
    ensures var st' := st + [a];
      forall p, q | 0 <= p < q < |st'| :: Run(net, XV, st'[p]) * Run(net, XV, st'[q]) == {}
  {
    var st' := st + [a];
    forall p, q | 0 <= p < q < |st'| ensures Run(net, XV, st'[p]) * Run(net, XV, st'[q]) == {} {
      if q == |st| {
        assert st'[p] in st;
      } else {
        assert st'[p] == st[p] && st'[q] == st[q];
      }
    }
  }

  /** The disjointness needs the order: with no switches, a child arc
      visited before its parent arc starts a set that the parent's set
      contains again. */
  lemma ChildFirstOverlap(net: Network, XV: map<Arc, real>, c: Arc, p: Arc)
    requires Valid(net) && Forest(net) && p in net.edges && c in net.successorArcs[p]
    requires Switches(XV) == {}
    ensures Starts(net, XV, [c, p]) == [c, p]
    ensures c in Run(net, XV, c) && c in Run(net, XV, p)
  {
    SuccessorArcsNested(net, p, c);
    RunWithoutSwitches(net, XV, c);
    RunWithoutSwitches(net, XV, p);
    TreesAntisymmetric(net, p, c);
    StartsPair(net, XV, c, p);
  }

  /** Without switches the run of an arc is its whole tree. */
  lemma RunWithoutSwitches(net: Network, XV: map<Arc, real>, a: Arc)
    requires Consistent(net) && a in net.edges && Switches(XV) == {}
    ensures Run(net, XV, a) == Tree(net, a)
  {
    assert Cut(net, a, {}) == {};
  }

  /** A single arc without a switch starts the one output set, its run. */
  lemma StartsSingle(net: Network, XV: map<Arc, real>, a: Arc)
    requires Consistent(net) && a in net.edges && a !in Switches(XV)
    ensures Starts(net, XV, [a]) == [a] && Covered(net, XV, [a]) == Run(net, XV, a)
  {
    assert [a][..0] == [];
    assert Covered(net, XV, []) == {};
  }

  /** Two arcs without a switch, the second outside the run of the first,
      both start output sets. */
  lemma StartsPair(net: Network, XV: map<Arc, real>, c: Arc, p: Arc)
    requires Consistent(net) && c in net.edges && p in net.edges
    requires c !in Switches(XV) && p !in Switches(XV) && p !in Run(net, XV, c)
    ensures Starts(net, XV, [c, p]) == [c, p]
  {
    StartsSingle(net, XV, c);
    assert [c, p][..1] == [c];
    StartsStep(net, XV, [c, p]);
  }

  /** The arcs of `S` have switch values and are arcs of the network. */
  predicate Scorable(net: Network, XV: map<Arc, real>, S: set<Arc>)
  {
    forall a | a in S :: a in XV && a in net.edges
  }

  /** The outage value of every arc of `S`. */
  function ArcOutages(net: Network, XV: map<Arc, real>, S: set<Arc>): (o: map<Arc, real>)
    requires Ready(net) && Covers(net, XV) && Scorable(net, XV, S)
    ensures o.Keys == S
  {
    map a | a in S :: Outage(net, XV, a.0, a.1)
  }

  /** Each arc's value weighted by the load its tail loses beyond its head. */
  function Weighted(load: map<int, real>, o: map<Arc, real>): (w: map<Arc, real>)
    requires forall a | a in o :: a.0 in load && a.1 in load
    ensures w.Keys == o.Keys
  {
    map a | a in o :: Mul(load[a.0] - load[a.1], o[a])
  }

  /** The contribution of the subtree `S` to expected energy not supplied. */
  ghost function Vs(net: Network, XV: map<Arc, real>, S: set<Arc>): real
    requires Ready(net) && Covers(net, XV) && Scorable(net, XV, S)
  {
    SetSum(S, Weighted(net.downstreamLoad, ArcOutages(net, XV, S)))
  }

  /** The summed outage values of the arcs of `S`. */
  ghost function ThetaSum(net: Network, XV: map<Arc, real>, S: set<Arc>): real
    requires Ready(net) && Covers(net, XV) && Scorable(net, XV, S)
  {
    SetSum(S, ArcOutages(net, XV, S))
  }

  /** Every arc leaving the head of an arc of `S` is in `S` or switched. */
  predicate Bounded(net: Network, XV: map<Arc, real>, S: set<Arc>)
  {
    forall a, k | a in S && a.1 in net.outgoing && k in net.outgoing[a.1] ::
      (a.1, k) in S || (a.1, k) in Switches(XV)
  }

  /** Two switch vectors that agree on a region bounded by switches in
      both give every arc of the region the same value. */
  lemma {:induction false} OutageLocal(net: Network, X1: map<Arc, real>, X2: map<Arc, real>, S: set<Arc>, i: int, j: int)
    requires Ready(net) && Covers(net, X1) && Covers(net, X2)
    requires Scorable(net, X1, S) && Scorable(net, X2, S) && Bounded(net, X1, S) && Bounded(net, X2, S)
    requires forall a | a in S :: X1[a] == X2[a]
    requires (i, j) in S
    ensures Outage(net, X1, i, j) == Outage(net, X2, i, j)
    decreases |Desc(Children(net), j)|, 1, 0
  {
    ChildOutageLocal(net, X1, X2, S, j, net.outgoing[j]);
  }

  lemma {:induction false} ChildOutageLocal(net: Network, X1: map<Arc, real>, X2: map<Arc, real>, S: set<Arc>, j: int, ks: seq<int>)
    requires Ready(net) && Covers(net, X1) && Covers(net, X2)
    requires Scorable(net, X1, S) && Scorable(net, X2, S) && Bounded(net, X1, S) && Bounded(net, X2, S)
    requires forall a | a in S :: X1[a] == X2[a]
    requires j in net.vertices && forall k | k in ks :: k in net.outgoing[j]
    requires forall k | k in ks :: (j, k) in S || ((j, k) in Switches(X1) && (j, k) in Switches(X2))
    ensures ChildOutage(net, X1, j, ks) == ChildOutage(net, X2, j, ks)
    decreases |Desc(Children(net), j)|, 0, |ks|
  {
    if ks != [] {
      var k := ks[|ks| - 1];
      ChildShrinks(net, j, k);
      ChildOutageLocal(net, X1, X2, S, j, ks[..|ks| - 1]);
      if (j, k) in S {
        OutageLocal(net, X1, X2, S, j, k);
      } else {
        assert X1[(j, k)] == 1.0 && X2[(j, k)] == 1.0;
      }
    }
  }

  /** Every arc of a region bounded by switches in both vectors, on which
      the vectors agree, has the same value under both. */
  lemma RegionOutagesLocal(net: Network, X1: map<Arc, real>, X2: map<Arc, real>, S: set<Arc>)
    requires Ready(net) && Covers(net, X1) && Covers(net, X2)
    requires Scorable(net, X1, S) && Scorable(net, X2, S) && Bounded(net, X1, S) && Bounded(net, X2, S)
    requires forall a | a in S :: X1[a] == X2[a]
    ensures forall a | a in S :: Outage(net, X1, a.0, a.1) == Outage(net, X2, a.0, a.1)
  {
    forall a | a in S ensures Outage(net, X1, a.0, a.1) == Outage(net, X2, a.0, a.1) {
      OutageLocal(net, X1, X2, S, a.0, a.1);
    }
  }

  /** Hence the weighted and the unweighted value of such a region are equal. */
  lemma RegionValueLocal(net: Network, X1: map<Arc, real>, X2: map<Arc, real>, S: set<Arc>)
    requires Ready(net) && Covers(net, X1) && Covers(net, X2)
    requires Scorable(net, X1, S) && Scorable(net, X2, S) && Bounded(net, X1, S) && Bounded(net, X2, S)
    requires forall a | a in S :: X1[a] == X2[a]
    ensures Vs(net, X1, S) == Vs(net, X2, S)
    ensures ThetaSum(net, X1, S) == ThetaSum(net, X2, S)
  {
    RegionOutagesLocal(net, X1, X2, S);
    assert ArcOutages(net, X1, S) == ArcOutages(net, X2, S);
  }

  /** Switch values for exactly the arcs of the network, as every
      incumbent of the solvers has. */
  predicate Indexed(net: Network, XV: map<Arc, real>)
  {
    XV.Keys == Elems(net.edges)
  }

  /** An order listing exactly the arcs of an indexed vector lists every arc. */
  lemma IndexedOrder(net: Network, XV: map<Arc, real>, order: seq<Arc>)
    requires Elems(order) == XV.Keys
    ensures Indexed(net, XV) ==> forall a | a in net.edges :: a in order
  {
    if Indexed(net, XV) {
      forall a | a in net.edges ensures a in order {
        assert a in Elems(net.edges);
      }
    }
  }

  lemma IndexedCovers(net: Network, XV: map<Arc, real>)
    requires Valid(net) && Indexed(net, XV)
    ensures Covers(net, XV)
  {
    forall j, k | j in net.outgoing && k in net.outgoing[j] ensures (j, k) in XV {
      OutgoingExact(net, j, k);
    }
  }

  /** A run is a region bounded by switches whose arcs all have values. */
  lemma RunIsRegion(net: Network, XV: map<Arc, real>, a: Arc)
    requires Valid(net) && Radial(net) && Indexed(net, XV) && a in net.edges
    ensures Scorable(net, XV, Run(net, XV, a)) && Bounded(net, XV, Run(net, XV, a))
  {
    var S := Run(net, XV, a);
    forall b | b in S ensures b in XV && b in net.edges {
      TreeNested(net, a, b);
    }
    forall b, k | b in S && b.1 in net.outgoing && k in net.outgoing[b.1]
      ensures (b.1, k) in S || (b.1, k) in Switches(XV)
    {
      OutgoingExact(net, b.1, k);
      RunBoundary(net, XV, a, b, k);
    }
  }

  /** Switching one more arc of a bounded region keeps it bounded. */
  lemma SwitchOneKeepsRegion(net: Network, XV: map<Arc, real>, S: set<Arc>, b: Arc)
    requires Covers(net, XV) && Scorable(net, XV, S) && Bounded(net, XV, S) && b in S
    ensures XV[b := 1.0].Keys == XV.Keys && Covers(net, XV[b := 1.0])
    ensures Scorable(net, XV[b := 1.0], S) && Bounded(net, XV[b := 1.0], S)
  {
    assert Switches(XV) <= Switches(XV[b := 1.0]);
  }

  /** The facts about the run of a 0/1 incumbent that the value lemmas need. */
  lemma RunRegionFacts(net: Network, XV: map<Arc, real>, a: Arc)
    requires Valid(net) && Radial(net) && Indexed(net, XV) && Binary(XV) && a in net.edges
    ensures Covers(net, XV)
    ensures Scorable(net, XV, Run(net, XV, a)) && Bounded(net, XV, Run(net, XV, a))
    ensures forall b | b in Run(net, XV, a) :: XV[b] == 0.0
  {
    IndexedCovers(net, XV);
    RunIsRegion(net, XV, a);
    RunSwitchFree(net, XV, a);
  }

  /** The cut cache is exact: when two 0/1 incumbents give the same run
      `S`, the value of `S` is the same under both, so a value cached at
      the first incumbent is the value at the second. */
  lemma CachedValueExact(net: Network, X1: map<Arc, real>, X2: map<Arc, real>, a1: Arc, a2: Arc)
    requires Valid(net) && Radial(net) && Forest(net)
    requires Indexed(net, X1) && Indexed(net, X2) && Binary(X1) && Binary(X2)
    requires a1 in net.edges && a2 in net.edges && Run(net, X1, a1) == Run(net, X2, a2)
    ensures Covers(net, X1) && Covers(net, X2)
    ensures Scorable(net, X1, Run(net, X1, a1)) && Scorable(net, X2, Run(net, X1, a1))
    ensures Vs(net, X1, Run(net, X1, a1)) == Vs(net, X2, Run(net, X1, a1))
    ensures ThetaSum(net, X1, Run(net, X1, a1)) == ThetaSum(net, X2, Run(net, X1, a1))
  {
    RunRegionFacts(net, X1, a1);
    RunRegionFacts(net, X2, a2);
    RegionValueLocal(net, X1, X2, Run(net, X1, a1));
  }

  /** Likewise for the value with one arc `b` of `S` switched: the cached
      savings are the savings at the second incumbent. */
  lemma CachedSavingExact(net: Network, X1: map<Arc, real>, X2: map<Arc, real>, a1: Arc, a2: Arc, b: Arc)
    requires Valid(net) && Radial(net) && Forest(net)
    requires Indexed(net, X1) && Indexed(net, X2) && Binary(X1) && Binary(X2)
    requires a1 in net.edges && a2 in net.edges && Run(net, X1, a1) == Run(net, X2, a2)
    requires b in Run(net, X1, a1)
    ensures Covers(net, X1[b := 1.0]) && Covers(net, X2[b := 1.0])
    ensures Scorable(net, X1[b := 1.0], Run(net, X1, a1)) && Scorable(net, X2[b := 1.0], Run(net, X1, a1))
    ensures Vs(net, X1[b := 1.0], Run(net, X1, a1)) == Vs(net, X2[b := 1.0], Run(net, X1, a1))
    ensures ThetaSum(net, X1[b := 1.0], Run(net, X1, a1)) == ThetaSum(net, X2[b := 1.0], Run(net, X1, a1))
  {
    RunRegionFacts(net, X1, a1);
    RunRegionFacts(net, X2, a2);
    SwitchedRegionLocal(net, X1, X2, Run(net, X1, a1), b);
  }

  /** Switching the same arc of a region in two agreeing vectors keeps
      the region's values equal. */
  lemma SwitchedRegionLocal(net: Network, X1: map<Arc, real>, X2: map<Arc, real>, S: set<Arc>, b: Arc)
    requires Ready(net) && Covers(net, X1) && Covers(net, X2)
    requires Scorable(net, X1, S) && Scorable(net, X2, S) && Bounded(net, X1, S) && Bounded(net, X2, S)
    requires forall a | a in S :: X1[a] == X2[a]
    requires b in S
    ensures Covers(net, X1[b := 1.0]) && Covers(net, X2[b := 1.0])
    ensures Scorable(net, X1[b := 1.0], S) && Scorable(net, X2[b := 1.0], S)
    ensures Vs(net, X1[b := 1.0], S) == Vs(net, X2[b := 1.0], S)
    ensures ThetaSum(net, X1[b := 1.0], S) == ThetaSum(net, X2[b := 1.0], S)
  {
    SwitchOneKeepsRegion(net, X1, S, b);
    SwitchOneKeepsRegion(net, X2, S, b);
    RegionValueLocal(net, X1[b := 1.0], X2[b := 1.0], S);
  }

  /** With loads and rates non-negative and one more arc switched, every
      arc of `S` keeps a non-negative value that is no larger. */
  lemma SwitchedOutagesBelow(net: Network, XV: map<Arc, real>, S: set<Arc>, b: Arc)
    requires Ready(net) && NonnegativeRates(net)
    requires Covers(net, XV) && Fractional(XV) && Scorable(net, XV, S) && b in S
    ensures Covers(net, XV[b := 1.0]) && Scorable(net, XV[b := 1.0], S)
    ensures forall a | a in S ::
      0.0 <= ArcOutages(net, XV[b := 1.0], S)[a] <= ArcOutages(net, XV, S)[a]
  {
    var X1 := XV[b := 1.0];
    forall a | a in S ensures 0.0 <= Outage(net, X1, a.0, a.1) <= Outage(net, XV, a.0, a.1) {
      OutageAntitone(net, X1, XV, a.0, a.1);
    }
  }

  /** Load weights are non-negative, so weighting keeps pointwise order. */
  lemma WeightedMono(load: map<int, real>, o1: map<Arc, real>, o2: map<Arc, real>)
    requires o1.Keys == o2.Keys && forall a | a in o1 :: 0.0 <= o1[a] <= o2[a]
    requires forall a | a in o1 :: a.0 in load && a.1 in load && 0.0 <= load[a.1] <= load[a.0]
    ensures forall a | a in o1 :: Weighted(load, o1)[a] <= Weighted(load, o2)[a]
  {
    forall a | a in o1 ensures Weighted(load, o1)[a] <= Weighted(load, o2)[a] {
      var w := load[a.0] - load[a.1];
      MulMono(w, w, o1[a], o2[a]);
    }
  }

  /** Switching one more arc never raises a subtree's value: the savings
      of the cut are non-negative. */
  lemma SavingsNonnegative(net: Network, XV: map<Arc, real>, S: set<Arc>, b: Arc)
    requires Valid(net) && Forest(net) && NonnegativeRates(net) && NonnegativeLoads(net)
    requires Covers(net, XV) && Fractional(XV) && Scorable(net, XV, S) && b in S
    ensures Covers(net, XV[b := 1.0]) && Scorable(net, XV[b := 1.0], S)
    ensures Vs(net, XV[b := 1.0], S) <= Vs(net, XV, S)
    ensures ThetaSum(net, XV[b := 1.0], S) <= ThetaSum(net, XV, S)
  {
    SwitchedOutagesBelow(net, XV, S, b);
    var o1, o2 := ArcOutages(net, XV[b := 1.0], S), ArcOutages(net, XV, S);
    forall a | a in S ensures 0.0 <= net.downstreamLoad[a.1] <= net.downstreamLoad[a.0] {
      DownstreamLoadMonotone(net, a);
    }
    WeightedMono(net.downstreamLoad, o1, o2);
    SetSumMono(S, Weighted(net.downstreamLoad, o1), Weighted(net.downstreamLoad, o2));
    SetSumMono(S, o1, o2);
  }

  /** One step of the subtraction loop of `get_subtrees`: removing the
      tree of `r` when `r` is still present, and nothing otherwise, is
      the same as adding `r` to the cutting arcs. */
  lemma CutStep(net: Network, a: Arc, D: set<Arc>, r: Arc)
    requires Consistent(net) && Nested(net) && a in net.edges && r in net.edges
    ensures var T := Tree(net, a) - Cut(net, a, D);
      Tree(net, a) - Cut(net, a, D + {r}) == if r in T then T - Tree(net, r) else T
  {
    var A, C, C2, R := Tree(net, a), Cut(net, a, D), Cut(net, a, D + {r}), Tree(net, r);
    if r in A {
      CutAddInside(net, a, D, r);
      assert C2 == C + R;
      if r in C {
        var q := CutWitness(net, a, D, r);
        CutClosed(net, a, D, r, q);
        assert R <= C;
      }
      SubtractUnion(A, C, R);
    } else {
      CutAddOutside(net, a, D, r);
      assert C2 == C;
    }
  }

  /** Set algebra used by `CutStep`. */
  lemma SubtractUnion<T>(A: set<T>, C: set<T>, R: set<T>)
    ensures A - (C + R) == (A - C) - R
    ensures R <= C ==> A - (C + R) == A - C
  {
  }

  /** Trees are nested: the tree of an arc of a tree lies inside it. */
  predicate Nested(net: Network)
    requires Consistent(net)
  {
    forall a, b | a in net.edges && b in Tree(net, a) :: b in net.edges && Tree(net, b) <= Tree(net, a)
  }

  lemma ValidNested(net: Network)
    requires Valid(net)
    ensures Nested(net)
  {
    forall a, b | a in net.edges && b in Tree(net, a) ensures b in net.edges && Tree(net, b) <= Tree(net, a) {
      TreeNested(net, a, b);
    }
  }

  /** Adding a cutting arc of `Tree(a)` cuts its tree. */
  lemma CutAddInside(net: Network, a: Arc, D: set<Arc>, r: Arc)
    requires Consistent(net) && a in net.edges && r in net.edges
    requires r in Tree(net, a) && Tree(net, r) <= Tree(net, a)
    ensures Cut(net, a, D + {r}) == Cut(net, a, D) + Tree(net, r)
  {
    forall b | b in Cut(net, a, D + {r}) ensures b in Cut(net, a, D) + Tree(net, r) {
      var q := CutWitness(net, a, D + {r}, b);
      if q != r {
        CutMember(net, a, D, b, q);
      }
    }
    forall b | b in Cut(net, a, D) + Tree(net, r) ensures b in Cut(net, a, D + {r}) {
      if b in Cut(net, a, D) {
        var q := CutWitness(net, a, D, b);
        CutMember(net, a, D + {r}, b, q);
      } else {
        CutMember(net, a, D + {r}, b, r);
      }
    }
  }

  /** A cutting arc outside `Tree(a)` changes nothing. */
  lemma CutAddOutside(net: Network, a: Arc, D: set<Arc>, r: Arc)
    requires Consistent(net) && a in net.edges && r !in Tree(net, a)
    ensures Cut(net, a, D + {r}) == Cut(net, a, D)
  {
    forall b | b in Cut(net, a, D + {r}) ensures b in Cut(net, a, D) {
      var q := CutWitness(net, a, D + {r}, b);
      CutMember(net, a, D, b, q);
    }
    forall b | b in Cut(net, a, D) ensures b in Cut(net, a, D + {r}) {
      var q := CutWitness(net, a, D, b);
      CutMember(net, a, D + {r}, b, q);
    }
  }

  /** The tree of a cut arc is cut. */
  lemma CutClosed(net: Network, a: Arc, D: set<Arc>, r: Arc, q: Arc)
    requires Consistent(net) && a in net.edges && r in net.edges && r in Tree(net, a)
    requires Tree(net, r) <= Tree(net, a)
    requires q in D && q in net.edges && q in Tree(net, a) && Tree(net, r) <= Tree(net, q)
    ensures Tree(net, r) <= Cut(net, a, D)
  {
    forall b | b in Tree(net, r) ensures b in Cut(net, a, D) {
      CutMember(net, a, D, b, q);
    }
  }

  /** An arc of `Tree(a)` in the tree of a cutting arc of `Tree(a)` is cut. */
  lemma CutMember(net: Network, a: Arc, D: set<Arc>, b: Arc, r: Arc)
    requires Consistent(net) && a in net.edges && b in Tree(net, a)
    requires r in D && r in net.edges && r in Tree(net, a) && b in Tree(net, r)
    ensures b in Cut(net, a, D)
  {
  }

  /** Every arc of an output set, union over the list of sets. */
  function Union(ss: seq<set<Arc>>): set<Arc>
  {
    set p, b | 0 <= p < |ss| && b in ss[p] :: b
  }

  /** The covered arcs of a list of starts are the union of their runs. */
  lemma CoveredIsUnion(net: Network, XV: map<Arc, real>, st: seq<Arc>, out: seq<set<Arc>>)
    requires Consistent(net) && (forall s | s in st :: s in net.edges) && RunsOf(net, XV, st, out)
    ensures Covered(net, XV, st) == Union(out)
  {
    forall b | b in Covered(net, XV, st) ensures b in Union(out) {
      var s :| s in st && s in net.edges && b in Run(net, XV, s);
      var p :| 0 <= p < |st| && st[p] == s;
      assert b in out[p];
    }
  }

  /** Appending a start adds its run to the covered arcs. */
  lemma CoveredAppend(net: Network, XV: map<Arc, real>, st: seq<Arc>, a: Arc)
    requires Consistent(net) && (forall s | s in st :: s in net.edges) && a in net.edges
    ensures Covered(net, XV, st + [a]) == Covered(net, XV, st) + Run(net, XV, a)
  {
    forall b | b in Covered(net, XV, st + [a]) ensures b in Covered(net, XV, st) + Run(net, XV, a) {
      var s :| s in st + [a] && s in net.edges && b in Run(net, XV, s);
      if s != a {
        assert s in st;
      }
    }
  }

  /** The next step of `Starts` along a prefix of the order. */
  lemma StartsNext(net: Network, XV: map<Arc, real>, order: seq<Arc>, t: int)
    requires Consistent(net) && (forall a | a in order :: a in net.edges) && 0 <= t < |order|
    ensures var st := Starts(net, XV, order[..t]);
      Starts(net, XV, order[..t + 1])
      == if order[t] in Switches(XV) || order[t] in Covered(net, XV, st) then st else st + [order[t]]
  {
    assert order[..t + 1][..t] == order[..t];
  }

  /** `out` lists the runs of the starts `st`, one for one. */
  predicate RunsOf(net: Network, XV: map<Arc, real>, st: seq<Arc>, out: seq<set<Arc>>)
    requires Consistent(net) && forall s | s in st :: s in net.edges
  {
    |out| == |st| && forall p | 0 <= p < |out| :: out[p] == Run(net, XV, st[p])
  }

  lemma RunsAppend(net: Network, XV: map<Arc, real>, st: seq<Arc>, out: seq<set<Arc>>, a: Arc)
    requires Consistent(net) && (forall s | s in st :: s in net.edges) && a in net.edges
    requires RunsOf(net, XV, st, out)
    ensures RunsOf(net, XV, st + [a], out + [Run(net, XV, a)])
  {
  }

  /** The output sets of the order hold only unswitched arcs, and, over
      an order listing every arc of a forest, all of them. */
  lemma SubtreesUnion(net: Network, XV: map<Arc, real>, order: seq<Arc>, out: seq<set<Arc>>)
    requires Valid(net) && (forall a | a in order :: a in net.edges)
    requires RunsOf(net, XV, Starts(net, XV, order), out)
    ensures Union(out) <= Elems(net.edges) - Switches(XV)
    ensures Forest(net) && (forall a | a in net.edges :: a in order) ==> Union(out) == Elems(net.edges) - Switches(XV)
  {
    CoveredIsUnion(net, XV, Starts(net, XV, order), out);
    SubtreesWithin(net, XV, order);
    if Forest(net) && (forall a | a in net.edges :: a in order) {
      SubtreesPartition(net, XV, order);
    }
  }
}
