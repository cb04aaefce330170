/** Reachability over a finite successor relation: `Desc(g, v)` is the
    set of nodes reachable from `v` by one or more steps of `g`, and
    `Descendants(g, v)` is that set without `v`, which is what networkx's
    `descendants` returns. */
module Reach {

  /** Nodes one step away from some node of `S`. */
  function Succ<T>(g: map<T, set<T>>, S: set<T>): set<T>
  {
    set v, w | v in S && v in g && w in g[v] :: w
  }

  /** Every node that is a successor of some node. */
  function Targets<T>(g: map<T, set<T>>): set<T>
  {
    Succ(g, g.Keys)
  }

  /** A successor of `S` has a parent in `S`. */
  lemma SuccParent<T>(g: map<T, set<T>>, S: set<T>, w: T)
    requires w in Succ(g, S)
    ensures exists v :: v in S && v in g && w in g[v]
  {
  }

  lemma ProperSubsetCard<T>(A: set<T>, B: set<T>)
    requires A < B
    ensures |A| < |B|
  {
    var d := B - A;
    assert B == A + d;
    assert d != {};
  }

  /** Breadth-first growth of `R`: `F` holds the nodes reached last,
      whose successors have not been added yet. */
  function Closure<T>(g: map<T, set<T>>, R: set<T>, F: set<T>): set<T>
    requires F <= R
    decreases |Targets(g) - R|
  {
    var N := Succ(g, F) - R;
    if N == {} then R
    else
      assert Targets(g) - (R + N) < Targets(g) - R by {
        var w :| w in N;
        assert w in Targets(g) - R && w !in Targets(g) - (R + N);
      }
      ProperSubsetCard(Targets(g) - (R + N), Targets(g) - R);
      Closure(g, R + N, N)
  }

  /** The nodes reachable from `v`, which include `v` when it lies on a cycle. */
  function Desc<T>(g: map<T, set<T>>, v: T): set<T>
  {
    Closure(g, Succ(g, {v}), Succ(g, {v}))
  }

  /** networkx's `descendants`: the nodes reachable from `v`, never `v` itself. */
  function Descendants<T>(g: map<T, set<T>>, v: T): set<T>
  {
    Desc(g, v) - {v}
  }

  /** The successor relation of an adjacency list. */
  function ToSets<T(!new)>(out: map<T, seq<T>>): (g: map<T, set<T>>)
    ensures g.Keys == out.Keys
    ensures forall v, w | v in out :: w in g[v] <==> w in out[v]
  {
    map v | v in out :: set w | w in out[v]
  }

  /** When every listed child lies in `U`, so does every descendant. */
  lemma DescWithin<T(!new)>(out: map<T, seq<T>>, U: set<T>)
    requires forall j | j in out :: forall k | k in out[j] :: k in U
    ensures forall v :: Desc(ToSets(out), v) <= U
  {
    var g := ToSets(out);
    forall w | w in Targets(g) ensures w in U {
      SuccParent(g, g.Keys, w);
      var v :| v in g.Keys && v in g && w in g[v];
      assert w in out[v];
    }
    forall v ensures Desc(g, v) <= U {
      DescInTargets(g, v);
    }
  }

  /** No node is its own descendant. */
  predicate Acyclic<T>(g: map<T, set<T>>)
  {
    forall v | v in g :: v !in Desc(g, v)
  }

  lemma {:induction false} ClosureExtends<T>(g: map<T, set<T>>, R: set<T>, F: set<T>)
    requires F <= R
    ensures R <= Closure(g, R, F)
    decreases |Targets(g) - R|
  {
    var N := Succ(g, F) - R;
    if N != {} {
      assert Targets(g) - (R + N) < Targets(g) - R by {
        var w :| w in N;
        assert w in Targets(g) - R && w !in Targets(g) - (R + N);
      }
      ProperSubsetCard(Targets(g) - (R + N), Targets(g) - R);
      ClosureExtends(g, R + N, N);
    }
  }

  lemma {:induction false} ClosureIsClosed<T>(g: map<T, set<T>>, R: set<T>, F: set<T>)
    requires F <= R
    requires Succ(g, R - F) <= R
    ensures Succ(g, Closure(g, R, F)) <= Closure(g, R, F)
    decreases |Targets(g) - R|
  {
    var N := Succ(g, F) - R;
    if N == {} {
      forall w | w in Succ(g, R) ensures w in R {
        var v :| v in R && v in g && w in g[v];
        if v in F { assert w in Succ(g, F); } else { assert w in Succ(g, R - F); }
      }
    } else {
      assert Targets(g) - (R + N) < Targets(g) - R by {
        var w :| w in N;
        assert w in Targets(g) - R && w !in Targets(g) - (R + N);
      }
      ProperSubsetCard(Targets(g) - (R + N), Targets(g) - R);
      forall w | w in Succ(g, (R + N) - N) ensures w in R + N {
        var v :| v in (R + N) - N && v in g && w in g[v];
        if v in F { assert w in Succ(g, F); } else { assert w in Succ(g, R - F); }
      }
      ClosureIsClosed(g, R + N, N);
    }
  }

  lemma {:induction false} ClosureIsLeast<T>(g: map<T, set<T>>, R: set<T>, F: set<T>, S: set<T>)
    requires F <= R <= S
    requires Succ(g, S) <= S
    ensures Closure(g, R, F) <= S
    decreases |Targets(g) - R|
  {
    var N := Succ(g, F) - R;
    if N != {} {
      assert Targets(g) - (R + N) < Targets(g) - R by {
        var w :| w in N;
        assert w in Targets(g) - R && w !in Targets(g) - (R + N);
      }
      ProperSubsetCard(Targets(g) - (R + N), Targets(g) - R);
      assert Succ(g, F) <= Succ(g, S);
      ClosureIsLeast(g, R + N, N, S);
    }
  }

  /** A direct successor is a descendant. */
  lemma ChildIsDesc<T>(g: map<T, set<T>>, v: T, w: T)
    requires v in g && w in g[v]
    ensures w in Desc(g, v)
  {
    assert w in Succ(g, {v});
    ClosureExtends(g, Succ(g, {v}), Succ(g, {v}));
  }

  /** The descendant set is closed under successors. */
  lemma DescIsClosed<T>(g: map<T, set<T>>, v: T)
    ensures Succ(g, Desc(g, v)) <= Desc(g, v)
  {
    assert Succ(g, {}) == {};
    var R := Succ(g, {v});
    assert R - R == {};
    ClosureIsClosed(g, R, R);
  }

  /** Descendants of a descendant are descendants. */
  lemma DescTransitive<T>(g: map<T, set<T>>, u: T, v: T)
    requires v in Desc(g, u)
    ensures Desc(g, v) <= Desc(g, u)
  {
    DescIsClosed(g, u);
    assert Succ(g, {v}) <= Succ(g, Desc(g, u));
    ClosureIsLeast(g, Succ(g, {v}), Succ(g, {v}), Desc(g, u));
  }

  /** Descendants of `v` are successors of some node of the relation. */
  lemma DescInTargets<T>(g: map<T, set<T>>, v: T)
    ensures Desc(g, v) <= Targets(g)
  {
    assert Succ(g, {v}) <= Targets(g);
    assert Succ(g, Targets(g)) <= Targets(g);
    ClosureIsLeast(g, Succ(g, {v}), Succ(g, {v}), Targets(g));
  }

  /** On an acyclic relation, a child has strictly fewer descendants than its parent:
      the measure under which every downstream recursion terminates. */
  lemma DescShrinks<T>(g: map<T, set<T>>, v: T, w: T)
    requires Acyclic(g) && v in g && w in g[v]
    ensures |Desc(g, w)| < |Desc(g, v)|
  {
    ChildIsDesc(g, v, w);
    DescTransitive(g, v, w);
    if w in g {
      assert w !in Desc(g, w);
    } else {
      assert Succ(g, {w}) == {};
      assert Desc(g, w) == {};
    }
    assert Desc(g, w) < Desc(g, v);
    ProperSubsetCard(Desc(g, w), Desc(g, v));
  }

  /** The recursive characterisation used by a depth-first search: the
      descendants of `v` are its children and their descendants. */
  lemma {:induction false} DescUnfold<T>(g: map<T, set<T>>, v: T, x: T)
    requires v in g
    ensures x in Desc(g, v) <==> x in g[v] || exists c :: c in g[v] && x in Desc(g, c)
  {
    if x in g[v] {
      ChildIsDesc(g, v, x);
    }
    if c :| c in g[v] && x in Desc(g, c) {
      ChildIsDesc(g, v, c);
      DescTransitive(g, v, c);
    }
    if x in Desc(g, v) && x !in g[v] {
      var U := g[v] + set c, y | c in g[v] && y in Desc(g, c) :: y;
      forall w | w in Succ(g, U) ensures w in U {
        var u :| u in U && u in g && w in g[u];
        if u in g[v] {
          ChildIsDesc(g, u, w);
          assert w in Desc(g, u);
        } else {
          var c, y :| c in g[v] && y in Desc(g, c) && y == u;
          DescIsClosed(g, c);
          assert w in Succ(g, Desc(g, c));
        }
      }
      assert Succ(g, {v}) == g[v];
      ClosureIsLeast(g, g[v], g[v], U);
      assert x in U;
    }
  }

  /** `p` is a walk of at least one step along `g`. */
  predicate IsWalk<T>(g: map<T, set<T>>, p: seq<T>)
  {
    |p| >= 2 && forall i | 0 <= i < |p| - 1 :: p[i] in g && p[i + 1] in g[p[i]]
  }

  lemma {:induction false} WalkEndIsDesc<T>(g: map<T, set<T>>, p: seq<T>)
    requires IsWalk(g, p)
    ensures p[|p| - 1] in Desc(g, p[0])
    decreases |p|
  {
    ChildIsDesc(g, p[0], p[1]);
    if |p| > 2 {
      var q := p[1..];
      assert IsWalk(g, q) by {
        forall i | 0 <= i < |q| - 1 ensures q[i] in g && q[i + 1] in g[q[i]] {
          assert q[i] == p[i + 1] && q[i + 1] == p[i + 2];
        }
      }
      WalkEndIsDesc(g, q);
      DescTransitive(g, p[0], p[1]);
    }
  }

  /** A walk without its last step is a walk, when it has at least two steps. */
  lemma WalkPrefix<T>(g: map<T, set<T>>, p: seq<T>)
    requires IsWalk(g, p) && |p| > 2
    ensures IsWalk(g, p[..|p| - 1])
  {
    var q := p[..|p| - 1];
    forall i | 0 <= i < |q| - 1 ensures q[i] in g && q[i + 1] in g[q[i]] {
      assert q[i] == p[i] && q[i + 1] == p[i + 1];
    }
  }

  /** A descendant of `u` has a parent that is `u` or a descendant of `u`. */
  lemma DescParent<T>(g: map<T, set<T>>, u: T, x: T) returns (q: T)
    requires x in Desc(g, u)
    ensures q in g && x in g[q] && (q == u || q in Desc(g, u))
  {
    DescIsReachability(g, u, x);
    var w :| IsWalk(g, w) && w[0] == u && w[|w| - 1] == x;
    q := w[|w| - 2];
    if |w| > 2 {
      WalkPrefix(g, w);
      WalkEndIsDesc(g, w[..|w| - 1]);
    }
    assert q in g && x in g[q] && (q == u || q in Desc(g, u));
  }

  /** Every node has at most one parent. */
  predicate UniqueParents<T>(g: map<T, set<T>>)
  {
    forall q1, q2, x | q1 in g && q2 in g && x in g[q1] && x in g[q2] :: q1 == q2
  }

  /** With unique parents, walking up from the end of a walk that ends at
      or below `w` stays at or below `w` until it meets `w`: the start is
      at or below `w`, or `w` is below the start. */
  lemma {:induction false} WalkMeetsBelow<T>(g: map<T, set<T>>, p: seq<T>, w: T)
    requires UniqueParents(g) && IsWalk(g, p)
    requires p[|p| - 1] == w || p[|p| - 1] in Desc(g, w)
    ensures p[0] == w || p[0] in Desc(g, w) || w in Desc(g, p[0])
    decreases |p|
  {
    var z, q := p[|p| - 1], p[|p| - 2];
    assert q in g && z in g[q];
    if z == w {
      WalkEndIsDesc(g, p);
    } else {
      var parent := DescParent(g, w, z);
      assert parent == q;
      if |p| > 2 {
        var pre := p[..|p| - 1];
        WalkPrefix(g, p);
        assert pre[0] == p[0] && pre[|pre| - 1] == q;
        WalkMeetsBelow(g, pre, w);
      }
    }
  }

  /** `Desc` is exactly reachability: `x` is a descendant of `v` if and
      only if some walk of one or more steps leads from `v` to `x`. */
  lemma DescIsReachability<T>(g: map<T, set<T>>, v: T, x: T)
    ensures x in Desc(g, v) <==> exists p :: IsWalk(g, p) && p[0] == v && p[|p| - 1] == x
  {
    if p :| IsWalk(g, p) && p[0] == v && p[|p| - 1] == x {
      WalkEndIsDesc(g, p);
    }
    if x in Desc(g, v) {
      var U := set y | y in Targets(g) && exists p :: IsWalk(g, p) && p[0] == v && p[|p| - 1] == y;
      var S := Succ(g, {v});
      forall w | w in S ensures w in U {
        var p := [v, w];
        assert IsWalk(g, p);
      }
      forall w | w in Succ(g, U) ensures w in U {
        var u :| u in U && u in g && w in g[u];
        var p :| IsWalk(g, p) && p[0] == v && p[|p| - 1] == u;
        var p' := p + [w];
        assert IsWalk(g, p') by {
          forall i | 0 <= i < |p'| - 1 ensures p'[i] in g && p'[i + 1] in g[p'[i]] {
            if i < |p| - 1 {
              assert p'[i] == p[i] && p'[i + 1] == p[i + 1];
            }
          }
        }
        assert p'[0] == v && p'[|p'| - 1] == w;
      }
      ClosureIsLeast(g, S, S, U);
    }
  }

  /** `x` is among the descendants of `v` exactly when `x` is not `v` and
      some walk of one or more steps leads from `v` to `x`. */
  lemma DescendantsIsReachability<T>(g: map<T, set<T>>, v: T, x: T)
    ensures x in Descendants(g, v) <==>
      x != v && exists p :: IsWalk(g, p) && p[0] == v && p[|p| - 1] == x
  {
    DescIsReachability(g, v, x);
  }

  /** On an acyclic relation no node reaches itself, so the two sets agree. */
  lemma AcyclicDescendants<T>(g: map<T, set<T>>, v: T)
    requires Acyclic(g)
    ensures Descendants(g, v) == Desc(g, v)
  {
    if v !in g {
      assert Succ(g, {v}) == {};
      assert Desc(g, v) == {};
    }
  }
}
