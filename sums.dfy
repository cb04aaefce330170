/** Sums of real weights, the model of Python's `sum(...)` over a set of
    arcs (any iteration order) and over a list of node ids. */
module Sums {
  import opened Lists

  /** The product of two reals. Products of two variable quantities are
      written through this function, which keeps them as single terms
      for the solver until a proof needs the arithmetic. */
  function Mul(x: real, y: real): real
  {
    x * y
  }

  /** The product of two non-negative reals is non-negative. */
  lemma MulNonneg(x: real, y: real)
    requires 0.0 <= x && 0.0 <= y
    ensures 0.0 <= Mul(x, y)
  {
  }

  /** Sum of `w` over the finite set `S`, in no particular order. */
  ghost function SetSum<K>(S: set<K>, w: map<K, real>): real
    requires S <= w.Keys
    decreases |S|
  {
    if S == {} then 0.0
    else
      var x :| x in S;
      w[x] + SetSum(S - {x}, w)
  }

  /** The sum does not depend on which element is taken first. */
  lemma {:induction false} SetSumRemove<K>(S: set<K>, w: map<K, real>, a: K)
    requires S <= w.Keys && a in S
    ensures SetSum(S, w) == w[a] + SetSum(S - {a}, w)
    decreases |S|
  {
    var x :| x in S && SetSum(S, w) == w[x] + SetSum(S - {x}, w);
    if x != a {
      SetSumRemove(S - {x}, w, a);
      SetSumRemove(S - {a}, w, x);
      assert S - {x} - {a} == S - {a} - {x};
    }
  }

  /** Only the weights of the summed elements matter. */
  lemma {:induction false} SetSumAgree<K>(S: set<K>, w1: map<K, real>, w2: map<K, real>)
    requires S <= w1.Keys && S <= w2.Keys
    requires forall a | a in S :: w1[a] == w2[a]
    ensures SetSum(S, w1) == SetSum(S, w2)
    decreases |S|
  {
    if S != {} {
      var x :| x in S;
      SetSumRemove(S, w1, x);
      SetSumRemove(S, w2, x);
      SetSumAgree(S - {x}, w1, w2);
    }
  }

  /** A sum of zeros is zero. */
  lemma {:induction false} SetSumZero<K>(S: set<K>, w: map<K, real>)
    requires S <= w.Keys
    requires forall a | a in S :: w[a] == 0.0
    ensures SetSum(S, w) == 0.0
    decreases |S|
  {
    if S != {} {
      var x :| x in S;
      SetSumRemove(S, w, x);
      SetSumZero(S - {x}, w);
    }
  }

  /** Sum of `w[i]` over the entries `i` of `vs` that lie in `S`,
      taken left to right as Python's `sum` over a generator does. */
  function SumWhere(vs: seq<int>, S: set<int>, w: map<int, real>): real
    requires forall i | i in vs && i in S :: i in w
  {
    if vs == [] then 0.0
    else
      var last := vs[|vs| - 1];
      SumWhere(vs[..|vs| - 1], S, w) + (if last in S then w[last] else 0.0)
  }

  /** With non-negative weights, summing over a larger set gives a larger sum. */
  lemma {:induction false} SumWhereMono(vs: seq<int>, S1: set<int>, S2: set<int>, w: map<int, real>)
    requires S1 <= S2
    requires forall i | i in vs && i in S2 :: i in w && w[i] >= 0.0
    ensures SumWhere(vs, S1, w) <= SumWhere(vs, S2, w)
  {
    if vs != [] {
      SumWhereMono(vs[..|vs| - 1], S1, S2, w);
    }
  }

  /** A sum of non-negative weights is non-negative. */
  lemma {:induction false} SumWhereNonneg(vs: seq<int>, S: set<int>, w: map<int, real>)
    requires forall i | i in vs && i in S :: i in w && w[i] >= 0.0
    ensures SumWhere(vs, S, w) >= 0.0
  {
    if vs != [] {
      SumWhereNonneg(vs[..|vs| - 1], S, w);
    }
  }

  /** Only the members of `S` that occur in `vs` matter. */
  lemma {:induction false} SumWhereRestrict(vs: seq<int>, S1: set<int>, S2: set<int>, w: map<int, real>)
    requires forall i | i in vs && i in S1 :: i in w
    requires forall i | i in vs :: i in S1 <==> i in S2
    ensures SumWhere(vs, S1, w) == SumWhere(vs, S2, w)
  {
    if vs != [] {
      SumWhereRestrict(vs[..|vs| - 1], S1, S2, w);
    }
  }

  /** Over a list without repetitions that covers `S`, the left-to-right
      sum is the order-free sum over the set `S`. */
  lemma {:induction false} SumWhereIsSetSum(vs: seq<int>, S: set<int>, w: map<int, real>)
    requires Distinct(vs) && S <= Elems(vs) && S <= w.Keys
    ensures SumWhere(vs, S, w) == SetSum(S, w)
  {
    if vs != [] {
      var pre, x := vs[..|vs| - 1], vs[|vs| - 1];
      DistinctPrefix(vs, |vs| - 1);
      DistinctLast(vs);
      assert vs == pre + [x];
      if x in S {
        SumWhereRestrict(pre, S, S - {x}, w);
        SumWhereIsSetSum(pre, S - {x}, w);
        SetSumRemove(S, w, x);
      } else {
        SumWhereIsSetSum(pre, S, w);
      }
    }
  }

  /** Pointwise smaller weights give a smaller sum. */
  lemma {:induction false} SetSumMono<K>(S: set<K>, w1: map<K, real>, w2: map<K, real>)
    requires S <= w1.Keys && S <= w2.Keys
    requires forall a | a in S :: w1[a] <= w2[a]
    ensures SetSum(S, w1) <= SetSum(S, w2)
    decreases |S|
  {
    if S != {} {
      var x :| x in S;
      SetSumRemove(S, w1, x);
      SetSumRemove(S, w2, x);
      SetSumMono(S - {x}, w1, w2);
    }
  }

  /** Sum of `w` over the entries of a list, left to right. */
  function SeqSum<K>(ks: seq<K>, w: map<K, real>): real
    requires forall k | k in ks :: k in w
  {
    if ks == [] then 0.0 else SeqSum(ks[..|ks| - 1], w) + w[ks[|ks| - 1]]
  }

  /** Over a list without repetitions the left-to-right sum is the
      order-free sum over its entries. */
  lemma {:induction false} SeqSumIsSetSum<K>(ks: seq<K>, w: map<K, real>)
    requires Distinct(ks) && forall k | k in ks :: k in w
    ensures Elems(ks) <= w.Keys
    ensures SeqSum(ks, w) == SetSum(Elems(ks), w)
  {
    if ks != [] {
      var pre, x := ks[..|ks| - 1], ks[|ks| - 1];
      DistinctPrefix(ks, |ks| - 1);
      DistinctLast(ks);
      assert ks == pre + [x];
      assert Elems(ks) - {x} == Elems(pre);
      SeqSumIsSetSum(pre, w);
      SetSumRemove(Elems(ks), w, x);
    }
  }

  /** One step of a loop that sums `w` over `S` by removing elements from `rest`. */
  lemma SetSumStep<K>(S: set<K>, rest: set<K>, w: map<K, real>, a: K, r: real)
    requires rest <= S <= w.Keys && a in rest
    requires r == SetSum(S, w) - SetSum(rest, w)
    ensures r + w[a] == SetSum(S, w) - SetSum(rest - {a}, w)
  {
    SetSumRemove(rest, w, a);
  }

  /** `sum(power[v] for v in nodes if v not in subs)`, the set taken in
      any order. */
  method SumOutside<K>(nodes: set<K>, subs: set<K>, power: map<K, real>) returns (r: real)
    requires nodes <= power.Keys
    ensures r == SetSum(nodes - subs, power)
  {
    ghost var S := nodes - subs;
    r := 0.0;
    var rest := nodes;
    while rest != {}
      invariant rest <= nodes
      invariant r == SetSum(S, power) - SetSum(rest - subs, power)
      decreases |rest|
    {
      var v :| v in rest;
      if v !in subs {
        SetSumStep(S, rest - subs, power, v, r);
        assert (rest - {v}) - subs == (rest - subs) - {v};
        r := r + power[v];
      } else {
        assert (rest - {v}) - subs == rest - subs;
      }
      rest := rest - {v};
    }
    assert rest - subs == {};
  }
}
