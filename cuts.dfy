/** What the three Benders callbacks share: Python's `round` applied to
    the incumbent read back from the solver, and the lazy constraint
    `sum(Lambda[a] for a in arcs) >= rhs - sum(Savings[a] * X[a] for a in arcs)`
    handed to `cbLazy`. */
module Cuts {
  import opened Lists
  import opened Sums
  import opened Network
  import opened Outages
  import opened Subtrees

  /** `round(x)`: the nearest integer, a tie going to the even one. */
  function Round(x: real): (n: int)
    ensures -0.5 <= x - n as real <= 0.5
    ensures x - n as real == 0.5 || x - n as real == -0.5 ==> n % 2 == 0
  {
    var f := x.Floor;
    var d := x - f as real;
    if d < 0.5 then f
    else if d > 0.5 then f + 1
    else if f % 2 == 0 then f else f + 1
  }

  /** The two properties above determine the rounded value. */
  lemma RoundUnique(x: real, n: int)
    requires -0.5 <= x - n as real <= 0.5
    requires x - n as real == 0.5 || x - n as real == -0.5 ==> n % 2 == 0
    ensures Round(x) == n
  {
  }

  /** `{x: round(XV[x]) for x in XV}`. */
  function Rounded(XV: map<Arc, real>): (r: map<Arc, real>)
    ensures r.Keys == XV.Keys
    ensures forall a | a in XV :: r[a] == Round(XV[a]) as real
  {
    map a | a in XV :: Round(XV[a]) as real
  }

  /** Every value closer to 0 or 1 than to any other integer, as the
      solver reports binary variables within its integrality tolerance. */
  predicate NearBinary(XV: map<Arc, real>)
  {
    forall a | a in XV :: -0.5 < XV[a] < 0.5 || 0.5 < XV[a] < 1.5
  }

  lemma RoundedBinary(XV: map<Arc, real>)
    requires NearBinary(XV)
    ensures Binary(Rounded(XV))
  {
    forall a | a in XV ensures Rounded(XV)[a] == 0.0 || Rounded(XV)[a] == 1.0 {
      if XV[a] < 0.5 {
        RoundUnique(XV[a], 0);
      } else {
        RoundUnique(XV[a], 1);
      }
    }
  }

  /** A lazy constraint over the arcs of one subtree. */
  datatype LazyCut = LazyCut(arcs: set<Arc>, rhs: real, savings: map<Arc, real>)

  /** The terms `Savings[a] * X[a]`. */
  function Products(savings: map<Arc, real>, X: map<Arc, real>): (p: map<Arc, real>)
    ensures p.Keys == savings.Keys * X.Keys
  {
    map a | a in savings && a in X :: Mul(savings[a], X[a])
  }

  /** The right-hand side of the cut at the master solution `X`. */
  ghost function RhsAt(cut: LazyCut, X: map<Arc, real>): real
    requires cut.arcs <= cut.savings.Keys && cut.arcs <= X.Keys
  {
    cut.rhs - SetSum(cut.arcs, Products(cut.savings, X))
  }

  /** Whether the values `lambda` satisfy the cut at `X`. */
  ghost predicate Satisfied(cut: LazyCut, lambda: map<Arc, real>, X: map<Arc, real>)
    requires cut.arcs <= cut.savings.Keys && cut.arcs <= X.Keys && cut.arcs <= lambda.Keys
  {
    SetSum(cut.arcs, lambda) >= RhsAt(cut, X)
  }

  /** Where `X` has no switch on the cut's arcs, as at the incumbent the
      subtree was taken from, the right-hand side is the cut's constant. */
  lemma RhsAtUnswitched(cut: LazyCut, X: map<Arc, real>)
    requires cut.arcs <= cut.savings.Keys && cut.arcs <= X.Keys
    requires forall a | a in cut.arcs :: X[a] == 0.0
    ensures RhsAt(cut, X) == cut.rhs
  {
    var p := Products(cut.savings, X);
    forall a | a in cut.arcs ensures p[a] == 0.0 {
      assert p[a] == Mul(cut.savings[a], 0.0);
    }
    SetSumZero(cut.arcs, p);
  }

  // ---------------------------------------------------------------------
  // Subtrees of an incumbent and the savings of their arcs
  // ---------------------------------------------------------------------

  /** A region of `XV`: `S` carries no switch, and every arc leaving the
      head of an arc of `S` is in `S` or switched. Every subtree of a 0/1
      incumbent is one. */
  ghost predicate Region(net: Network, XV: map<Arc, real>, S: set<Arc>)
  {
    Covers(net, XV) && Scorable(net, XV, S) && Bounded(net, XV, S) && forall b | b in S :: XV[b] == 0.0
  }

  ghost predicate Regions(net: Network, XV: map<Arc, real>, subtrees: seq<set<Arc>>)
  {
    forall p | 0 <= p < |subtrees| :: Region(net, XV, subtrees[p])
  }

  /** Every subtree `get_subtrees` finds in a 0/1 incumbent is a region. */
  lemma SubtreesAreRegions(net: Network, XV: map<Arc, real>, st: seq<Arc>, subtrees: seq<set<Arc>>)
    requires Valid(net) && Radial(net) && Indexed(net, XV) && Binary(XV)
    requires (forall s | s in st :: s in net.edges) && RunsOf(net, XV, st, subtrees)
    ensures Regions(net, XV, subtrees)
  {
    forall p | 0 <= p < |subtrees| ensures Region(net, XV, subtrees[p]) {
      assert st[p] in st;
      RunRegionFacts(net, XV, st[p]);
    }
  }

  /** Switching one arc of `S` keeps the switch vector covering and `S`
      scorable. */
  lemma SwitchOneScorable(net: Network, XV: map<Arc, real>, S: set<Arc>, b: Arc)
    requires Covers(net, XV) && Scorable(net, XV, S) && b in S
    ensures Covers(net, XV[b := 1.0]) && Scorable(net, XV[b := 1.0], S)
  {
  }

  /** Switching an unswitched arc and switching it back restores `XV`. */
  lemma FlipBack(XV: map<Arc, real>, b: Arc)
    requires b in XV && XV[b] == 0.0
    ensures XV[b := 1.0][b := 0.0] == XV
  {
  }

  /** The value a callback gives a subtree: `calculate_V_s`, the
      load-weighted outage sum (src/util.py, src/benders.py), or
      `get_downstream_theta`, the plain outage sum (src/bendersplus.py). */
  datatype Measure = LoadWeighted | Plain

  ghost function Value(m: Measure, net: Network, XV: map<Arc, real>, S: set<Arc>): real
    requires Ready(net) && Covers(net, XV) && Scorable(net, XV, S)
  {
    match m
    case LoadWeighted => Vs(net, XV, S)
    case Plain => ThetaSum(net, XV, S)
  }

  /** Both values of a region depend on the region alone. */
  lemma ValueLocal(m: Measure, net: Network, X1: map<Arc, real>, X2: map<Arc, real>, S: set<Arc>)
    requires Ready(net) && Region(net, X1, S) && Region(net, X2, S)
    ensures Value(m, net, X1, S) == Value(m, net, X2, S)
  {
    RegionValueLocal(net, X1, X2, S);
  }

  /** The value of `S` once its arc `b` is switched as well. */
  ghost function SwitchedValue(m: Measure, net: Network, XV: map<Arc, real>, S: set<Arc>, b: Arc): real
    requires Ready(net) && Covers(net, XV) && Scorable(net, XV, S) && b in S
  {
    SwitchOneScorable(net, XV, S, b);
    Value(m, net, XV[b := 1.0], S)
  }

  /** `savings` holds, for each arc `b` of `S` it has, the value `vs` less
      the value of `S` with `b` switched as well. */
  ghost predicate SavingsOf(m: Measure, net: Network, XV: map<Arc, real>, S: set<Arc>, vs: real, savings: map<Arc, real>)
    requires Ready(net) && Covers(net, XV) && Scorable(net, XV, S)
  {
    forall b | b in savings :: SavingRecorded(m, net, XV, S, vs, savings, b)
  }

  /** The entry of `b` in `savings` is `vs` less the value of `S` with `b`
      switched as well. */
  ghost predicate SavingRecorded(m: Measure, net: Network, XV: map<Arc, real>, S: set<Arc>, vs: real, savings: map<Arc, real>, b: Arc)
    requires Ready(net) && Covers(net, XV) && Scorable(net, XV, S) && b in savings
  {
    b in S && vs - savings[b] == SwitchedValue(m, net, XV, S, b)
  }

  /** The saving an entry of `savings` records. */
  lemma SavingAt(m: Measure, net: Network, XV: map<Arc, real>, S: set<Arc>, vs: real, savings: map<Arc, real>, b: Arc)
    requires Ready(net) && Covers(net, XV) && Scorable(net, XV, S) && SavingsOf(m, net, XV, S, vs, savings)
    requires b in savings
    ensures b in S && Covers(net, XV[b := 1.0]) && Scorable(net, XV[b := 1.0], S)
    ensures vs - savings[b] == Value(m, net, XV[b := 1.0], S)
  {
    assert SavingRecorded(m, net, XV, S, vs, savings, b);
    SwitchOneScorable(net, XV, S, b);
  }

  /** One more saving: the value of `S` with `b` switched. */
  lemma SavingsPut(m: Measure, net: Network, XV: map<Arc, real>, S: set<Arc>, vs: real, savings: map<Arc, real>, b: Arc, saving: real)
    requires Ready(net) && Covers(net, XV) && Scorable(net, XV, S) && b in S
    requires Covers(net, XV[b := 1.0]) && Scorable(net, XV[b := 1.0], S)
    requires SavingsOf(m, net, XV, S, vs, savings) && vs - saving == Value(m, net, XV[b := 1.0], S)
    ensures SavingsOf(m, net, XV, S, vs, savings[b := saving])
  {
    var s2 := savings[b := saving];
    forall c | c in s2 ensures SavingRecorded(m, net, XV, S, vs, s2, c) {
      if c != b {
        assert SavingRecorded(m, net, XV, S, vs, savings, c);
      }
    }
  }

  /** A cache entry: the savings of the region `S` of the incumbent `X`
      they were computed at, one for every arc of `S`. */
  ghost predicate EntryExact(m: Measure, net: Network, S: set<Arc>, savings: map<Arc, real>, X: map<Arc, real>)
    requires Ready(net)
  {
    Region(net, X, S) && S <= savings.Keys && SavingsOf(m, net, X, S, Value(m, net, X, S), savings)
  }

  /** Savings computed for a region `S` of one incumbent are the savings of
      `S` at any other incumbent of which `S` is a region: every arc leaving
      `S` is switched in both, so the values of `S` depend on `S` alone. */
  lemma CachedSavingsReusable(m: Measure, net: Network, S: set<Arc>, savings: map<Arc, real>, X1: map<Arc, real>, X2: map<Arc, real>)
    requires Ready(net) && EntryExact(m, net, S, savings, X1) && Region(net, X2, S)
    ensures S <= savings.Keys && SavingsOf(m, net, X2, S, Value(m, net, X2, S), savings)
  {
    ValueLocal(m, net, X1, X2, S);
    forall b | b in savings ensures SavingRecorded(m, net, X2, S, Value(m, net, X2, S), savings, b) {
      SavingAt(m, net, X1, S, Value(m, net, X1, S), savings, b);
      SwitchedRegionLocal(net, X1, X2, S, b);
    }
  }

  /** A cut for the subtree `cut.arcs`: its value at `XV` as constant, and
      its savings, one for every arc. */
  ghost predicate CutOf(m: Measure, net: Network, XV: map<Arc, real>, cut: LazyCut)
    requires Ready(net)
  {
    && Covers(net, XV) && Scorable(net, XV, cut.arcs) && cut.arcs <= cut.savings.Keys
    && cut.rhs == Value(m, net, XV, cut.arcs) && SavingsOf(m, net, XV, cut.arcs, cut.rhs, cut.savings)
  }

  ghost predicate CutsOf(m: Measure, net: Network, XV: map<Arc, real>, cuts: seq<LazyCut>)
    requires Ready(net)
  {
    forall p | 0 <= p < |cuts| :: CutOf(m, net, XV, cuts[p])
  }

  lemma CutsAppend(m: Measure, net: Network, XV: map<Arc, real>, cuts: seq<LazyCut>, cut: LazyCut)
    requires Ready(net) && CutsOf(m, net, XV, cuts) && CutOf(m, net, XV, cut)
    ensures CutsOf(m, net, XV, cuts + [cut])
  {
  }

  /** A cut is determined by its subtree and the incumbent: its constant
      is the subtree's value and its savings have exactly the subtree's
      arcs as keys, each with its own saving. */
  lemma CutOfUnique(m: Measure, net: Network, XV: map<Arc, real>, c1: LazyCut, c2: LazyCut)
    requires Ready(net) && CutOf(m, net, XV, c1) && CutOf(m, net, XV, c2) && c1.arcs == c2.arcs
    ensures c1 == c2
  {
    SavingsUnique(m, net, XV, c1.arcs, c1.rhs, c1.savings, c2.savings);
  }

  /** Savings of the same region with the same value and keyed by its arcs
      are the same map. */
  lemma SavingsUnique(m: Measure, net: Network, XV: map<Arc, real>, S: set<Arc>, vs: real, s1: map<Arc, real>, s2: map<Arc, real>)
    requires Ready(net) && Covers(net, XV) && Scorable(net, XV, S)
    requires S <= s1.Keys && SavingsOf(m, net, XV, S, vs, s1)
    requires S <= s2.Keys && SavingsOf(m, net, XV, S, vs, s2)
    ensures s1 == s2
  {
    forall b | b in s1 ensures b in s2 && s2[b] == s1[b] {
      assert SavingRecorded(m, net, XV, S, vs, s1, b);
      assert SavingRecorded(m, net, XV, S, vs, s2, b);
    }
    assert Extends(s1, s2);
    forall b | b in s2 ensures b in s1 {
      assert SavingRecorded(m, net, XV, S, vs, s2, b);
    }
    ExtendsSameKeys(s1, s2);
  }

  /** Two lists of cuts over the same subtrees at the same incumbent are
      the same cuts, however their savings were obtained. */
  lemma CutsOfUnique(m: Measure, net: Network, XV: map<Arc, real>, cs1: seq<LazyCut>, cs2: seq<LazyCut>)
    requires Ready(net) && CutsOf(m, net, XV, cs1) && CutsOf(m, net, XV, cs2) && ArcSeq(cs1) == ArcSeq(cs2)
    ensures cs1 == cs2
  {
    forall p | 0 <= p < |cs1| ensures cs1[p] == cs2[p] {
      assert ArcSeq(cs1)[p] == ArcSeq(cs2)[p];
      CutOfUnique(m, net, XV, cs1[p], cs2[p]);
    }
  }

  /** The subtrees the cuts are over, in order. */
  function ArcSeq(cuts: seq<LazyCut>): (ss: seq<set<Arc>>)
    ensures |ss| == |cuts| && forall p | 0 <= p < |cuts| :: ss[p] == cuts[p].arcs
  {
    seq(|cuts|, p requires 0 <= p < |cuts| => cuts[p].arcs)
  }

  lemma ArcSeqAppend(cuts: seq<LazyCut>, cut: LazyCut, subtrees: seq<set<Arc>>, t: nat)
    requires t < |subtrees| && ArcSeq(cuts) == subtrees[..t] && cut.arcs == subtrees[t]
    ensures ArcSeq(cuts + [cut]) == subtrees[..t + 1]
  {
    assert |ArcSeq(cuts)| == t;
  }

  /** At the incumbent each cut's right-hand side is the subtree's value:
      the incumbent carries no switch on the subtree. */
  lemma CutRhsAtIncumbent(m: Measure, net: Network, XV: map<Arc, real>, cut: LazyCut)
    requires Ready(net) && Region(net, XV, cut.arcs) && CutOf(m, net, XV, cut)
    ensures cut.arcs <= XV.Keys && RhsAt(cut, XV) == cut.rhs
  {
    RhsAtUnswitched(cut, XV);
  }
}
