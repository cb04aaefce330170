/** The simulated-annealing heuristic of src/sa.py: the membership-based
    downstream-outage recursion `calculate_F_RHS` with its global memo, the
    normalised `energy_function` that sums it over a list of arcs, and the
    neighbour move and best-so-far tracking of `SA`. The random draws of
    `SA` and the random half of `Prob` are inputs of the model. */
module Sa {
  import opened Wrappers
  import opened Lists
  import opened Sums
  import opened Reach
  import opened Network
  import opened Outages
  import opened Subtrees
  import Util

  // ---------------------------------------------------------------------
  // The energy of a placement
  // ---------------------------------------------------------------------

  /** The lookups `energy_function` makes for every arc of its list. */
  predicate EnergyArcs(net: Network, arcs: seq<Arc>)
  {
    forall a | a in arcs :: a.0 in net.downstreamLoad && a.1 in net.downstreamLoad && a.1 in net.vertices
  }

  /** One summand: the load the tail loses beyond the head, times the
      downstream outage value of the arc under the placement. */
  function Term(net: Network, placed: seq<Arc>, a: Arc): real
    requires Ready(net) && a.0 in net.downstreamLoad && a.1 in net.downstreamLoad && a.1 in net.vertices
  {
    Mul(net.downstreamLoad[a.0] - net.downstreamLoad[a.1], FRhs(net, placed, a.0, a.1))
  }

  /** The loop of `energy_function`: the summands added left to right. */
  function EnergySum(net: Network, arcs: seq<Arc>, placed: seq<Arc>): real
    requires Ready(net) && EnergyArcs(net, arcs)
  {
    if arcs == [] then 0.0
    else EnergySum(net, arcs[..|arcs| - 1], placed) + Term(net, placed, arcs[|arcs| - 1])
  }

  /** The exception a zero upper bound `Eub` raises in `energy_function`. */
  datatype Raised = ZeroDivisionError

  /** The value `energy_function` returns: the sum normalised by the upper
      bound `Eub`, for a bound that is not zero. */
  function Energy(net: Network, arcs: seq<Arc>, placed: seq<Arc>, eub: real): real
    requires Ready(net) && EnergyArcs(net, arcs) && eub != 0.0
  {
    EnergySum(net, arcs, placed) / eub
  }

  /** Only the arcs of the placement matter, not their order or how often
      they occur. */
  lemma {:induction false} EnergySumMembershipOnly(net: Network, arcs: seq<Arc>, p1: seq<Arc>, p2: seq<Arc>)
    requires Ready(net) && EnergyArcs(net, arcs) && Elems(p1) == Elems(p2)
    ensures EnergySum(net, arcs, p1) == EnergySum(net, arcs, p2)
  {
    if arcs != [] {
      var a := arcs[|arcs| - 1];
      EnergySumMembershipOnly(net, arcs[..|arcs| - 1], p1, p2);
      FRhsMembershipOnly(net, p1, p2, a.0, a.1);
    }
  }

  lemma EnergyMembershipOnly(net: Network, arcs: seq<Arc>, p1: seq<Arc>, p2: seq<Arc>, eub: real)
    requires Ready(net) && EnergyArcs(net, arcs) && eub != 0.0 && Elems(p1) == Elems(p2)
    ensures Energy(net, arcs, p1, eub) == Energy(net, arcs, p2, eub)
  {
    EnergySumMembershipOnly(net, arcs, p1, p2);
  }

  /** A table holding the summand of every arc of `arcs`. */
  predicate TermsOf(net: Network, placed: seq<Arc>, arcs: seq<Arc>, w: map<Arc, real>)
    requires Ready(net) && EnergyArcs(net, arcs)
  {
    forall a | a in arcs :: a in w && w[a] == Term(net, placed, a)
  }

  lemma {:induction false} EnergySumIsSeqSum(net: Network, arcs: seq<Arc>, placed: seq<Arc>, w: map<Arc, real>)
    requires Ready(net) && EnergyArcs(net, arcs) && TermsOf(net, placed, arcs, w)
    ensures EnergySum(net, arcs, placed) == SeqSum(arcs, w)
  {
    if arcs != [] {
      var init := arcs[..|arcs| - 1];
      assert TermsOf(net, placed, init, w);
      EnergySumIsSeqSum(net, init, placed, w);
    }
  }

  /** The summands `calculate_V_s` adds under the 0/1 vector of a
      placement are the summands of the energy. */
  lemma SummandsAreTerms(net: Network, arcs: seq<Arc>, placed: seq<Arc>, keys: set<Arc>, w: map<Arc, real>)
    requires Ready(net) && EnergyArcs(net, arcs)
    requires ChildArcs(net) + Elems(arcs) <= keys && Covers(net, Indicator(keys, placed))
    requires Scorable(net, Indicator(keys, placed), Elems(arcs))
    requires Util.SummandsOf(net, Indicator(keys, placed), Elems(arcs), w)
    ensures TermsOf(net, placed, arcs, w)
  {
    forall a | a in arcs ensures a in w && w[a] == Term(net, placed, a) {
      SummandIsTerm(net, Elems(arcs), placed, keys, w, a);
    }
  }

  lemma SummandIsTerm(net: Network, S: set<Arc>, placed: seq<Arc>, keys: set<Arc>, w: map<Arc, real>, a: Arc)
    requires Ready(net) && ChildArcs(net) + S <= keys && Covers(net, Indicator(keys, placed))
    requires Scorable(net, Indicator(keys, placed), S) && Util.SummandsOf(net, Indicator(keys, placed), S, w)
    requires a in S && a.0 in net.downstreamLoad && a.1 in net.downstreamLoad && a.1 in net.vertices
    ensures a in w && w[a] == Term(net, placed, a)
  {
    FRhsIsOutage(net, placed, keys, a.0, a.1);
  }

  /** Over a list of edges without repetitions the energy sum is the
      `calculate_V_s` value of its arcs under the 0/1 switch vector of the
      placement: the two solvers score a placement the same way. */
  lemma EnergySumIsVs(net: Network, arcs: seq<Arc>, placed: seq<Arc>, keys: set<Arc>)
    requires Ready(net) && EnergyArcs(net, arcs) && Distinct(arcs)
    requires ChildArcs(net) + Elems(arcs) <= keys && forall a | a in arcs :: a in net.edges
    ensures Covers(net, Indicator(keys, placed)) && Scorable(net, Indicator(keys, placed), Elems(arcs))
    ensures EnergySum(net, arcs, placed) == Vs(net, Indicator(keys, placed), Elems(arcs))
  {
    IndicatorCovers(net, placed, keys);
    var X := Indicator(keys, placed);
    assert Scorable(net, X, Elems(arcs));
    Util.VsSummands(net, X, Elems(arcs));
    var w := Weighted(net.downstreamLoad, ArcOutages(net, X, Elems(arcs)));
    SummandsAreTerms(net, arcs, placed, keys, w);
    EnergySumIsSeqSum(net, arcs, placed, w);
    SeqSumIsSetSum(arcs, w);
  }

  // ---------------------------------------------------------------------
  // The global memos
  // ---------------------------------------------------------------------

  /** Every memoised value is the `FRhs` value of its arc for `placed`. */
  predicate SoundFRhsMemo(net: Network, placed: seq<Arc>, memo: map<Arc, real>)
  {
    Ready(net) && forall a | a in memo :: a.1 in net.vertices && memo[a] == FRhs(net, placed, a.0, a.1)
  }

  lemma SoundFRhsMemoPut(net: Network, placed: seq<Arc>, memo: map<Arc, real>, a: Arc, v: real)
    requires SoundFRhsMemo(net, placed, memo) && a.1 in net.vertices && v == FRhs(net, placed, a.0, a.1)
    ensures SoundFRhsMemo(net, placed, memo[a := v])
  {
  }

  /** The value stored for an arc once its children are summed. */
  lemma FRhsStep(net: Network, placed: seq<Arc>, i: int, j: int, total: real)
    requires Ready(net) && j in net.vertices
    requires total == ChildFRhs(net, placed, j, net.outgoing[j])
    ensures Mul(1.0 - (if (i, j) in placed then 1.0 else 0.0), net.theta[j] + total) == FRhs(net, placed, i, j)
  {
  }

  /** One step of the children sum. */
  lemma ChildFRhsStep(net: Network, placed: seq<Arc>, j: int, ks: seq<int>, t: int, total: real, c: real)
    requires Ready(net) && j in net.vertices && ks == net.outgoing[j] && 0 <= t < |ks|
    requires total == ChildFRhs(net, placed, j, ks[..t]) && c == FRhs(net, placed, j, ks[t])
    ensures total + c == ChildFRhs(net, placed, j, ks[..t + 1])
  {
    assert ks[..t + 1][..t] == ks[..t];
  }

  /** One step of the energy loop. */
  lemma EnergySumStep(net: Network, arcs: seq<Arc>, placed: seq<Arc>, t: int, output: real, term: real)
    requires Ready(net) && EnergyArcs(net, arcs) && 0 <= t < |arcs|
    requires output == EnergySum(net, arcs[..t], placed) && term == Term(net, placed, arcs[t])
    ensures output + term == EnergySum(net, arcs[..t + 1], placed)
  {
    assert arcs[..t + 1][..t] == arcs[..t];
  }

  /** The two module-level dictionaries of src/sa.py over one network:
      `_F_RHS`, keyed by arc, and `_energy_function`, keyed by the set of
      arcs of a placement. Nothing in the source writes the second one. */
  class Memo {
    const net: Network
    var fRhs: map<Arc, real>
    var energy: map<set<Arc>, real>

    constructor(net: Network)
      ensures this.net == net && fRhs == map[] && energy == map[]
    {
      this.net := net;
      fRhs := map[];
      energy := map[];
    }

    predicate Sound(placed: seq<Arc>)
      reads this
    {
      SoundFRhsMemo(net, placed, fRhs)
    }

    /** `calculate_F_RHS`: an arc in the memo is answered from it; otherwise
        the arc's value is zero when it is in the placement list and the
        outage rate of its head plus its children's values when it is not,
        and is stored. From a memo sound for the placement the answer is
        the `FRhs` value of the arc. */
    method CalculateFRhs(i: int, j: int, placed: seq<Arc>) returns (r: real)
      requires Ready(net) && j in net.vertices
      modifies this`fRhs
      decreases |Desc(Children(net), j)|, 1
      ensures (i, j) in fRhs && r == fRhs[(i, j)]
      ensures old(fRhs).Keys <= fRhs.Keys
      ensures forall a | a in old(fRhs) :: fRhs[a] == old(fRhs)[a]
      ensures (i, j) in old(fRhs) ==> fRhs == old(fRhs)
      ensures old(Sound(placed)) ==> Sound(placed) && r == FRhs(net, placed, i, j)
    {
      if (i, j) !in fRhs {
        var x := if (i, j) in placed then 1.0 else 0.0;
        var ks := net.outgoing[j];
        ghost var sound := Sound(placed);
        var total := 0.0;
        var t := 0;
        while t < |ks|
          invariant 0 <= t <= |ks|
          invariant (i, j) !in old(fRhs)
          invariant old(fRhs).Keys <= fRhs.Keys
          invariant forall a | a in old(fRhs) :: fRhs[a] == old(fRhs)[a]
          invariant sound ==> Sound(placed) && total == ChildFRhs(net, placed, j, ks[..t])
        {
          total := AddChild(j, ks, t, total, placed);
          t := t + 1;
        }
        assert ks[..|ks|] == ks;
        var v := Mul(1.0 - x, net.theta[j] + total);
        if sound {
          FRhsStep(net, placed, i, j, total);
          SoundFRhsMemoPut(net, placed, fRhs, (i, j), v);
        }
        fRhs := fRhs[(i, j) := v];
      }
      r := fRhs[(i, j)];
    }

    /** One step of the children loop: the value of the arc to the child
        `ks[t]` of `j` added to `total`. */
    method AddChild(j: int, ks: seq<int>, t: int, total: real, placed: seq<Arc>) returns (total': real)
      requires Ready(net) && j in net.vertices && ks == net.outgoing[j] && 0 <= t < |ks|
      modifies this`fRhs
      decreases |Desc(Children(net), j)|, 0
      ensures old(fRhs).Keys <= fRhs.Keys
      ensures forall a | a in old(fRhs) :: fRhs[a] == old(fRhs)[a]
      ensures old(Sound(placed)) && total == ChildFRhs(net, placed, j, ks[..t]) ==>
        Sound(placed) && total' == ChildFRhs(net, placed, j, ks[..t + 1])
    {
      var k := ks[t];
      ChildShrinks(net, j, k);
      var c := CalculateFRhs(j, k, placed);
      if old(Sound(placed)) && total == ChildFRhs(net, placed, j, ks[..t]) {
        ChildFRhsStep(net, placed, j, ks, t, total, c);
      }
      total' := total + c;
    }

    /** `energy_function`: a placement whose arc set is in `_energy_function`
        is answered from it; otherwise the summands are added over `arcs` in
        order, `_F_RHS` is emptied and the sum divided by `eub` is returned.
        A zero `eub` raises `ZeroDivisionError` after `_F_RHS` is emptied.
        Since the second dictionary is never written, the first branch is
        never taken, and every call leaves `_F_RHS` empty for the next one. */
    method EnergyFunction(arcs: seq<Arc>, placed: seq<Arc>, eub: real) returns (r: Result<real, Raised>)
      requires Ready(net) && EnergyArcs(net, arcs)
      modifies this`fRhs
      ensures Elems(placed) in energy ==> r == Success(energy[Elems(placed)]) && fRhs == old(fRhs)
      ensures Elems(placed) !in energy ==> fRhs == map[] && (r.Failure? <==> eub == 0.0)
      ensures Elems(placed) !in energy && old(Sound(placed)) && eub != 0.0 ==> r == Success(Energy(net, arcs, placed, eub))
    {
      if Elems(placed) in energy {
        r := Success(energy[Elems(placed)]);
        return;
      }
      ghost var sound := Sound(placed);
      var load := net.downstreamLoad;
      var output := 0.0;
      var t := 0;
      while t < |arcs|
        invariant 0 <= t <= |arcs|
        invariant sound ==> Sound(placed) && output == EnergySum(net, arcs[..t], placed)
      {
        var term := EnergyTerm(arcs[t], placed, load);
        if sound {
          EnergySumStep(net, arcs, placed, t, output, term);
        }
        output := output + term;
        t := t + 1;
      }
      assert arcs[..|arcs|] == arcs;
      fRhs := map[];
      if eub == 0.0 {
        r := Failure(ZeroDivisionError);
      } else {
        r := Success(output / eub);
      }
    }

    /** One summand of `energy_function`, the load drop read from `load`. */
    method EnergyTerm(a: Arc, placed: seq<Arc>, load: map<int, real>) returns (term: real)
      requires Ready(net) && a.0 in net.downstreamLoad && a.1 in net.downstreamLoad && a.1 in net.vertices
      requires load == net.downstreamLoad
      modifies this`fRhs
      ensures old(Sound(placed)) ==> Sound(placed) && term == Term(net, placed, a)
    {
      var c := CalculateFRhs(a.0, a.1, placed);
      term := Mul(load[a.0] - load[a.1], c);
    }
  }

  // ---------------------------------------------------------------------
  // Placements and the neighbour move
  // ---------------------------------------------------------------------

  /** `A_`: the arcs not leaving the root 0, in their original order. */
  function NonRootArcs(arcs: seq<Arc>): (r: seq<Arc>)
    ensures forall a | a in r :: a in arcs && a.0 != 0
    ensures forall a | a in arcs && a.0 != 0 :: a in r
  {
    if arcs == [] then []
    else
      var rest := NonRootArcs(arcs[..|arcs| - 1]);
      var a := arcs[|arcs| - 1];
      if a.0 != 0 then rest + [a] else rest
  }

  /** `A_` holds every arc not leaving the root as often as `arcs` does,
      and so repeats none when `arcs` repeats none. */
  lemma {:induction false} NonRootArcsCounts(arcs: seq<Arc>)
    ensures forall a :: multiset(NonRootArcs(arcs))[a] == if a.0 != 0 then multiset(arcs)[a] else 0
    ensures Distinct(arcs) ==> Distinct(NonRootArcs(arcs))
  {
    if arcs != [] {
      var init := arcs[..|arcs| - 1];
      var a := arcs[|arcs| - 1];
      assert arcs == init + [a];
      NonRootArcsCounts(init);
      if Distinct(arcs) {
        DistinctPrefix(arcs, |arcs| - 1);
        DistinctLast(arcs);
        if a.0 != 0 {
          DistinctSnoc(NonRootArcs(init), a);
        }
      }
    }
  }

  /** Filtering a concatenation filters each part in place, so `A_` keeps
      the arcs in the order of `arcs`. */
  lemma {:induction false} NonRootArcsAppend(x: seq<Arc>, y: seq<Arc>)
    ensures NonRootArcs(x + y) == NonRootArcs(x) + NonRootArcs(y)
    decreases |y|
  {
    if y == [] {
      assert x + y == x;
    } else {
      var y' := y[..|y| - 1];
      var b := y[|y| - 1];
      var tail := if b.0 != 0 then [b] else [];
      assert (x + y)[..|x + y| - 1] == x + y';
      assert (x + y)[|x + y| - 1] == b;
      assert NonRootArcs(x + y) == NonRootArcs(x + y') + tail;
      assert NonRootArcs(y) == NonRootArcs(y') + tail;
      NonRootArcsAppend(x, y');
      AppendAssoc(NonRootArcs(x), NonRootArcs(y'), tail);
    }
  }

  /** `N`: the switch budget, the floor of `P` times the number of arcs
      plus one mandatory switch per substation. */
  function Budget(p: real, arcCount: nat, substationCount: nat): (n: int)
    ensures (n - substationCount) as real <= p * arcCount as real < (n - substationCount + 1) as real
  {
    (p * arcCount as real).Floor + substationCount
  }

  /** Indices drawn below `n`, as `np.random.choice(n, size)` returns them. */
  predicate Draws(n: nat, ds: seq<int>)
  {
    forall p | 0 <= p < |ds| :: 0 <= ds[p] < n
  }

  /** The initial placement `[A_[i] for i in indexes]`. */
  function InitialPlacement(choices: seq<Arc>, indexes: seq<int>): (s: seq<Arc>)
    requires Draws(|choices|, indexes)
    ensures |s| == |indexes| && forall p | 0 <= p < |s| :: s[p] == choices[indexes[p]]
  {
    seq(|indexes|, p requires 0 <= p < |indexes| => choices[indexes[p]])
  }

  lemma InitialPlacementIn(choices: seq<Arc>, indexes: seq<int>)
    requires Draws(|choices|, indexes)
    ensures forall a | a in InitialPlacement(choices, indexes) :: a in choices
  {
    var s := InitialPlacement(choices, indexes);
    forall a | a in s ensures a in choices {
      var p :| 0 <= p < |s| && s[p] == a;
    }
  }

  function Min(a: nat, b: nat): nat
  {
    if a < b then a else b
  }

  /** The first `n` writes of the zipped draws applied to `s` in order. */
  function Replaced(s: seq<Arc>, toReplace: seq<int>, newChoice: seq<int>, choices: seq<Arc>, n: nat): (r: seq<Arc>)
    requires Draws(|s|, toReplace) && Draws(|choices|, newChoice)
    requires n <= |toReplace| && n <= |newChoice|
    ensures |r| == |s|
  {
    if n == 0 then s
    else Replaced(s, toReplace, newChoice, choices, n - 1)[toReplace[n - 1] := choices[newChoice[n - 1]]]
  }

  /** `s_new`: a copy of `s` with `s_new[t] = A_[n]` for each zipped pair. */
  function NeighbourOf(s: seq<Arc>, toReplace: seq<int>, newChoice: seq<int>, choices: seq<Arc>): seq<Arc>
    requires Draws(|s|, toReplace) && Draws(|choices|, newChoice)
  {
    Replaced(s, toReplace, newChoice, choices, Min(|toReplace|, |newChoice|))
  }

  /** A position no pair writes keeps its entry. */
  lemma {:induction false} ReplacedUntouched(s: seq<Arc>, toReplace: seq<int>, newChoice: seq<int>, choices: seq<Arc>, n: nat, t: int)
    requires Draws(|s|, toReplace) && Draws(|choices|, newChoice)
    requires n <= |toReplace| && n <= |newChoice| && 0 <= t < |s|
    requires forall m | 0 <= m < n :: toReplace[m] != t
    ensures Replaced(s, toReplace, newChoice, choices, n)[t] == s[t]
  {
    if n > 0 {
      ReplacedUntouched(s, toReplace, newChoice, choices, n - 1, t);
    }
  }

  /** A written position holds the choice of the last pair writing it. */
  lemma {:induction false} ReplacedLastWrite(s: seq<Arc>, toReplace: seq<int>, newChoice: seq<int>, choices: seq<Arc>, n: nat, m: nat)
    requires Draws(|s|, toReplace) && Draws(|choices|, newChoice)
    requires m < n <= |toReplace| && n <= |newChoice|
    requires forall q | m < q < n :: toReplace[q] != toReplace[m]
    ensures 0 <= toReplace[m] < |s|
    ensures Replaced(s, toReplace, newChoice, choices, n)[toReplace[m]] == choices[newChoice[m]]
  {
    if n - 1 > m {
      ReplacedLastWrite(s, toReplace, newChoice, choices, n - 1, m);
    }
  }

  /** Every entry of the neighbour is an entry of `s` or of `choices`. */
  lemma {:induction false} ReplacedFrom(s: seq<Arc>, toReplace: seq<int>, newChoice: seq<int>, choices: seq<Arc>, n: nat)
    requires Draws(|s|, toReplace) && Draws(|choices|, newChoice)
    requires n <= |toReplace| && n <= |newChoice|
    ensures forall a | a in Replaced(s, toReplace, newChoice, choices, n) :: a in s || a in choices
  {
    if n > 0 {
      ReplacedFrom(s, toReplace, newChoice, choices, n - 1);
      var prev := Replaced(s, toReplace, newChoice, choices, n - 1);
      var t := toReplace[n - 1];
      forall a | a in prev[t := choices[newChoice[n - 1]]] ensures a in s || a in choices {
        var p :| 0 <= p < |prev| && prev[t := choices[newChoice[n - 1]]][p] == a;
        if p != t {
          assert a in prev;
        }
      }
    }
  }

  /** The neighbour move, written as the source's loop over a copy. */
  method Neighbour(s: seq<Arc>, toReplace: seq<int>, newChoice: seq<int>, choices: seq<Arc>) returns (sNew: seq<Arc>)
    requires Draws(|s|, toReplace) && Draws(|choices|, newChoice)
    ensures sNew == NeighbourOf(s, toReplace, newChoice, choices)
  {
    var n := Min(|toReplace|, |newChoice|);
    sNew := s;
    var m := 0;
    while m < n
      invariant 0 <= m <= n
      invariant sNew == Replaced(s, toReplace, newChoice, choices, m)
    {
      sNew := sNew[toReplace[m] := choices[newChoice[m]]];
      m := m + 1;
    }
  }

  // ---------------------------------------------------------------------
  // The annealing loop
  // ---------------------------------------------------------------------

  /** One iteration's random draws: the positions to replace, the indices
      into `A_` to put there, and whether `Prob` accepts a neighbour that is
      not strictly better (the random half of `Prob`). */
  datatype Move = Move(toReplace: seq<int>, newChoice: seq<int>, coin: bool)

  /** The variables the loop updates: `s`, `best_e` and `best_s`. */
  datatype State = State(s: seq<Arc>, bestE: real, bestS: seq<Arc>)

  predicate MovesFit(size: nat, choices: seq<Arc>, moves: seq<Move>)
  {
    forall mv | mv in moves :: Draws(size, mv.toReplace) && Draws(|choices|, mv.newChoice)
  }

  /** What both the energy and the neighbour move need. */
  predicate Annealable(net: Network, choices: seq<Arc>, eub: real)
  {
    Ready(net) && EnergyArcs(net, choices) && eub != 0.0
  }

  /** One iteration of the loop of `SA`. */
  function Step(net: Network, choices: seq<Arc>, eub: real, st: State, mv: Move): (r: State)
    requires Annealable(net, choices, eub)
    requires Draws(|st.s|, mv.toReplace) && Draws(|choices|, mv.newChoice)
    ensures |r.s| == |st.s|
  {
    var sNew := NeighbourOf(st.s, mv.toReplace, mv.newChoice, choices);
    var eS := Energy(net, choices, st.s, eub);
    var eNew := Energy(net, choices, sNew, eub);
    State(
      if eNew < eS || mv.coin then sNew else st.s,
      if eNew < st.bestE then eNew else st.bestE,
      if eNew < st.bestE then sNew else st.bestS)
  }

  /** The state after the iterations of `moves`, from `st`. */
  function Run(net: Network, choices: seq<Arc>, eub: real, st: State, moves: seq<Move>): (r: State)
    requires Annealable(net, choices, eub) && MovesFit(|st.s|, choices, moves)
    ensures |r.s| == |st.s|
  {
    if moves == [] then st
    else
      var init := moves[..|moves| - 1];
      assert MovesFit(|st.s|, choices, init);
      var mv := moves[|moves| - 1];
      Step(net, choices, eub, Run(net, choices, eub, st, init), mv)
  }

  /** The neighbour tried in iteration `k`. */
  function Tried(net: Network, choices: seq<Arc>, eub: real, st: State, moves: seq<Move>, k: nat): seq<Arc>
    requires Annealable(net, choices, eub) && MovesFit(|st.s|, choices, moves) && k < |moves|
  {
    var before := Run(net, choices, eub, st, moves[..k]);
    assert moves[k] in moves;
    NeighbourOf(before.s, moves[k].toReplace, moves[k].newChoice, choices)
  }

  lemma RunPrefix(net: Network, choices: seq<Arc>, eub: real, st: State, moves: seq<Move>, k: nat)
    requires Annealable(net, choices, eub) && MovesFit(|st.s|, choices, moves) && k < |moves|
    ensures MovesFit(|st.s|, choices, moves[..k]) && MovesFit(|st.s|, choices, moves[..k + 1])
    ensures Run(net, choices, eub, st, moves[..k + 1])
      == Step(net, choices, eub, Run(net, choices, eub, st, moves[..k]), moves[k])
  {
    assert moves[..k + 1][..k] == moves[..k];
    assert moves[k] in moves;
  }

  /** `best_e` only goes down, and `best_s` and `best_e` change only on a
      strict improvement, which then is the tried neighbour and its energy. */
  lemma StepBest(net: Network, choices: seq<Arc>, eub: real, st: State, mv: Move)
    requires Annealable(net, choices, eub)
    requires Draws(|st.s|, mv.toReplace) && Draws(|choices|, mv.newChoice)
    ensures var r := Step(net, choices, eub, st, mv);
      var sNew := NeighbourOf(st.s, mv.toReplace, mv.newChoice, choices);
      && r.bestE <= st.bestE
      && r.bestE <= Energy(net, choices, sNew, eub)
      && (r.bestE != st.bestE || r.bestS != st.bestS ==>
            r.bestE < st.bestE && r.bestS == sNew && r.bestE == Energy(net, choices, sNew, eub))
  {
  }

  /** `best_e` never rises above its starting value. */
  lemma {:induction false} RunBestBelowStart(net: Network, choices: seq<Arc>, eub: real, st: State, moves: seq<Move>)
    requires Annealable(net, choices, eub) && MovesFit(|st.s|, choices, moves)
    ensures Run(net, choices, eub, st, moves).bestE <= st.bestE
  {
    if moves != [] {
      var init := moves[..|moves| - 1];
      assert MovesFit(|st.s|, choices, init);
      RunBestBelowStart(net, choices, eub, st, init);
    }
  }

  /** The final `best_e` is at most the energy of every neighbour tried. */
  lemma {:induction false} RunBestBelowTried(net: Network, choices: seq<Arc>, eub: real, st: State, moves: seq<Move>, k: nat)
    requires Annealable(net, choices, eub) && MovesFit(|st.s|, choices, moves) && k < |moves|
    ensures Run(net, choices, eub, st, moves).bestE <= Energy(net, choices, Tried(net, choices, eub, st, moves, k), eub)
  {
    var init := moves[..|moves| - 1];
    assert MovesFit(|st.s|, choices, init);
    if k == |moves| - 1 {
      assert init == moves[..k];
      StepBest(net, choices, eub, Run(net, choices, eub, st, init), moves[k]);
    } else {
      assert init[..k] == moves[..k] && init[k] == moves[k];
      RunBestBelowTried(net, choices, eub, st, init, k);
      StepBest(net, choices, eub, Run(net, choices, eub, st, init), moves[|moves| - 1]);
    }
  }

  /** `best_e` stays the energy of `best_s`. */
  lemma {:induction false} RunBestIsEnergy(net: Network, choices: seq<Arc>, eub: real, st: State, moves: seq<Move>)
    requires Annealable(net, choices, eub) && MovesFit(|st.s|, choices, moves)
    requires st.bestE == Energy(net, choices, st.bestS, eub)
    ensures var r := Run(net, choices, eub, st, moves); r.bestE == Energy(net, choices, r.bestS, eub)
  {
    if moves != [] {
      var init := moves[..|moves| - 1];
      assert MovesFit(|st.s|, choices, init);
      RunBestIsEnergy(net, choices, eub, st, init);
    }
  }

  /** Placements drawn from `choices` stay drawn from `choices`: with
      `choices == A_`, no placement ever holds an arc leaving the root. */
  lemma {:induction false} RunStaysIn(net: Network, choices: seq<Arc>, eub: real, st: State, moves: seq<Move>)
    requires Annealable(net, choices, eub) && MovesFit(|st.s|, choices, moves)
    requires forall a | a in st.s :: a in choices
    requires forall a | a in st.bestS :: a in choices
    ensures var r := Run(net, choices, eub, st, moves);
      && (forall a | a in r.s :: a in choices)
      && (forall a | a in r.bestS :: a in choices)
  {
    if moves != [] {
      var init := moves[..|moves| - 1];
      assert MovesFit(|st.s|, choices, init);
      RunStaysIn(net, choices, eub, st, init);
      var before := Run(net, choices, eub, st, init);
      var mv := moves[|moves| - 1];
      assert mv in moves;
      ReplacedFrom(before.s, mv.toReplace, mv.newChoice, choices, Min(|mv.toReplace|, |mv.newChoice|));
    }
  }

  /** The state before the first iteration. */
  function Start(net: Network, choices: seq<Arc>, eub: real, s0: seq<Arc>): State
    requires Annealable(net, choices, eub)
  {
    State(s0, Energy(net, choices, s0, eub), s0)
  }

  /** The loop of `SA` over the given draws, with the energies computed by
      `energy_function` on the shared memos. A zero `eub` raises on the
      first energy; otherwise the result is the state `Run` reaches from
      the initial placement. */
  method Anneal(memo: Memo, choices: seq<Arc>, eub: real, s0: seq<Arc>, moves: seq<Move>) returns (r: Result<State, Raised>)
    requires Ready(memo.net) && EnergyArcs(memo.net, choices) && MovesFit(|s0|, choices, moves)
    requires memo.fRhs == map[] && memo.energy == map[]
    modifies memo`fRhs
    ensures eub == 0.0 ==> r == Failure(ZeroDivisionError)
    ensures eub != 0.0 ==>
      Annealable(memo.net, choices, eub) && r == Success(Run(memo.net, choices, eub, Start(memo.net, choices, eub, s0), moves))
    ensures memo.fRhs == map[]
  {
    var e0 := memo.EnergyFunction(choices, s0, eub);
    if e0.Failure? {
      return Failure(ZeroDivisionError);
    }
    var eInitial := e0.value;
    ghost var st0 := Start(memo.net, choices, eub, s0);
    var s, bestE, bestS := s0, eInitial, s0;
    var k := 0;
    while k < |moves|
      invariant 0 <= k <= |moves| && memo.fRhs == map[] && memo.energy == map[]
      invariant MovesFit(|s0|, choices, moves[..k])
      invariant State(s, bestE, bestS) == Run(memo.net, choices, eub, st0, moves[..k])
    {
      RunPrefix(memo.net, choices, eub, st0, moves, k);
      var mv := moves[k];
      var sNew := Neighbour(s, mv.toReplace, mv.newChoice, choices);
      // `eub` is not zero once the first energy has been computed
      var rS := memo.EnergyFunction(choices, s, eub);
      var rNew := memo.EnergyFunction(choices, sNew, eub);
      var eS, eNew := rS.value, rNew.value;
      if eNew < eS || mv.coin {
        s := sNew;
      }
      if eNew < bestE {
        bestE, bestS := eNew, sNew;
      }
      k := k + 1;
    }
    assert moves[..|moves|] == moves;
    r := Success(State(s, bestE, bestS));
  }
}
