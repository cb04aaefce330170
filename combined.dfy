/** The combined heuristic-plus-Benders solver of src/outdated/combined.py:
    `SA` seeds the master problem with the arc set of its best placement,
    and the lazy-constraint callback adds one cut per subtree of the
    rounded incumbent, with the savings of each subtree computed the first
    time the subtree is seen and taken from `_searched_subtrees` after
    that. The `Graph` used is the one of src/util.py. */
module Combined {
  import opened Wrappers
  import opened Lists
  import opened Sums
  import opened Network
  import opened Outages
  import opened Subtrees
  import opened Cuts
  import Util
  import Sa

  // ---------------------------------------------------------------------
  // The heuristic
  // ---------------------------------------------------------------------

  /** Arcs of the network give every lookup the energy makes. */
  lemma EdgesGiveEnergyArcs(net: Network, arcs: seq<Arc>)
    requires Consistent(net) && forall a | a in arcs :: a in net.edges
    ensures Sa.EnergyArcs(net, arcs)
  {
  }

  /** `SA(G, P, k_max)`: the initial placement drawn by `indexes` from the
      arcs not leaving the root, `N - len(substations)` of them, the
      annealing loop over the draws of `moves`, and the set of arcs of the
      best placement returned. It holds only arcs not leaving the root. A
      zero upper bound `Eub` raises `ZeroDivisionError` at the first
      energy. */
  method SA(memo: Sa.Memo, p: real, indexes: seq<int>, moves: seq<Sa.Move>) returns (best: Result<set<Arc>, Sa.Raised>)
    requires Ready(memo.net)
    requires |indexes| == Sa.Budget(p, |memo.net.edges|, |memo.net.substations|) - |memo.net.substations|
    requires Sa.Draws(|Sa.NonRootArcs(memo.net.edges)|, indexes)
    requires Sa.MovesFit(|indexes|, Sa.NonRootArcs(memo.net.edges), moves)
    requires memo.fRhs == map[] && memo.energy == map[]
    modifies memo`fRhs
    ensures UpperBound(memo.net) == 0.0 ==> best == Failure(Sa.ZeroDivisionError)
    ensures
      var choices := Sa.NonRootArcs(memo.net.edges);
      var eub := UpperBound(memo.net);
      eub != 0.0 ==>
        && Sa.Annealable(memo.net, choices, eub)
        && Sa.Draws(|choices|, indexes)
        && Sa.MovesFit(|Sa.InitialPlacement(choices, indexes)|, choices, moves)
        && best == Success(Elems(Sa.Run(memo.net, choices, eub, Sa.Start(memo.net, choices, eub, Sa.InitialPlacement(choices, indexes)), moves).bestS))
    ensures best.Success? ==> forall a | a in best.value :: a in memo.net.edges && a.0 != 0
    ensures memo.fRhs == map[]
  {
    var eub := UpperBound(memo.net);
    var choices := Sa.NonRootArcs(memo.net.edges);
    EdgesGiveEnergyArcs(memo.net, choices);
    var s := Sa.InitialPlacement(choices, indexes);
    Sa.InitialPlacementIn(choices, indexes);
    var st :- Sa.Anneal(memo, choices, eub, s, moves);
    Sa.RunStaysIn(memo.net, choices, eub, Sa.Start(memo.net, choices, eub, s), moves);
    var arcs := ElemsOf(st.bestS);
    best := Success(arcs);
  }

  /** `set(s)`. */
  method ElemsOf(s: seq<Arc>) returns (r: set<Arc>)
    ensures r == Elems(s)
  {
    r := {};
    var t := 0;
    while t < |s|
      invariant 0 <= t <= |s| && r == Elems(s[..t])
    {
      assert s[..t + 1] == s[..t] + [s[t]];
      r := r + {s[t]};
      t := t + 1;
    }
    assert s[..|s|] == s;
  }

  // ---------------------------------------------------------------------
  // The cache of savings
  // ---------------------------------------------------------------------

  /** Every entry of a cache is exact for the incumbent recorded with it. */
  ghost predicate CacheExact(net: Network, searched: map<set<Arc>, map<Arc, real>>, origin: map<set<Arc>, map<Arc, real>>)
    requires Ready(net)
  {
    forall S {:trigger CachedAt(net, searched, origin, S)} | S in searched :: CachedAt(net, searched, origin, S)
  }

  /** The entry for `S` is exact for the incumbent recorded with it. */
  ghost predicate CachedAt(net: Network, searched: map<set<Arc>, map<Arc, real>>, origin: map<set<Arc>, map<Arc, real>>, S: set<Arc>)
    requires Ready(net) && S in searched
  {
    S in origin && EntryExact(LoadWeighted, net, S, searched[S], origin[S])
  }

  lemma CacheExactAt(net: Network, searched: map<set<Arc>, map<Arc, real>>, origin: map<set<Arc>, map<Arc, real>>, S: set<Arc>)
    requires Ready(net) && CacheExact(net, searched, origin) && S in searched
    ensures S in origin && EntryExact(LoadWeighted, net, S, searched[S], origin[S])
  {
    assert CachedAt(net, searched, origin, S);
  }

  lemma CacheExactPut(net: Network, searched: map<set<Arc>, map<Arc, real>>, origin: map<set<Arc>, map<Arc, real>>,
                      S: set<Arc>, savings: map<Arc, real>, X: map<Arc, real>)
    requires Ready(net) && CacheExact(net, searched, origin) && S !in searched
    requires EntryExact(LoadWeighted, net, S, savings, X)
    ensures CacheExact(net, searched[S := savings], origin[S := X])
  {
    var s2, o2 := searched[S := savings], origin[S := X];
    forall T | T in s2 ensures CachedAt(net, s2, o2, T) {
      if T != S {
        EntryKept(net, searched, origin, S, savings, X, T);
      }
    }
  }

  lemma EntryKept(net: Network, searched: map<set<Arc>, map<Arc, real>>, origin: map<set<Arc>, map<Arc, real>>,
                  S: set<Arc>, savings: map<Arc, real>, X: map<Arc, real>, T: set<Arc>)
    requires Ready(net) && CacheExact(net, searched, origin) && T in searched && T != S
    ensures T in origin[S := X] && EntryExact(LoadWeighted, net, T, searched[S := savings][T], origin[S := X][T])
  {
    assert CachedAt(net, searched, origin, T);
    UpdateElsewhere(searched, S, savings, T);
    UpdateElsewhere(origin, S, X, T);
  }

  /** The subtrees the cuts are over, as a set. */
  function ArcsOf(cuts: seq<LazyCut>): set<set<Arc>>
  {
    if cuts == [] then {} else ArcsOf(cuts[..|cuts| - 1]) + {cuts[|cuts| - 1].arcs}
  }

  lemma ArcsOfAppend(cuts: seq<LazyCut>, cut: LazyCut)
    ensures ArcsOf(cuts + [cut]) == ArcsOf(cuts) + {cut.arcs}
  {
    assert (cuts + [cut])[..|cuts|] == cuts;
  }

  /** Every cut's savings are the cache's entry for its subtree. */
  ghost predicate Recorded(cuts: seq<LazyCut>, searched: map<set<Arc>, map<Arc, real>>)
  {
    forall p | 0 <= p < |cuts| :: cuts[p].arcs in searched && cuts[p].savings == searched[cuts[p].arcs]
  }

  lemma RecordedAppend(cuts: seq<LazyCut>, cut: LazyCut, s1: map<set<Arc>, map<Arc, real>>, s2: map<set<Arc>, map<Arc, real>>)
    requires Recorded(cuts, s1) && Extends(s1, s2) && cut.arcs in s2 && cut.savings == s2[cut.arcs]
    ensures Recorded(cuts + [cut], s2)
  {
  }

  /** The source's `_searched_subtrees` dictionary, keyed by subtree, over
      the `Graph` `graph`. Each entry also records, as ghost state, the
      incumbent it was computed at. */
  class CutCache {
    const graph: Util.Graph
    var searched: map<set<Arc>, map<Arc, real>>
    ghost var origin: map<set<Arc>, map<Arc, real>>

    constructor(graph: Util.Graph)
      ensures this.graph == graph && searched == map[] && origin == map[]
    {
      this.graph := graph;
      searched := map[];
      origin := map[];
    }

    /** Every entry is exact for the incumbent it was computed at. */
    ghost predicate Exact()
      reads this
      requires Ready(graph.net)
    {
      CacheExact(graph.net, searched, origin)
    }

    /** The tentative-switch loop: each arc of `S` is switched in `XV`,
        the subtree's value taken, and the arc switched back to 0. The arcs
        of `S` carry no switch, so `XV` ends as it started. */
    method SearchSubtree(S: set<Arc>, XV: map<Arc, real>, vs: real) returns (savings: map<Arc, real>, X: map<Arc, real>)
      requires Ready(graph.net) && Covers(graph.net, XV) && Scorable(graph.net, XV, S)
      requires forall a | a in S :: XV[a] == 0.0
      modifies graph
      ensures X == XV && S <= savings.Keys && SavingsOf(LoadWeighted, graph.net, XV, S, vs, savings)
    {
      savings := map[];
      X := XV;
      var rest := S;
      while rest != {}
        invariant rest <= S && S - rest <= savings.Keys
        invariant X == XV
        invariant SavingsOf(LoadWeighted, graph.net, XV, S, vs, savings)
        decreases |rest|
      {
        var b :| b in rest;
        TakeOne(S, rest, savings.Keys, b);
        var saving;
        saving, X := TrySwitch(S, X, vs, b);
        SavingsPut(LoadWeighted, graph.net, XV, S, vs, savings, b, saving);
        savings := savings[b := saving];
        rest := rest - {b};
      }
    }

    /** One pass of that loop: `b` switched, the value of `S` taken, and
        `b` switched back. */
    method TrySwitch(S: set<Arc>, XV: map<Arc, real>, vs: real, b: Arc) returns (saving: real, X: map<Arc, real>)
      requires Ready(graph.net) && Covers(graph.net, XV) && Scorable(graph.net, XV, S)
      requires b in S && XV[b] == 0.0
      modifies graph
      ensures X == XV && Covers(graph.net, XV[b := 1.0]) && Scorable(graph.net, XV[b := 1.0], S)
      ensures vs - saving == Vs(graph.net, XV[b := 1.0], S)
    {
      SwitchOneScorable(graph.net, XV, S, b);
      X := XV[b := 1.0];
      var v := graph.CalculateVs(S, X, true);
      saving := vs - v;
      FlipBack(XV, b);
      X := X[b := 0.0];
    }

    /** `calculate_V_s(subtree, XV)` with its memo cleared first. */
    method SubtreeValue(S: set<Arc>, XV: map<Arc, real>) returns (vs: real)
      requires Ready(graph.net) && Covers(graph.net, XV) && Scorable(graph.net, XV, S)
      modifies graph
      ensures vs == Vs(graph.net, XV, S)
    {
      vs := graph.CalculateVs(S, XV, true);
    }

    /** A subtree seen for the first time: its savings are computed by the
        tentative-switch loop and stored under it. */
    method Store(S: set<Arc>, XV: map<Arc, real>, vs: real) returns (savings: map<Arc, real>, X: map<Arc, real>)
      requires Ready(graph.net) && Region(graph.net, XV, S) && Exact() && S !in searched
      requires vs == Vs(graph.net, XV, S)
      modifies this, graph
      ensures X == XV && Exact() && searched == old(searched)[S := savings]
      ensures S <= savings.Keys && SavingsOf(LoadWeighted, graph.net, XV, S, vs, savings)
    {
      savings, X := SearchSubtree(S, XV, vs);
      CacheExactPut(graph.net, searched, origin, S, savings, XV);
      searched := searched[S := savings];
      origin := origin[S := XV];
    }

    /** The body of the subtree loop of `Callback` for the subtree `S` of
        the incumbent `XV`: the value `V_s` is taken afresh; the savings are
        computed and stored when `S` is not yet a key, and read back from
        the cache otherwise. */
    method CutFor(S: set<Arc>, XV: map<Arc, real>) returns (cut: LazyCut, X: map<Arc, real>)
      requires Ready(graph.net) && Region(graph.net, XV, S) && Exact()
      modifies this, graph
      ensures X == XV && Exact() && cut.arcs == S && CutOf(LoadWeighted, graph.net, XV, cut)
      ensures S in searched && cut.savings == searched[S]
      ensures Extends(old(searched), searched) && searched.Keys == old(searched).Keys + {S}
    {
      var vs := SubtreeValue(S, XV);
      if S !in searched {
        var savings;
        savings, X := Store(S, XV, vs);
        ExtendsPut(old(searched), S, savings);
        cut := LazyCut(S, vs, savings);
      } else {
        X := XV;
        CacheExactAt(graph.net, searched, origin, S);
        CachedSavingsReusable(LoadWeighted, graph.net, S, searched[S], origin[S], XV);
        ExtendsPresent(searched, S);
        cut := LazyCut(S, vs, searched[S]);
      }
    }

    /** After the first cuts of the subtree loop, started with the cache
        `before`: one cut per subtree so far, each recorded in the cache,
        which has gained exactly their subtrees. */
    ghost predicate Built(XV: map<Arc, real>, done: seq<set<Arc>>, cuts: seq<LazyCut>, before: map<set<Arc>, map<Arc, real>>)
      reads this
      requires Ready(graph.net)
    {
      && Exact() && ArcSeq(cuts) == done && CutsOf(LoadWeighted, graph.net, XV, cuts)
      && Recorded(cuts, searched) && Extends(before, searched)
      && searched.Keys == before.Keys + ArcsOf(cuts)
    }

    /** One pass of the subtree loop: the cut for `subtrees[t]`. */
    method NextCut(XV: map<Arc, real>, subtrees: seq<set<Arc>>, t: nat, cuts: seq<LazyCut>, ghost before: map<set<Arc>, map<Arc, real>>)
      returns (cuts': seq<LazyCut>)
      requires Ready(graph.net) && t < |subtrees| && Region(graph.net, XV, subtrees[t])
      requires Built(XV, subtrees[..t], cuts, before)
      modifies this, graph
      ensures Built(XV, subtrees[..t + 1], cuts', before)
    {
      ghost var s1 := searched;
      var cut, _ := CutFor(subtrees[t], XV);
      ExtendsTrans(before, s1, searched, ArcsOf(cuts), {cut.arcs});
      ArcsOfAppend(cuts, cut);
      RecordedAppend(cuts, cut, s1, searched);
      CutsAppend(LoadWeighted, graph.net, XV, cuts, cut);
      ArcSeqAppend(cuts, cut, subtrees, t);
      cuts' := cuts + [cut];
    }

    /** The subtree loop of `Callback` over the subtrees of `XV`, in order. */
    method CutsFor(XV: map<Arc, real>, subtrees: seq<set<Arc>>) returns (cuts: seq<LazyCut>)
      requires Ready(graph.net) && Regions(graph.net, XV, subtrees) && Exact()
      modifies this, graph
      ensures Exact() && ArcSeq(cuts) == subtrees && CutsOf(LoadWeighted, graph.net, XV, cuts)
      ensures Recorded(cuts, searched) && Extends(old(searched), searched)
      ensures searched.Keys == old(searched).Keys + ArcsOf(cuts)
    {
      cuts := [];
      ExtendsRefl(searched);
      var t := 0;
      while t < |subtrees|
        invariant 0 <= t <= |subtrees| && Built(XV, subtrees[..t], cuts, old(searched))
      {
        cuts := NextCut(XV, subtrees, t, cuts, old(searched));
        t := t + 1;
      }
      assert subtrees[..|subtrees|] == subtrees;
    }

    /** The `MIPSOL` branch of `Callback` on the solver's incumbent `raw`:
        it is rounded, split into subtrees in arc order, and one cut per
        subtree is returned for `cbLazy`, in order. Each cut's constant is
        the subtree's value at the incumbent and its savings are the
        subtree's savings at the incumbent, cached or not. */
    method Callback(raw: map<Arc, real>) returns (cuts: seq<LazyCut>)
      requires Valid(graph.net) && Radial(graph.net) && Forest(graph.net) && Distinct(graph.net.edges)
      requires Indexed(graph.net, raw) && NearBinary(raw) && Exact()
      modifies this, graph
      ensures Exact()
      ensures RunsOf(graph.net, Rounded(raw), Starts(graph.net, Rounded(raw), graph.net.edges), ArcSeq(cuts))
      ensures CutsOf(LoadWeighted, graph.net, Rounded(raw), cuts)
      ensures Recorded(cuts, searched) && Extends(old(searched), searched)
      ensures searched.Keys == old(searched).Keys + ArcsOf(cuts)
    {
      var XV := Rounded(raw);
      RoundedBinary(raw);
      var subtrees := graph.GetSubtrees(XV, graph.net.edges);
      SubtreesAreRegions(graph.net, XV, Starts(graph.net, XV, graph.net.edges), subtrees);
      cuts := CutsFor(XV, subtrees);
    }
  }
}
