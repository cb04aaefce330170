# Optimal switch placement on radial distribution networks — a Dafny model

The MATH3205 repository places switches on the arcs of a radial
power-distribution forest, minimising expected energy not supplied (ENS).
A `Graph` object is built from the nodes and branches of a dataset. It adds
a synthetic root `0` joined to every substation (a node whose client count
is `-1`). It then stores:

- descendant sets;
- per-arc "successor arc" sets;
- downstream loads;
- the ENS lower and upper bounds.

The objective rests on one recursion: the downstream outage value of an arc
`(i, j)`. It is `0` when the arc carries a switch. Otherwise it is
`theta[j]` plus the values of the arcs leaving `j`. The repository writes
this recursion five times, each with a memo table. The solvers use it as
follows:

- Simulated annealing (`src/sa.py`, `src/outdated/combined.py`) scores a
  placement with it.
- The Benders callbacks (`src/benders.py`, `src/bendersplus.py`, and the
  callback in `combined.py`) split an incumbent into switch-free subtrees.
  They emit one lazy cut per subtree, caching subtree values and savings
  across callbacks.
- `src/outdated/mip3.py` feeds the recursion to its sub-problems.
- `src/check_validity.py` re-checks a solver's answer against the MIP
  constraints.
- `reader.py` parses the `.pos` files.
- The root `util.py` builds the older bus graph.

The Dafny model follows the source file by file:

| module | source |
|---|---|
| `Network`, `Outages`, `Subtrees`, `Util` | `src/util.py` |
| `Util2` | `src/outdated/util2.py` |
| `BusGraph` | `util.py` |
| `Reader`, `Text` | `reader.py` |
| `Sa` | `src/sa.py` |
| `Combined` | `src/outdated/combined.py` |
| `Cuts`, `BendersPlus`, `Benders` | the callbacks |
| `Mip3` | `src/outdated/mip3.py` |
| `CheckValidity` | `src/check_validity.py` |

`Reach`, `Sums`, `Lists` and `Wrappers` are generic support.

The modelling choices:

- **Objects that the source updates in place are classes.** Their memo
  dictionaries are `map` fields reassigned by methods. Examples are
  `Util.Graph._objectives`, `Util2.Graph._downstream_theta`, the global
  `_F_RHS` memos and the callback caches.
- **Each memoised method is proved against one specification function.**
  For the recursion this is `Outages.Outage`: starting from a memo that is
  sound for the current switch vector, every answer is the plain recursive
  value. Lemmas then connect the five versions: they show the
  `XV == 1` branch of `src/util.py` and the membership form of `sa.py`
  compute the same value.
- **The subtree loop has a reference definition.** The loop of
  `get_subtrees` is specified by `Subtrees.Starts` and `Subtrees.Run`. On
  those the cover, partition and disjointness properties are proved.
  Disjointness needs arcs visited after their parent arcs, and
  `ChildFirstOverlap` exhibits the overlap otherwise.
- **The solver is abstracted.** The callbacks take the solver's incumbent
  as input and return the lazy cuts.
- **Floats are exact reals** and sums are exact.

## Model

| member | source | states |
|---|---|---|
| Reach.DescIsReachability | src/util.py:41 | reachability, the relation `nx.descendants` is built on: `x` is reachable from `v` exactly when some walk of one or more steps leads from `v` to `x` |
| Reach.DescendantsIsReachability | src/util.py:41 | `nx.descendants(G, v)`: `x` is a descendant of `v` exactly when `x` is not `v` and some walk of one or more steps leads from `v` to `x`, so `v` is left out even on a cycle |
| Reach.AcyclicDescendants | src/util.py:41 | on an acyclic graph the descendants of `v` are the whole reachable set |
| Sums.SeqSumIsSetSum | src/util.py:148-151 | summing a list of distinct arcs left to right equals the order-free sum over its set, so any iteration order of a Python set gives the same `sum` |
| Network.Indices | src/util.py:21 | the vertex list has one entry per node, the node's index, in node order |
| Network.IndexMap | src/util.py:19 | `index_node` has exactly the node indices as keys |
| Network.RootArcs | src/util.py:24-28 | the appended arcs are exactly the arcs `(0, s)` with `s` a listed node whose client count is `-1` |
| Network.Heads | src/util.py:58-61 | `k` is among the heads of `j` exactly when `k` is a vertex and `(j, k)` is an arc |
| Network.OutgoingMap | src/util.py:58-61 | `outgoing` has a key for every vertex and holds that vertex's heads |
| Network.SuccessorMap | src/util.py:41 | `successors_dict` maps every vertex `v` to `nx.descendants(G, v)`, a subset of the vertices that never contains `v` itself |
| Network.SuccessorArcMap | src/util.py:55 | `successor_arcs` has every arc as key, each mapped to the arcs with both ends at or below its head |
| Network.LoadMap | src/util.py:62 | `downstream_load` has a key for every vertex, each holding the non-substation power at and below it |
| Network.MakeNetworkValid | src/util.py:11-62 | the constructor yields a valid network: vertices are the node ids followed by `0`, arcs are the edges followed by the root arcs, `index_node[0]` is `Node(0, 0, 0, 0)`, `theta[0] = 0`, and `M` (kept by src/outdated/util2.py) is ten times the summed outage rates |
| Network.SubstationsAreMarked | src/util.py:38 | `i` is a substation exactly when some listed node with index `i` has client count `-1` |
| Network.ArcListShape | src/util.py:22-28 | the arc list starts with the input edges unchanged; the rest are exactly the arcs `(0, s)` for the substations `s` |
| Network.OutgoingExact | src/util.py:58-61 | `k` is in `outgoing[j]` exactly when `(j, k)` is an arc |
| Network.SuccessorsAreReachable | src/util.py:41 | `successors[v]` holds exactly the nodes other than `v` reachable from `v` by one or more arcs, on any arc list, cyclic or not |
| Network.SuccessorsInForest | src/util.py:41 | in a forest `successors[v]` is the whole set reachable from `v` |
| Network.BelowSumMonotone | src/util.py:64-70 | with non-negative weights, a node sum below the head of an arc is at most the sum below its tail |
| Network.DownstreamLoadIsTotal | src/util.py:64-70 | `get_downstream_load(v)` is the total power of `v` and its descendants, substations skipped |
| Network.DownstreamLoadMonotone | src/util.py:64-70 | downstream load is non-negative and never grows along an arc |
| Network.DownstreamThetaIsTotal | src/util.py:72-74 | `get_downstream_theta(v)` is the total outage rate of `v` and its descendants, substations skipped |
| Network.LowerBoundIsNodeSum | src/util.py:84-88 | the lower bound is the sum over non-substation nodes of downstream load times outage rate |
| Network.UpperBoundIsNodeSum | src/util.py:90-97 | the upper bound is the sum over substations of downstream load times the summed outage rate of the substation's descendants |
| Network.BoundsNonnegative | src/util.py:84-97 | both bounds are non-negative when loads and rates are |
| Network.SuccessorArcsNested | src/util.py:76-82 | a successor arc of `a` is an arc whose own successor arcs are among those of `a` |
| Network.SuccessorArcsExcludeSelf | src/util.py:76-82 | in a forest no arc is among its own successor arcs |
| Network.SuccessorArcsAntisymmetric | src/util.py:76-82 | in a forest, if `a` is a successor arc of `r` then `r` is not a successor arc of `a` |
| Outages.ContributionIsOutage | src/util.py:129-135 | the explicit `XV[i, j] == 1 -> 0` branch of `calculate_contribution` gives the product form `(1 - XV) * (theta[j] + children)` for every switch vector |
| Outages.FRhsIsOutage | src/sa.py:307-317 | the membership form of `calculate_F_RHS` is the product form under the 0/1 indicator of the placement list |
| Outages.FRhsMembershipOnly | src/sa.py:309 | two placement lists with the same arcs give every arc the same value, whatever their order and repetitions |
| Outages.Indicator | src/sa.py:309 | the indicator has exactly the given keys, with 1 on the placed arcs and 0 elsewhere |
| Outages.OutageCongruent | src/util.py:133-134 | an arc's value depends only on the switch values of the arc itself and of the arcs below its head |
| Outages.OutageAntitone | src/util.py:133-134 | with switch values in [0, 1] and non-negative rates the value is non-negative, and more switching never increases it |
| Subtrees.Starts | src/util.py:163-165 | every arc that starts an output set is an arc of the order without a switch |
| Subtrees.RunSwitchFree | src/util.py:158-169 | no arc of an output set carries a switch |
| Subtrees.RunContainsStart | src/util.py:166-169 | in a forest the set started by an unswitched arc contains that arc |
| Subtrees.RunBoundary | src/util.py:166-169 | every arc leaving the head of an arc of an output set is in the set or switched |
| Subtrees.TreeLaminar | src/util.py:55 | in a radial network two arc trees that meet are nested |
| Subtrees.SubtreesContainStart | src/util.py:163-171 | every output set starts from an unswitched arc and contains it |
| Subtrees.SubtreesWithin | src/util.py:163-171 | the output sets hold only arcs of the network without a switch |
| Subtrees.SubtreesCover | src/util.py:163-171 | every unswitched arc of the order lies in some output set, for any order |
| Subtrees.SubtreesPartition | src/util.py:163-171 | over an order listing every arc, the output sets together hold exactly the unswitched arcs |
| Subtrees.SubtreesDisjoint | src/util.py:163-171 | when every arc is visited after the arcs above it, the output sets are pairwise disjoint |
| Subtrees.ChildFirstOverlap | src/util.py:163-171 | without switches, a child arc visited before its parent starts its own set, and the parent's set contains it again |
| Subtrees.SubtreesUnion | src/util.py:163-172 | the union of the output list holds only unswitched arcs, and all of them over an order listing every arc of a forest |
| Subtrees.RegionValueLocal | src/outdated/combined.py:203-209 | two switch vectors that agree on a region bounded by switches give it the same weighted and unweighted value |
| Subtrees.CachedValueExact | src/outdated/combined.py:199-209 | when two 0/1 incumbents give the same subtree, its value is the same under both, so a cached value stays exact |
| Subtrees.CachedSavingExact | src/outdated/combined.py:204-208 | likewise with one arc of the subtree switched: cached savings stay exact |
| Subtrees.SavingsNonnegative | src/outdated/combined.py:206 | switching one more arc never raises a subtree's value, so every saving is non-negative |
| Util.Graph.constructor | src/util.py:11-62 | the object holds the tables of `MakeNetwork` on its inputs, which are valid, and an empty memo |
| Util.Graph.GetSuccessorArcs | src/util.py:76-82 | the loop over the arc list collects exactly the arcs with both ends at or below `index` |
| Util.Graph.CalculateContribution | src/util.py:124-137 | the memo keeps its entries and gains the arc; from a memo sound for `XV` the answer is the arc's outage value and the memo stays sound |
| Util.TermNonnegative | src/util.py:148-150 | one summand, an arc's load drop times its outage value, is non-negative when the drop and the rates are and switch values lie in [0, 1] |
| Util.VsNonnegative | src/util.py:148-151 | with loads and outage rates non-negative and switch values in [0, 1], the value `calculate_V_s` computes for any set of arcs is non-negative |
| Util.Graph.CalculateVs | src/util.py:139-151 | with `reset`, or from a sound memo, the result is the subtree's load-weighted outage value `Vs`; without `reset` every old memo entry keeps its value, and when every arc of the subtree is already memoised the memo is left as it was and the result is the sum of load drops times the stale memo values, whatever `XV` they were computed for |
| Util.Graph.SumWeighted | src/util.py:148-151 | summing over the subtree in any order gives the set sum of the weighted values; old memo entries keep their values, and a subtree already in the memo is answered from it alone |
| Util.Graph.WeightedContribution | src/util.py:149-150 | one summand is the arc's load drop times its outage value under a sound memo, or times its memoised value when the arc is already in the memo |
| Util.Graph.GetSubtrees | src/util.py:153-172 | the output is the list of runs of `Starts`; its union holds only unswitched arcs, and exactly those for a forest with an indexed incumbent |
| Util.SplitAtSwitches | src/util.py:158-172 | the outer loop yields one run per start, in order |
| Util.SubtractBlocked | src/util.py:166-169 | subtracting the blocked-off trees that contain the arc leaves the run of the arc |
| Util2.PickleRoundTrip | src/outdated/util2.py:81-108 | restoring a saved network gives back every table unchanged |
| Util2.MakeNetworkFresh | src/outdated/util2.py:59-80 | the fresh path's tables are valid, with `theta[0] = 0`, `M` ten times the summed rates and every load the power at and below its node |
| Util2.OutgoingIsHeads | src/outdated/util2.py:73-76 | `outgoing[j]` as a set is exactly `{k \| (j, k) in edges}` |
| Util2.Graph.constructor | src/outdated/util2.py:30-80 | the fresh path stores the network's tables, every downstream load, and an empty outage memo |
| Util2.Graph.Load | src/outdated/util2.py:81-93 | the pickle path rebuilds every table from its pair list |
| Util2.Graph.ToGraphPickle | src/outdated/util2.py:95-108 | restoring the record gives back the object's tables |
| Util2.Graph.GetDownstreamLoad | src/outdated/util2.py:110-119 | a stored value is returned unchanged; otherwise exactly one entry is added, which is the total power at and below the node, substations skipped; the table stays sound |
| Util2.Graph.CalculateDownstreamTheta | src/outdated/util2.py:171-189 | the memo keeps its entries and gains the arc; from a sound memo the answer is the arc's outage value `(1 - XV) * (theta[j] + children)` |
| Util2.Graph.CalculateVs | src/outdated/util2.py:191-204 | whatever `reset` says, the memo is cleared and the result is the subtree's value `Vs` |
| Util2.Graph.SumWeighted | src/outdated/util2.py:201-204 | the summands added in any order give the set sum |
| Util2.Graph.WeightedOutage | src/outdated/util2.py:202-203 | one summand is the arc's load drop times its outage value |
| Util2.Graph.GetDownstreamTheta | src/outdated/util2.py:206-211 | after clearing the memo the result is the left-to-right sum of the arcs' outage values; over a list without repetitions, their set sum |
| Util2.Graph.SumOutages | src/outdated/util2.py:209-211 | the loop's result is the left-to-right sum of the outage values |
| Util2.Graph.GetSubtrees | src/outdated/util2.py:213-232 | the same runs as src/util.py, each as a tuple of distinct arcs |
| Util2.Tuple | src/outdated/util2.py:231 | `tuple(s)` lists each member of the set exactly once |
| Util2.Tuples | src/outdated/util2.py:231 | every set of the list becomes a tuple without repetitions holding exactly its members |
| BusGraph.SortByNum | util.py:24 | sorting keeps the length and the multiset of buses |
| BusGraph.SortByNumSorted | util.py:24 | the sorted list is ordered by bus number and a permutation of the input |
| BusGraph.SortedElems | util.py:24 | the sorted list holds exactly the buses of the file |
| BusGraph.SortedPosition | util.py:24-28 | on buses numbered 0 to n - 1, the sorted list's entry `i` is the bus numbered `i` |
| BusGraph.GraphOfByNumber | util.py:22-29 | `graph_dict[b]` holds `c` exactly when some branch has `Src_bus` equal to `b`'s number and `c` is the bus at its `Rec_bus` |
| BusGraph.GraphOfClosed | util.py:26-29 | every bus a branch feeds is a bus of the file |
| BusGraph.FeedMap | util.py:22-29 | `IndexError` exactly when some branch end lies outside the bus list; otherwise every bus maps to the buses its branches feed |
| BusGraph.DescByChildren | util.py:38-45 | a bus's descendants are its children plus their descendants, the recursion `_construct_successors` relies on |
| BusGraph.Graph.constructor | util.py:6-15 | before `_make_graph` both dictionaries are empty |
| BusGraph.Graph.ConstructSuccessors | util.py:34-47 | the search returns exactly the bus's descendant set, and neither dictionary changes |
| BusGraph.Graph.FillSuccessors | util.py:31-32 | after the reversed loop every bus has an entry, each its descendant set |
| BusGraph.Graph.MakeGraph | util.py:17-32 | `IndexError` exactly when a branch end does not index the sorted list; otherwise `graph_dict` is the branch relation and `successors` the descendant sets |
| BusGraph.Build | util.py:6-15 | the constructor fails exactly as `_make_graph` does; otherwise a fresh object holds both tables |
| Text.SplitJoin | reader.py:39 | `split()` of tokens joined by blanks gives back the tokens |
| Text.SplitStrip | reader.py:39 | `strip()` before `split()` never changes the tokens |
| Text.ParseIntRoundTrip | reader.py:45-47 | `int(str(n)) == n` |
| Text.ParseRealRoundTrip | reader.py:48-51 | a decimal written out reads back as its exact value |
| Reader.ReadBranchLine | reader.py:36-53 | the line quits exactly when it does not have eight tokens; a read branch has load, reactive load and status |
| Reader.ReadSwitchLine | reader.py:55-67 | a line without five tokens raises `ValueError`; a read switch has no load, reactive load or status |
| Reader.ReadBusLine | reader.py:69-76 | a line without three tokens raises `ValueError` |
| Reader.ReadBranchLineRoundTrip | reader.py:36-53 | a branch line written with eight tokens reads back as that branch |
| Reader.ReadSwitchLineRoundTrip | reader.py:55-67 | a switch line written with five tokens reads back as that switch, with the last three fields empty |
| Reader.ReadBusLineRoundTrip | reader.py:69-76 | a bus line written with three integers reads back as that bus |
| Reader.HeaderToken | reader.py:83-90 | `lines[n].split()[1]` exists exactly when line `n` exists and has two tokens |
| Reader.HeaderField | reader.py:83-90 | a read field is the second token of its line, read with `float` on lines 1 and 2 and with `int` elsewhere |
| Reader.HeaderFields | reader.py:83-90 | the header fields from line `n` on are `8 - n` values, real exactly on lines 1 and 2 |
| Reader.IntsIff | reader.py:91 | the list converts exactly when every token is an integer, each element the token's value |
| Reader.SectionIff | reader.py:95-97 | a branch or switch section reads as given items ending at `e` exactly when the lines from `k` are undotted, read as those items, and line `e` is dotted |
| Reader.SectionEnd | reader.py:95-97 | a section ends at the first dotted line |
| Reader.SectionUnterminated | reader.py:95-103 | a branch or switch section with no dotted line below it never succeeds, and with every line readable it fails with `IndexError` |
| Reader.BusRunIff | reader.py:107-111 | the bus loop reads given buses exactly when the lines up to the first dotted line or the end read as them |
| Reader.BusSectionToEnd | reader.py:107-111 | without a dotted line the bus section reads every remaining line |
| Reader.RunIff | reader.py:107-111 | a dotted-line-or-end scan reads given items exactly when the lines up to the first dotted line or the end read as them |
| Reader.BusSectionFound | reader.py:105-111 | a bus section that reads starts inside the file and its buses are the lines up to the first dotted line or the end |
| Reader.LayoutWith | reader.py:93-111 | whatever the line readers, the branch section runs from line 10 to the first dotted line, the switch section from the next line to the next dotted line, and the bus section is read two lines after that |
| Reader.SectionsLayout | reader.py:93-103 | branches run from line 10 to the first dotted line, switches from the next line to the next dotted line |
| Reader.SectionsBuses | reader.py:105-111 | the buses are the bus section read two lines after the dotted line that ends the switches |
| Reader.PosFileLayout | reader.py:93-125 | the branch and switch sections of a file that reads lie as above, and `Arcs` is the branches followed by the switches |
| Reader.PosFileBuses | reader.py:105-111 | the buses of a file that reads are its bus section two lines after the switch section's dotted line |
| Reader.PosFileHeader | reader.py:83-91 | the header fields are the second tokens of lines 0-7, and the feeder ids are every token after the first on line 8 |
| Reader.PosFileUnterminated | reader.py:93-97 | a file with no dotted line from line 10 on never reads |
| Reader.ScanSection | reader.py:93-103 | the `while` loop of a branch or switch section returns the section's reference result |
| Reader.ScanBuses | reader.py:105-111 | the bus loop, with its end-of-input `break`, returns the bus section's reference result |
| Reader.ReadPosFile | reader.py:78-126 | the whole reading returns the reference result `PosFile` on the file's lines |
| Sa.NonRootArcs | src/sa.py:356 | `A_` holds exactly the arcs not leaving the root |
| Sa.NonRootArcsCounts | src/sa.py:356 | `A_` holds each arc not leaving the root as often as `A` does, so it repeats no arc when `A` repeats none |
| Sa.NonRootArcsAppend | src/sa.py:356 | filtering a concatenation is the concatenation of the filtered parts, so `A_` keeps the arcs in the order of `A` |
| Sa.Budget | src/sa.py:353 | `N - len(substations)` is the floor of `P * len(A)` |
| Sa.InitialPlacement | src/sa.py:357-358 | the initial placement has one arc per index, `A_[indexes[p]]` at position `p` |
| Sa.InitialPlacementIn | src/sa.py:356-358 | every arc of the initial placement is an arc of `A_` |
| Sa.EnergyMembershipOnly | src/sa.py:320-330 | the energy depends only on which arcs the placement holds |
| Sa.EnergySumIsVs | src/sa.py:327-330 | over a list of distinct arcs the energy sum equals `calculate_V_s` of its arcs under the 0/1 vector of the placement |
| Sa.Memo.constructor | src/sa.py:306-319 | both module dictionaries start empty |
| Sa.Memo.CalculateFRhs | src/sa.py:306-317 | the memo keeps its entries and gains the arc; from a memo sound for the placement the answer is the membership-form value |
| Sa.Memo.EnergyFunction | src/sa.py:319-333 | a cached placement is answered from the cache with `_F_RHS` untouched; otherwise `_F_RHS` ends empty, the call raises `ZeroDivisionError` exactly when `Eub` is zero, and otherwise the result is the energy normalised by `Eub` |
| Sa.Memo.EnergyTerm | src/sa.py:329-330 | one summand is the tail's load drop times the arc's value |
| Sa.Replaced | src/sa.py:388-390 | the neighbour has the length of `s` |
| Sa.ReplacedUntouched | src/sa.py:388-390 | a position no pair writes keeps the entry of `s` |
| Sa.ReplacedLastWrite | src/sa.py:389-390 | a written position holds `A_[n]` of the last pair writing it |
| Sa.ReplacedFrom | src/sa.py:389-390 | every entry of the neighbour is an entry of `s` or of `A_` |
| Sa.Neighbour | src/sa.py:385-390 | the copy-and-write loop computes the reference neighbour, leaving `s` as it was |
| Sa.Step | src/sa.py:383-413 | one iteration keeps the length of `s` |
| Sa.Run | src/sa.py:383-413 | the iterations keep the length of `s` |
| Sa.StepBest | src/sa.py:408-413 | `best_e` never rises and is at most the neighbour's energy; `best_s` and `best_e` change only on a strict improvement, to the neighbour and its energy |
| Sa.RunBestBelowStart | src/sa.py:370-413 | the final `best_e` is at most the initial energy |
| Sa.RunBestBelowTried | src/sa.py:411-413 | the final `best_e` is at most the energy of every neighbour tried |
| Sa.RunBestIsEnergy | src/sa.py:370-413 | `best_e` stays the energy of `best_s` |
| Sa.RunStaysIn | src/sa.py:356-409 | placements drawn from `A_` stay drawn from `A_` after every move |
| Sa.Anneal | src/sa.py:365-413 | a zero `Eub` raises `ZeroDivisionError` at the initial energy; otherwise the loop over the draws ends in the state the reference iteration reaches; `_F_RHS` is left empty either way |
| Combined.SA | src/outdated/combined.py:47-109 | a zero upper bound `Eub` raises `ZeroDivisionError`; otherwise the returned set is the arc set of the best placement of the reference run from the initial draw; it holds only arcs not leaving the root |
| Combined.ElemsOf | src/outdated/combined.py:109 | `set(best_s)` holds exactly the arcs of the list |
| Combined.CutCache.constructor | src/outdated/combined.py:185 | the cache starts empty |
| Combined.CutCache.SubtreeValue | src/outdated/combined.py:201 | `V_s` is the subtree's value `Vs` at the incumbent |
| Combined.CutCache.TrySwitch | src/outdated/combined.py:205-207 | `XV` is restored, and `V_s` less the saving is the subtree's value with the arc switched |
| Combined.CutCache.SearchSubtree | src/outdated/combined.py:204-208 | `XV` ends as it started, and every arc of the subtree has its saving |
| Combined.CutCache.Store | src/outdated/combined.py:203-208 | the savings are stored under the subtree, exact for the incumbent, and `XV` is restored |
| Combined.CutCache.CutFor | src/outdated/combined.py:199-218 | the cut has the subtree's value as constant and the cached savings; the cache gains exactly the subtree and keeps its entries |
| Combined.CutCache.CutsFor | src/outdated/combined.py:199-218 | one cut per subtree in order, each recorded in the cache, which gains exactly their subtrees |
| Combined.CutCache.Callback | src/outdated/combined.py:186-218 | on the rounded incumbent the cuts are over the runs of `get_subtrees` in arc order, each exact; the cache stays exact and only grows |
| Cuts.Round | src/outdated/combined.py:189 | `round(x)` is within one half of `x`, and a tie goes to the even integer |
| Cuts.RoundUnique | src/outdated/combined.py:189 | those two properties determine the rounded value |
| Cuts.Rounded | src/outdated/combined.py:189 | the rounded incumbent has the same keys, each value rounded |
| Cuts.RoundedBinary | src/outdated/combined.py:189 | values near 0 or 1 round to a 0/1 vector |
| Cuts.RhsAtUnswitched | src/outdated/combined.py:213-218 | where the master has no switch on the subtree, the cut's right-hand side is its constant |
| Cuts.SubtreesAreRegions | src/util.py:163-171 | every subtree of a 0/1 incumbent is switch-free and bounded by switches |
| Cuts.FlipBack | src/outdated/combined.py:205-207 | setting an unswitched arc to 1 and back to 0 restores `XV` |
| Cuts.ValueLocal | src/outdated/combined.py:203-209 | both subtree values of a region depend on the region alone |
| Cuts.CachedSavingsReusable | src/outdated/combined.py:203-209 | savings computed at one incumbent are the savings at any other incumbent of which the subtree is a region |
| Cuts.CutOfUnique | src/benders.py:98-111 | a cut is determined by its subtree and the incumbent |
| Cuts.CutsOfUnique | src/benders.py:98-111 | two cut lists over the same subtrees at the same incumbent are equal, cached or not |
| Cuts.CutRhsAtIncumbent | src/outdated/combined.py:213-218 | at the incumbent the cut's right-hand side is the subtree's value |
| BendersPlus.ForcedArcs | src/bendersplus.py:75-79 | the forced arcs are exactly the arcs `(0, j)` with `j` a vertex, without repetitions |
| BendersPlus.ForcedArcsAreSubstationArcs | src/bendersplus.py:75-79 | in a constructed network the forced arcs are exactly the arcs from the root to the substations |
| BendersPlus.BudgetCovers | src/bendersplus.py:38 | with `P >= 0` the budget exceeds the substation count by `floor(P * len(A)) >= 0` |
| BendersPlus.ForcedPlacementFeasible | src/bendersplus.py:38-82 | the forced switches alone meet the master's switch constraints and leave exactly `floor(P * len(A))` switches free |
| BendersPlus.CachedThetaExact | src/bendersplus.py:126-128 | a cached `theta_s` is the subtree's plain outage sum at every incumbent of which the subtree is a region |
| BendersPlus.ThetaCutCache.constructor | src/bendersplus.py:103-104 | both caches start empty |
| BendersPlus.ThetaCutCache.Theta | src/bendersplus.py:126-128 | `theta_s` is the tuple's outage sum at the incumbent, stored once and read back afterwards |
| BendersPlus.ThetaCutCache.TrySwitch | src/bendersplus.py:132-134 | `XV` is restored, and `theta_s` less the saving is the outage sum with the arc switched |
| BendersPlus.ThetaCutCache.SearchSubtree | src/bendersplus.py:131-135 | `XV` ends as it started, and every arc of the tuple has its saving |
| BendersPlus.ThetaCutCache.Savings | src/bendersplus.py:130-136 | the savings are computed and stored the first time, read back afterwards, exact either way |
| BendersPlus.ThetaCutCache.CutFor | src/bendersplus.py:123-144 | the cut `sum(Lambda) >= theta_s - sum(Savings * X)` uses the two cached entries, which are exact |
| BendersPlus.ThetaCutCache.CutsFor | src/bendersplus.py:123-144 | one cut per tuple in order, each recorded in both caches, which gain exactly those tuples |
| BendersPlus.ThetaCutCache.Callback | src/bendersplus.py:105-144 | on the rounded incumbent the cuts are over the runs of `get_subtrees` in arc order, each exact; both caches stay exact and only grow |
| Benders.SavingOnCopy | src/benders.py:101-104 | `V_s` less the saving is the subtree's value on a copy with the arc switched |
| Benders.SubtreeSavings | src/benders.py:99-104 | every arc of the subtree has its saving, computed on copies, and the incumbent is not changed |
| Benders.CutFor | src/benders.py:98-111 | the cut has the subtree's fresh value as constant and its fresh savings |
| Benders.CutsFor | src/benders.py:98-111 | one cut per subtree, in order |
| Benders.ReportedAboveLowerBound | src/benders.py:94 | the ENS the callback reports for a rounded incumbent, `calculate_V_s` over all arcs plus `Elb`, is at least the lower bound `Elb` when loads and rates are non-negative |
| Benders.Callback | src/benders.py:89-111 | the reported value is `calculate_V_s` over all arcs plus `Elb`, and the cuts are over the runs of the rounded incumbent, each exact |
| Mip3.LocalInterruption | src/outdated/mip3.py:73 | `Local_Interruption` has a key for every vertex |
| Mip3.OutgoingTable | src/outdated/mip3.py:78-81 | `Outgoing` has a key for every vertex, and its list for `j` holds exactly the vertices `k` with an arc `(j, k)`, in vertex-list order (`Heads`) |
| Mip3.TablesAreTheGraphs | src/outdated/mip3.py:73-81 | on a valid network the two tables are the graph's outage rates and child lists |
| Mip3.AgreesWithSa | src/outdated/mip3.py:5-14 | on a 0/1 `XV` the value agrees with src/sa.py's membership form over the switched arcs |
| Mip3.FRhsMemo.constructor | src/outdated/mip3.py:5 | the global memo starts empty |
| Mip3.FRhsMemo.CalculateFRhs | src/outdated/mip3.py:5-14 | the memo keeps its entries and gains the arc; from a sound memo the answer is `(1 - XV) * (Theta[j] + children)`, 0 on a switched arc |
| Mip3.FRhsMemo.SetRhs | src/outdated/mip3.py:169 | one right-hand side is set to the arc's outage value and the memo stays sound |
| Mip3.FRhsMemo.RoundRhs | src/outdated/mip3.py:163-181 | from an empty memo every arc's right-hand side is its outage value under this round's unrounded `XV`, and the memo is empty again for the next round |
| CheckValidity.SwitchLimit | src/check_validity.py:13 | `N` less the substation count is the floor of `P * len(edges)`, stated as the bracket `N - S <= P * len(edges) < N - S + 1`, and is the same budget as src/sa.py's |
| CheckValidity.CheckArc | src/check_validity.py:19-46 | the flag is set exactly when it was set already or the arc fails the equality, the slack or the substation check |
| CheckValidity.CheckConstraints | src/check_validity.py:8-50 | the assertion fails exactly when the switch values sum above `N`; otherwise the outcome is true exactly when some arc fails some check |
| CheckValidity.OutageFlowBalances | src/check_validity.py:20-22 | taking each arc's flow as its outage value, and the slack at `j` as the part switched off there, passes the equality check |

## Left out

- **The solver.** Gurobi model building and solving are left out. This
  covers the `run_optimisation*` functions and the master `while` loop of
  src/outdated/mip3.py. `cbGetSolution` becomes an input of each callback
  and `cbLazy` its returned list of cuts. The sub-problem `optimize` calls
  and the cut acceptance test of mip3.py are left out too.
- **networkx.** `nx.descendants` is replaced by reachability over the arc
  list without the source node (`Reach.Descendants`), as networkx leaves
  the source out even when it lies on a cycle. The `G` object, plotting
  and `verbal` printing are left out.
- **Randomness.** `np.random.choice` draws and the random half of `Prob`
  are inputs, in `Sa.Move`. The temperature schedule is left out: `coin`
  stands for its accept decision.
- **Floating point.** Floats are exact reals, so sums are order-free.
  check_validity's rounding to 6 decimals is modelled as exact equality.
- **The recursions assume an acyclic forest.** The recursions and
  `_construct_successors` terminate only on acyclic inputs, so `Ready` and
  `Searchable` require one. The source would recurse without end on a
  cycle.
- **Iteration orders.** The source iterates `self.V` (a set) when it
  builds `outgoing`, and `G.V` in check_validity. The model follows the
  vertex list instead; sums do not depend on this order. The iteration
  order of `XV` in `get_subtrees` is the `order` parameter, which the
  callbacks take to be the arc list.
- **Input well-formedness.** The constructor requires distinct node ids
  other than `0`, and edge endpoints that are listed nodes. The callbacks
  further require a branch list without repeats (`Distinct`) and at most
  one feeding branch per node (`Radial`); see their lines below.
- **util2 pickle path.** The source leaves `_downstream_theta` unset on
  the pickle path. The model starts it empty.
- **Unmodelled members.** `Graph.info`, the networkx object `Graph.G`
  and `GraphPickle.G` are not part of the model.
- **Cache keys.** combined.py keys its cache by the sets `get_subtrees`
  returns. Python sets are unhashable, so the source would fail there.
  The model keys by `set`.
- **Store inside the loop.** combined.py and bendersplus.py store the
  savings dictionary inside the arc loop, on every pass. The model stores
  it once after the loop; the final entry is the same.
- **File reading.** `open` and `readlines` become a list of lines. The
  module-level script of util.py and `load_graph_object` are left out.
- **check_validity output.** check_validity prints its outcome rather
  than returning it, despite its `-> bool` annotation. The model returns
  the flag, and the `AssertionError` as a `Failure`.
- **Slack coupling.** The slack bound `Slack <= M * X` is not proved for
  outage flows.
- **Parsing.** `int` and `float` are modelled on decimal tokens, with an
  optional sign, point and exponent. Other Python number syntax
  (underscores, `inf`, `nan`, hexadecimal) is not modelled.
- BusGraph.SortByNum: the stability of Python's `sorted` among equal bus
  numbers is not proved. Only the ordering and the permutation are.
- Sa.MovesFit: the number of draws per move is not fixed to
  `floor(0.2 * len(s))`. Any number of in-range draws is allowed.
- Reader.ReadSwitchLine: states the failure only for a wrong token
  count. A wrong number format is a `ValueError` in both the source and
  the model but is not stated separately.
- Benders.Callback: requires `Distinct(graph.net.edges)` and
  `Radial(graph.net)`. The source accepts a repeated branch: the dict `X`
  keeps one variable for it, so `get_subtrees` sees it once, but
  `calculate_V_s(A, XV)` (src/benders.py:94) sums the list `A` and counts
  it twice in the reported value, where the model sums over the arc set.
  A node fed by two branches is also accepted by the source; the model's
  account of the subtrees and their cuts relies on one feeding branch per
  node.
- Combined.CutCache.Callback: requires `Distinct(graph.net.edges)` and
  `Radial(graph.net)`. The model takes the branch list as the key order
  of `X`, which needs it free of repeats; on a repeated branch the
  source's dict keeps the first position, which the model does not
  represent. A node fed by two branches is accepted by the source but not
  covered by the model's account of the subtrees and their cuts.
- BendersPlus.ThetaCutCache.Callback: requires `Distinct(graph.net.edges)`
  and `Radial(graph.net)`, for the same two reasons as
  `Combined.CutCache.Callback`.
- Sa.Energy: defined only for a nonzero `Eub`, the domain of the
  division. The zero case, where the source raises `ZeroDivisionError`,
  is the `Failure` of `Sa.Memo.EnergyFunction`, `Sa.Anneal` and
  `Combined.SA`; `Sa.Annealable` and the reference iteration `Sa.Run`
  are stated for a nonzero bound only.
- Network.UpperBound: that `Eub` bounds the reported ENS from above is
  not proved. Only its non-negativity (`Network.BoundsNonnegative`) and
  its node-sum form are.
- Mip3.LocalInterruption: states only the key set. That the values are
  the graph's outage rates is `Mip3.TablesAreTheGraphs`.
