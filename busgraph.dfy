/** The root `util.py`: the bus graph of a `.pos` file. `graph_dict` maps
    each bus to the buses its branches feed; `successors` maps each bus to
    every bus downstream of it, built by a memoised depth-first search. */
module BusGraph {
  import opened Wrappers
  import opened Lists
  import opened Reach
  import opened Reader

  // ---------------------------------------------------------------------
  // `sorted(buses, key = lambda x: x.num)`

  predicate SortedByNum(s: seq<Bus>)
  {
    forall p, q | 0 <= p < q < |s| :: s[p].num <= s[q].num
  }

  /** `b` placed after every entry of the sorted `s` whose number is not
      larger, as a stable sort places it. */
  function InsertByNum(b: Bus, s: seq<Bus>): (t: seq<Bus>)
    ensures |t| == |s| + 1 && multiset(t) == multiset(s) + multiset{b}
  {
    if s == [] || b.num < s[0].num then [b] + s
    else
      assert s == [s[0]] + s[1..];
      [s[0]] + InsertByNum(b, s[1..])
  }

  /** Python's stable `sorted` by bus number, as an insertion sort. */
  function SortByNum(s: seq<Bus>): (t: seq<Bus>)
    ensures |t| == |s| && multiset(t) == multiset(s)
  {
    if s == [] then []
    else
      assert s == s[..|s| - 1] + [s[|s| - 1]];
      InsertByNum(s[|s| - 1], SortByNum(s[..|s| - 1]))
  }

  lemma {:induction false} InsertByNumSorted(b: Bus, s: seq<Bus>)
    requires SortedByNum(s)
    ensures SortedByNum(InsertByNum(b, s))
  {
    if s != [] && b.num >= s[0].num {
      InsertByNumSorted(b, s[1..]);
      var t := InsertByNum(b, s[1..]);
      forall q | 0 <= q < |t| ensures s[0].num <= t[q].num {
        InsertMember(b, s[1..], t[q]);
        if t[q] != b {
          var p :| 0 <= p < |s[1..]| && s[1..][p] == t[q];
          assert s[p + 1] == t[q];
        }
      }
    }
  }

  lemma InsertMember(b: Bus, s: seq<Bus>, x: Bus)
    requires x in InsertByNum(b, s)
    ensures x == b || x in s
  {
    assert x in multiset(InsertByNum(b, s));
  }

  /** The sorted list is ordered by number and holds the same buses. */
  lemma {:induction false} SortByNumSorted(s: seq<Bus>)
    ensures SortedByNum(SortByNum(s)) && multiset(SortByNum(s)) == multiset(s)
  {
    if s != [] {
      SortByNumSorted(s[..|s| - 1]);
      InsertByNumSorted(s[|s| - 1], SortByNum(s[..|s| - 1]));
    }
  }

  /** The numbering the file is meant to have: the buses are numbered
      0 to n - 1, one bus per number. */
  predicate Numbered(s: seq<Bus>)
  {
    && (forall p, q | 0 <= p < q < |s| :: s[p].num != s[q].num)
    && (forall p | 0 <= p < |s| :: 0 <= s[p].num < |s|)
  }

  lemma {:induction false} NumberedPermutation(s: seq<Bus>, t: seq<Bus>)
    requires Numbered(s) && multiset(t) == multiset(s)
    ensures Numbered(t)
  {
    assert |t| == |s| by {
      assert |multiset(t)| == |multiset(s)|;
    }
    forall q | 0 <= q < |t| ensures 0 <= t[q].num < |t| {
      assert t[q] in multiset(s);
      var p :| 0 <= p < |s| && s[p] == t[q];
    }
    forall p, q | 0 <= p < q < |t| ensures t[p].num != t[q].num {
      if t[p] == t[q] {
        MultiplicityOne(s, t[p]);
        MultiplicityTwo(t, p, q);
      } else {
        assert t[p] in multiset(s) && t[q] in multiset(s);
        var i :| 0 <= i < |s| && s[i] == t[p];
        var j :| 0 <= j < |s| && s[j] == t[q];
        assert i < j || j < i;
      }
    }
  }

  lemma MultiplicityTwo(t: seq<Bus>, p: nat, q: nat)
    requires p < q < |t| && t[p] == t[q]
    ensures multiset(t)[t[p]] >= 2
  {
    assert t == t[..p] + [t[p]] + t[p + 1..q] + [t[q]] + t[q + 1..];
  }

  /** With distinct numbers no bus occurs twice. */
  lemma {:induction false} MultiplicityOne(s: seq<Bus>, b: Bus)
    requires forall p, q | 0 <= p < q < |s| :: s[p].num != s[q].num
    ensures multiset(s)[b] <= 1
  {
    if s != [] {
      var u := s[..|s| - 1];
      assert s == u + [s[|s| - 1]];
      MultiplicityOne(u, b);
      if s[|s| - 1] == b {
        forall p | 0 <= p < |u| ensures u[p] != b {
          assert s[p].num != s[|s| - 1].num;
        }
        assert b !in multiset(u);
      }
    }
  }

  /** On a well-numbered bus list, `sorted(...)[i]` is the bus numbered
      `i`: branch endpoints index the sorted list by bus number. */
  lemma SortedPosition(s: seq<Bus>, i: nat)
    requires Numbered(s) && i < |s|
    ensures SortByNum(s)[i].num == i
  {
    var t := SortByNum(s);
    SortByNumSorted(s);
    NumberedPermutation(s, t);
    SortedNumberedPosition(t, i);
  }

  lemma {:induction false} SortedNumberedPosition(t: seq<Bus>, i: nat)
    requires SortedByNum(t) && Numbered(t) && i < |t|
    ensures t[i].num == i
  {
    assert forall p | 0 <= p < |t| - 1 :: t[p].num < t[p + 1].num;
    LowerBound(t, i);
    UpperBound(t, i);
  }

  lemma {:induction false} LowerBound(t: seq<Bus>, i: nat)
    requires i < |t| && forall p | 0 <= p < |t| - 1 :: t[p].num < t[p + 1].num
    requires forall p | 0 <= p < |t| :: 0 <= t[p].num
    ensures t[i].num >= i
  {
    if i > 0 {
      LowerBound(t, i - 1);
    }
  }

  lemma {:induction false} UpperBound(t: seq<Bus>, i: nat)
    requires i < |t| && forall p | 0 <= p < |t| - 1 :: t[p].num < t[p + 1].num
    requires forall p | 0 <= p < |t| :: t[p].num < |t|
    ensures t[i].num <= i
    decreases |t| - i
  {
    if i < |t| - 1 {
      UpperBound(t, i + 1);
    }
  }

  // ---------------------------------------------------------------------
  // `buses[branch.Src_bus]`: Python indexing, negative indices included

  predicate InRange(n: nat, i: int)
  {
    -(n as int) <= i < n
  }

  function PyAt(s: seq<Bus>, i: int): Bus
    requires InRange(|s|, i)
  {
    if i >= 0 then s[i] else s[|s| + i]
  }

  /** Both ends of every branch index the bus list. */
  predicate Indexed(s: seq<Bus>, branches: seq<Branch>)
  {
    forall p | 0 <= p < |branches| :: InRange(|s|, branches[p].srcBus) && InRange(|s|, branches[p].recBus)
  }

  /** The buses fed from `b` by the branches of `brs`. */
  function Fed(s: seq<Bus>, brs: seq<Branch>, b: Bus): set<Bus>
    requires Indexed(s, brs)
  {
    set p | 0 <= p < |brs| && PyAt(s, brs[p].srcBus) == b :: PyAt(s, brs[p].recBus)
  }

  /** `graph_dict` as `_make_graph` leaves it. */
  function GraphOf(info: Info): map<Bus, set<Bus>>
    requires Indexed(SortByNum(info.buses), info.branches)
  {
    map b | b in info.buses :: Fed(SortByNum(info.buses), info.branches, b)
  }

  lemma FedStep(s: seq<Bus>, brs: seq<Branch>, br: Branch, b: Bus)
    requires Indexed(s, brs) && InRange(|s|, br.srcBus) && InRange(|s|, br.recBus)
    ensures Indexed(s, brs + [br])
    ensures Fed(s, brs + [br], b) == Fed(s, brs, b) + (if PyAt(s, br.srcBus) == b then {PyAt(s, br.recBus)} else {})
  {
    var t := brs + [br];
    assert forall p | 0 <= p < |brs| :: t[p] == brs[p];
    assert t[|brs|] == br;
    forall x ensures x in Fed(s, t, b) <==> x in Fed(s, brs, b) + (if PyAt(s, br.srcBus) == b then {PyAt(s, br.recBus)} else {}) {
      if x in Fed(s, t, b) {
        var p :| 0 <= p < |t| && PyAt(s, t[p].srcBus) == b && x == PyAt(s, t[p].recBus);
        if p < |brs| {
          assert x in Fed(s, brs, b);
        }
      }
      if x in Fed(s, brs, b) {
        var p :| 0 <= p < |brs| && PyAt(s, brs[p].srcBus) == b && x == PyAt(s, brs[p].recBus);
        assert PyAt(s, t[p].srcBus) == b && x == PyAt(s, t[p].recBus);
      }
      if PyAt(s, br.srcBus) == b && x == PyAt(s, br.recBus) {
        assert PyAt(s, t[|brs|].srcBus) == b && x == PyAt(s, t[|brs|].recBus);
      }
    }
  }

  /** On a well-numbered file with non-negative branch ends,
      `graph_dict[b]` is the set of buses numbered by the `Rec_bus` of the
      branches whose `Src_bus` is `b`'s number. */
  lemma GraphOfByNumber(info: Info, b: Bus, c: Bus)
    requires Numbered(info.buses) && b in info.buses
    requires forall p | 0 <= p < |info.branches| ::
      0 <= info.branches[p].srcBus < |info.buses| && 0 <= info.branches[p].recBus < |info.buses|
    ensures Indexed(SortByNum(info.buses), info.branches)
    ensures c in GraphOf(info)[b] <==>
      exists p | 0 <= p < |info.branches| :: info.branches[p].srcBus == b.num && c == SortByNum(info.buses)[info.branches[p].recBus]
  {
    var s := SortByNum(info.buses);
    SortByNumSorted(info.buses);
    NumberedPermutation(info.buses, s);
    assert b in multiset(s);
    var j :| 0 <= j < |s| && s[j] == b;
    SortedNumberedPosition(s, j);
    forall p | 0 <= p < |info.branches|
      ensures PyAt(s, info.branches[p].srcBus) == b <==> info.branches[p].srcBus == b.num
    {
      var i := info.branches[p].srcBus;
      SortedNumberedPosition(s, i);
      if i == b.num {
        assert i == j;
      }
    }
  }

  // ---------------------------------------------------------------------
  // The graph object

  /** Every child is itself a bus of the graph. */
  predicate Closed(g: map<Bus, set<Bus>>)
  {
    forall b | b in g :: g[b] <= g.Keys
  }

  /** The descendants of the buses of `C`. */
  function DescOfAll(g: map<Bus, set<Bus>>, C: set<Bus>): set<Bus>
  {
    set c, y | c in C && y in Desc(g, c) :: y
  }

  /** The depth-first recursion `_construct_successors` relies on. */
  lemma DescByChildren(g: map<Bus, set<Bus>>, v: Bus)
    requires v in g
    ensures Desc(g, v) == g[v] + DescOfAll(g, g[v])
  {
    forall x ensures x in Desc(g, v) <==> x in g[v] + DescOfAll(g, g[v]) {
      DescUnfold(g, v, x);
    }
  }

  lemma DescOfAllStep(g: map<Bus, set<Bus>>, C: set<Bus>, c: Bus)
    ensures DescOfAll(g, C + {c}) == DescOfAll(g, C) + Desc(g, c)
  {
  }

  class Graph {
    const info: Info
    /** Each bus and the buses directly downstream of it. */
    var graphDict: map<Bus, set<Bus>>
    /** Each bus and every bus downstream of it. */
    var successors: map<Bus, set<Bus>>

    /** Every stored `successors` entry is the bus's descendant set. */
    predicate SuccessorsSound()
      reads this
    {
      forall b | b in successors :: successors[b] == Desc(graphDict, b)
    }

    /** What `_construct_successors` needs: an acyclic graph closed under
        children, with a sound memo. */
    predicate Searchable()
      reads this
    {
      Acyclic(graphDict) && Closed(graphDict) && SuccessorsSound()
    }

    /** The state before `_make_graph` runs. */
    constructor (info: Info)
      ensures this.info == info && graphDict == map[] && successors == map[]
    {
      this.info := info;
      graphDict := map[];
      successors := map[];
    }

    /** `_construct_successors(bus)`: the children, and for each child its
        stored successor set or, when none is stored, the same search
        from the child. Neither map is changed. */
    method ConstructSuccessors(bus: Bus) returns (output: set<Bus>)
      requires Searchable() && bus in graphDict
      ensures output == Desc(graphDict, bus)
      decreases |Desc(graphDict, bus)|, 1
    {
      var children := graphDict[bus];
      output := children;
      var rest := children;
      while rest != {}
        invariant rest <= children
        invariant output == children + DescOfAll(graphDict, children - rest)
        decreases |rest|
      {
        var child := Pick(rest);
        output := AddSuccessors(bus, children - rest, child, output);
        assert (children - rest) + {child} == children - (rest - {child});
        rest := rest - {child};
      }
      assert children - rest == children;
      DescByChildren(graphDict, bus);
    }

    /** One child of that loop: its stored successor set, or the search
        from it, joins the output. */
    method AddSuccessors(bus: Bus, done: set<Bus>, child: Bus, output: set<Bus>) returns (output': set<Bus>)
      requires Searchable() && bus in graphDict && child in graphDict[bus]
      requires output == graphDict[bus] + DescOfAll(graphDict, done)
      ensures output' == graphDict[bus] + DescOfAll(graphDict, done + {child})
      decreases |Desc(graphDict, bus)|, 0
    {
      if child in successors {
        output' := output + successors[child];
      } else {
        DescShrinks(graphDict, bus, child);
        var sub := ConstructSuccessors(child);
        output' := output + sub;
      }
      DescOfAllStep(graphDict, done, child);
    }

    /** The `for bus in reversed(buses)` loop of `_make_graph`. */
    method FillSuccessors(s: seq<Bus>)
      requires Acyclic(graphDict) && Closed(graphDict) && forall p | 0 <= p < |s| :: s[p] in graphDict
      modifies this`successors
      ensures successors.Keys == Elems(s) && SuccessorsSound()
    {
      successors := map[];
      var j := |s|;
      while j > 0
        invariant 0 <= j <= |s|
        invariant successors.Keys == Elems(s[j..]) && SuccessorsSound()
      {
        j := j - 1;
        var out := ConstructSuccessors(s[j]);
        successors := successors[s[j] := out];
        assert s[j..] == [s[j]] + s[j + 1..];
      }
      assert s[j..] == s;
    }

    /** `_make_graph`: fails with `IndexError` when a branch end does not
        index the sorted bus list; otherwise `graph_dict` is `GraphOf(info)`
        and every bus has its descendant set in `successors`. A cyclic
        graph would recurse without end, so acyclicity is required. */
    method MakeGraph() returns (r: Result<(), Raised>)
      requires Indexed(SortByNum(info.buses), info.branches) ==> Acyclic(GraphOf(info))
      modifies this
      ensures r.Failure? <==> !Indexed(SortByNum(info.buses), info.branches)
      ensures r.Failure? ==> r.error == IndexError
      ensures r.Success? ==> graphDict == GraphOf(info)
      ensures r.Success? ==> successors.Keys == Elems(info.buses) && SuccessorsSound()
    {
      var s := SortByNum(info.buses);
      var fed := FeedMap(s, info.buses, info.branches);
      if fed.Failure? {
        return Failure(fed.error);
      }
      FeedMapIsGraphOf(info, fed.value);
      graphDict := fed.value;
      GraphOfClosed(info);
      SortedElems(info.buses);
      FillSuccessors(s);
      r := Success(());
    }
  }

  /** The `for branch in branches` loop of `_make_graph`, on a local copy
      of the map: `IndexError` at the first branch end outside the list,
      else every bus mapped to the buses its branches feed. */
  method FeedMap(s: seq<Bus>, buses: seq<Bus>, branches: seq<Branch>) returns (r: Result<map<Bus, set<Bus>>, Raised>)
    requires multiset(s) == multiset(buses)
    ensures r.Failure? <==> !Indexed(s, branches)
    ensures r.Failure? ==> r.error == IndexError
    ensures r.Success? ==> r.value.Keys == Elems(buses) && forall b | b in r.value :: r.value[b] == Fed(s, branches, b)
  {
    var gd := map b | b in buses :: {};
    var i := 0;
    while i < |branches|
      invariant i <= |branches| && Indexed(s, branches[..i])
      invariant gd.Keys == Elems(buses)
      invariant forall b | b in gd :: gd[b] == Fed(s, branches[..i], b)
    {
      var br := branches[i];
      if !InRange(|s|, br.srcBus) || !InRange(|s|, br.recBus) {
        return Failure(IndexError);
      }
      var src := PyAt(s, br.srcBus);
      var rec := PyAt(s, br.recBus);
      assert src in multiset(s);
      assert branches[..i + 1] == branches[..i] + [br];
      forall b | b in gd
        ensures (if b == src then gd[b] + {rec} else gd[b]) == Fed(s, branches[..i + 1], b)
      {
        FedStep(s, branches[..i], br, b);
      }
      FedStep(s, branches[..i], br, src);
      gd := gd[src := gd[src] + {rec}];
      i := i + 1;
    }
    assert branches[..i] == branches;
    return Success(gd);
  }

  lemma FeedMapIsGraphOf(info: Info, m: map<Bus, set<Bus>>)
    requires Indexed(SortByNum(info.buses), info.branches) && m.Keys == Elems(info.buses)
    requires forall b | b in m :: m[b] == Fed(SortByNum(info.buses), info.branches, b)
    ensures m == GraphOf(info)
  {
  }

  /** The sorted list holds exactly the buses of the file. */
  lemma SortedElems(buses: seq<Bus>)
    ensures Elems(SortByNum(buses)) == Elems(buses)
    ensures forall p | 0 <= p < |SortByNum(buses)| :: SortByNum(buses)[p] in buses
  {
    var s := SortByNum(buses);
    forall b ensures b in s <==> b in buses {
      assert b in s <==> b in multiset(s);
    }
  }

  /** Every bus a branch feeds is a bus of the file. */
  lemma GraphOfClosed(info: Info)
    requires Indexed(SortByNum(info.buses), info.branches)
    ensures Closed(GraphOf(info))
  {
    var s := SortByNum(info.buses);
    var g := GraphOf(info);
    SortedElems(info.buses);
    forall b, c | b in g && c in g[b] ensures c in g.Keys {
      var p :| 0 <= p < |info.branches| && PyAt(s, info.branches[p].srcBus) == b && c == PyAt(s, info.branches[p].recBus);
      assert c in s;
    }
  }

  /** Any element of a non-empty set: the set's iteration order is not modelled. */
  method Pick<K>(S: set<K>) returns (x: K)
    requires S != {}
    ensures x in S
  {
    x :| x in S;
  }

  /** `Graph(info)`: the object, or the error `_make_graph` raises. */
  method Build(info: Info) returns (r: Result<Graph, Raised>)
    requires Indexed(SortByNum(info.buses), info.branches) ==> Acyclic(GraphOf(info))
    ensures r.Failure? <==> !Indexed(SortByNum(info.buses), info.branches)
    ensures r.Success? ==> fresh(r.value) && r.value.info == info && r.value.graphDict == GraphOf(info)
    ensures r.Success? ==> r.value.successors.Keys == Elems(info.buses) && r.value.SuccessorsSound()
  {
    var g := new Graph(info);
    var made := g.MakeGraph();
    if made.Failure? {
      return Failure(made.error);
    }
    return Success(g);
  }
}
