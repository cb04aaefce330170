/** The subproblem right-hand sides of src/outdated/mip3.py: the global
    memo `_F_RHS` filled by `calculate_F_RHS` on the master's current,
    unrounded switch values, and emptied after every master round. */
module Mip3 {
  import opened Lists
  import opened Sums
  import opened Reach
  import opened Network
  import opened Outages
  import opened Subtrees
  import Util2

  /** `Local_Interruption = {v: G.index_node[v].theta for v in V}`. */
  function LocalInterruption(net: Network): (theta: map<int, real>)
    requires Consistent(net)
    ensures theta.Keys == Elems(net.vertices)
  {
    map v | v in net.vertices :: net.indexNode[v].theta
  }

  /** `Outgoing = {j: [k for k in V if (j, k) in A] for j in V}`. */
  function OutgoingTable(net: Network): (out: map<int, seq<int>>)
    ensures out.Keys == Elems(net.vertices)
    ensures forall j, k | j in out :: k in out[j] <==> k in net.vertices && (j, k) in net.edges
    ensures forall j | j in out :: out[j] == Heads(net.vertices, net.edges, j)
  {
    map j | j in net.vertices :: Heads(net.vertices, net.edges, j)
  }

  /** The two tables the function is handed are the graph's own outage
      rates and child lists, so its recursion is the downstream-outage
      recursion over the graph. */
  lemma TablesAreTheGraphs(net: Network)
    requires Valid(net)
    ensures LocalInterruption(net) == net.theta && OutgoingTable(net) == net.outgoing
  {
    ThetaTable(net);
    ChildTable(net);
  }

  lemma ThetaTable(net: Network)
    requires Consistent(net) && net.theta == ThetaOf(net.indexNode)
    ensures LocalInterruption(net) == net.theta
  {
  }

  lemma ChildTable(net: Network)
    requires net.outgoing.Keys == Elems(net.vertices)
    requires forall j | j in net.outgoing :: net.outgoing[j] == Heads(net.vertices, net.edges, j)
    ensures OutgoingTable(net) == net.outgoing
  {
  }

  /** On a 0/1 vector the value agrees with the membership form of
      src/sa.py over the list of switched arcs. */
  lemma AgreesWithSa(net: Network, XV: map<Arc, real>, placed: seq<Arc>, i: int, j: int)
    requires Ready(net) && j in net.vertices && ChildArcs(net) + {(i, j)} <= XV.Keys
    requires Binary(XV) && forall a | a in XV :: XV[a] == 1.0 <==> a in placed
    ensures Covers(net, XV) && Outage(net, XV, i, j) == FRhs(net, placed, i, j)
  {
    assert XV == Indicator(XV.Keys, placed);
    FRhsIsOutage(net, placed, XV.Keys, i, j);
  }

  /** The module's global `_F_RHS` over the graph's tables. */
  class FRhsMemo {
    const net: Network
    var fRhs: map<Arc, real>

    constructor(net: Network)
      ensures this.net == net && fRhs == map[]
    {
      this.net := net;
      fRhs := map[];
    }

    /** Every memoised value is the outage value of its arc under `XV`. */
    predicate Sound(XV: map<Arc, real>)
      reads this
    {
      Util2.SoundThetaMemo(net, XV, fRhs)
    }

    /** `calculate_F_RHS(i, j, XV, Theta, Outgoing)`: an arc in the memo is
        answered from it; otherwise `(1 - XV[i, j])` times `Theta[j]` plus
        the children's values is stored and returned. From a memo sound for
        `XV` the answer is the outage value of the arc, 0 when the arc is
        switched. */
    method CalculateFRhs(i: int, j: int, XV: map<Arc, real>) returns (r: real)
      requires Ready(net) && Covers(net, XV) && (i, j) in XV && j in net.vertices
      modifies this
      decreases |Desc(Children(net), j)|, 1
      ensures (i, j) in fRhs && r == fRhs[(i, j)]
      ensures old(fRhs).Keys <= fRhs.Keys
      ensures forall a | a in old(fRhs) :: fRhs[a] == old(fRhs)[a]
      ensures (i, j) in old(fRhs) ==> fRhs == old(fRhs)
      ensures old(Sound(XV)) ==> Sound(XV) && r == Outage(net, XV, i, j)
    {
      if (i, j) !in fRhs {
        var ks := net.outgoing[j];
        ghost var sound := Sound(XV);
        var total := 0.0;
        var t := 0;
        while t < |ks|
          invariant 0 <= t <= |ks|
          invariant (i, j) !in old(fRhs)
          invariant old(fRhs).Keys <= fRhs.Keys
          invariant forall a | a in old(fRhs) :: fRhs[a] == old(fRhs)[a]
          invariant sound ==> Sound(XV) && total == ChildOutage(net, XV, j, ks[..t])
        {
          total := AddChild(j, ks, t, total, XV);
          t := t + 1;
        }
        assert ks[..|ks|] == ks;
        var v := Mul(1.0 - XV[(i, j)], net.theta[j] + total);
        if sound {
          Util2.OutageStep(net, XV, i, j, total);
          Util2.SoundThetaMemoPut(net, XV, fRhs, (i, j), v);
        }
        fRhs := fRhs[(i, j) := v];
      }
      r := fRhs[(i, j)];
    }


    /** One step of the children loop: the value of the arc to the child
        `ks[t]` of `j` added to `total`. */
    method AddChild(j: int, ks: seq<int>, t: int, total: real, XV: map<Arc, real>) returns (total': real)
      requires Ready(net) && Covers(net, XV) && j in net.vertices && ks == net.outgoing[j] && 0 <= t < |ks|
      modifies this
      decreases |Desc(Children(net), j)|, 0
      ensures old(fRhs).Keys <= fRhs.Keys
      ensures forall a | a in old(fRhs) :: fRhs[a] == old(fRhs)[a]
      ensures old(Sound(XV)) && total == ChildOutage(net, XV, j, ks[..t]) ==>
        Sound(XV) && total' == ChildOutage(net, XV, j, ks[..t + 1])
    {
      var k := ks[t];
      ChildShrinks(net, j, k);
      var c := CalculateFRhs(j, k, XV);
      if old(Sound(XV)) && total == ChildOutage(net, XV, j, ks[..t]) {
        Util2.ChildOutageStep(net, XV, j, ks, t, total, c);
      }
      total' := total + c;
    }
    /** One arc of the round: `K[i, j].RHS = calculate_F_RHS(i, j, ...)`. */
    method SetRhs(XV: map<Arc, real>, rhs: map<Arc, real>, a: Arc) returns (rhs': map<Arc, real>)
      requires Sound(XV) && a in XV && a.1 in net.vertices && Util2.SoundThetaMemo(net, XV, rhs)
      modifies this
      ensures Sound(XV) && rhs' == rhs[a := Outage(net, XV, a.0, a.1)]
      ensures Util2.SoundThetaMemo(net, XV, rhs')
    {
      var r := CalculateFRhs(a.0, a.1, XV);
      Util2.SoundThetaMemoPut(net, XV, rhs, a, r);
      rhs' := rhs[a := r];
    }

    /** The arc loop of one master round: `K[i, j].RHS` is set to
        `calculate_F_RHS(i, j, XV, ...)` for every arc, then `_F_RHS` is
        reset. Starting from the empty memo every right-hand side is the
        outage value of its arc under this round's `XV`, and the next round
        starts from the empty memo again. */
    method RoundRhs(XV: map<Arc, real>) returns (rhs: map<Arc, real>)
      requires Ready(net) && Indexed(net, XV) && Covers(net, XV) && fRhs == map[]
      modifies this
      ensures rhs.Keys == Elems(net.edges) && Util2.SoundThetaMemo(net, XV, rhs)
      ensures fRhs == map[]
    {
      rhs := map[];
      var t := 0;
      while t < |net.edges|
        invariant 0 <= t <= |net.edges| && Sound(XV)
        invariant rhs.Keys == Elems(net.edges[..t]) && Util2.SoundThetaMemo(net, XV, rhs)
      {
        rhs := SetRhs(XV, rhs, net.edges[t]);
        ElemsPrefix(net.edges, t);
        t := t + 1;
      }
      assert net.edges[..|net.edges|] == net.edges;
      fRhs := map[];
    }
  }
}
