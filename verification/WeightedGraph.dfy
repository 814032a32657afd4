/** The weighted undirected multigraph the push loop walks: an edge table, and for
    every vertex the list of edge ids incident to it (scoring/app/local_push.py:26-54). */
module WeightedGraph {
  import opened RealSums

  datatype Edge = Edge(source: nat, target: nat, weight: real)

  /** One incident edge as seen from its vertex: the other end and the weight. */
  datatype Arc = Arc(to: nat, weight: real)

  datatype Graph = Graph(es: seq<Edge>, incident: seq<seq<nat>>) {
    function N(): nat { |incident| }

    /** Every listed edge touches its vertex, is listed at both ends and has positive weight. */
    ghost predicate Valid() {
      forall u, i {:trigger ValidAt(u, incident[u][i])} ::
        0 <= u < N() && 0 <= i < |incident[u]| ==> ValidAt(u, incident[u][i])
    }

    ghost predicate ValidAt(u: nat, eid: nat)
      requires u < N()
    {
      && eid < |es|
      && (es[eid].source == u || es[eid].target == u)
      && OtherEnd(eid, u) < N()
      && eid in incident[OtherEnd(eid, u)]
      && es[eid].weight > 0.0
    }

    function OtherEnd(eid: nat, u: nat): nat
      requires eid < |es|
    {
      if es[eid].source == u then es[eid].target else es[eid].source
    }

    /** The incident edges of u, in the order the graph lists them. */
    function Arcs(u: nat): (arcs: seq<Arc>)
      requires Valid() && u < N()
      ensures |arcs| == |incident[u]|
      ensures forall i :: 0 <= i < |arcs| ==> arcs[i].to < N() && arcs[i].weight > 0.0
    {
      assert forall i :: 0 <= i < |incident[u]| ==> ValidAt(u, incident[u][i]);
      seq(|incident[u]|, i requires 0 <= i < |incident[u]| =>
        Arc(OtherEnd(incident[u][i], u), es[incident[u][i]].weight))
    }

    lemma ArcAt(u: nat, i: nat)
      requires Valid() && u < N() && i < |incident[u]|
      ensures incident[u][i] < |es| && OtherEnd(incident[u][i], u) < N()
      ensures Arcs(u)[i] == Arc(OtherEnd(incident[u][i], u), es[incident[u][i]].weight)
    {
      assert ValidAt(u, incident[u][i]);
    }

    /** The weighted degree, with 1.0 standing in for a vertex without edges. */
    function Degree(u: nat): real
      requires Valid() && u < N()
    {
      var total := TotalWeight(Arcs(u));
      if total > 0.0 then total else 1.0
    }

    /** Being the other end of an edge is symmetric, so whoever is reached has an edge. */
    lemma ReachedHasEdges(u: nat, i: nat)
      requires Valid() && u < N() && i < |Arcs(u)|
      ensures |Arcs(Arcs(u)[i].to)| > 0
    {
      assert ValidAt(u, incident[u][i]);
    }

    lemma DegreePositive(u: nat)
      requires Valid() && u < N()
      ensures Degree(u) > 0.0
      ensures |Arcs(u)| > 0 ==> Degree(u) == TotalWeight(Arcs(u))
      ensures |Arcs(u)| == 0 ==> Degree(u) == 1.0
    {
      TotalPositive(Arcs(u));
    }
  }

  function TotalWeight(arcs: seq<Arc>): real {
    if arcs == [] then 0.0 else TotalWeight(arcs[..|arcs| - 1]) + arcs[|arcs| - 1].weight
  }

  lemma {:induction false} TotalPositive(arcs: seq<Arc>)
    requires forall i :: 0 <= i < |arcs| ==> arcs[i].weight > 0.0
    ensures arcs != [] ==> TotalWeight(arcs) > 0.0
    ensures TotalWeight(arcs) >= 0.0
  {
    if arcs != [] { TotalPositive(arcs[..|arcs| - 1]); }
  }

  /** The mean of f over the far ends of the arcs, weighted by w / d. */
  ghost function ArcMean(arcs: seq<Arc>, d: real, f: nat -> real): real
    requires d != 0.0
  {
    if arcs == [] then 0.0
    else ArcMean(arcs[..|arcs| - 1], d, f) + Share(Ratio(arcs[|arcs| - 1].weight, d), f(arcs[|arcs| - 1].to))
  }

  lemma {:induction false} ArcMeanOfConstant(arcs: seq<Arc>, d: real, f: nat -> real)
    requires d > 0.0
    requires forall i :: 0 <= i < |arcs| ==> f(arcs[i].to) == 1.0
    ensures Share(ArcMean(arcs, d, f), d) == TotalWeight(arcs)
  {
    if arcs != [] {
      var init, a := arcs[..|arcs| - 1], arcs[|arcs| - 1];
      assert forall i :: 0 <= i < |init| ==> init[i] == arcs[i];
      ArcMeanOfConstant(init, d, f);
      AddQuotient(ArcMean(init, d, f), a.weight, d);
      assert f(a.to) == 1.0;
    } else {
      assert Share(0.0, d) == 0.0;
    }
  }

  lemma AddQuotient(x: real, w: real, d: real)
    requires d > 0.0
    ensures Share(x + Share(Ratio(w, d), 1.0), d) == Share(x, d) + w
  {
    assert Ratio(w, d) * d == w;
    assert (x + Ratio(w, d)) * d == x * d + Ratio(w, d) * d;
  }
}
