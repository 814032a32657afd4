/** The push loop on the graphs that are built from the tables: their hub weights put a floor under
    every degree, so the work depends on the largest hub and not on the size of the graph
    (scoring/app/graph.py:63-113, scoring/app/local_push.py:23-97). */
module RingPush {
  import opened Options
  import opened RealSums
  import opened RingDetector
  import opened LocalPushSpec
  import opened LocalPushMass
  import opened LocalPushScope
  import B = RingGraph
  import W = WeightedGraph
  import RingAsOf

  // ----- a graph from its edge table -----

  /** The ids of the edges at vertex v among the first n, in order. */
  function IncidentTo(es: seq<W.Edge>, v: nat, n: nat): (ids: seq<nat>)
    requires n <= |es|
    ensures forall k: nat :: k in ids <==> k < n && (es[k].source == v || es[k].target == v)
  {
    if n == 0 then []
    else
      var last := es[n - 1];
      IncidentTo(es, v, n - 1) + (if last.source == v || last.target == v then [n - 1] else [])
  }

  /** Adding n vertices and then the edges. */
  function Listed(es: seq<W.Edge>, n: nat): W.Graph {
    W.Graph(es, seq(n, v requires 0 <= v < n => IncidentTo(es, v, |es|)))
  }

  /** Every edge joins two of the vertices and weighs at least `low`. */
  ghost predicate Weighty(es: seq<W.Edge>, n: nat, low: real) {
    low > 0.0 && forall k :: 0 <= k < |es| ==> es[k].source < n && es[k].target < n && es[k].weight >= low
  }

  lemma ListedIsValid(es: seq<W.Edge>, n: nat, low: real)
    requires Weighty(es, n, low)
    ensures Listed(es, n).Valid()
  {
    var g := Listed(es, n);
    forall u, i | 0 <= u < g.N() && 0 <= i < |g.incident[u]| ensures g.ValidAt(u, g.incident[u][i]) {
      var k := g.incident[u][i];
      assert k in IncidentTo(es, u, |es|);
      assert k in IncidentTo(es, g.OtherEnd(k, u), |es|);
    }
  }

  lemma {:induction false} TotalAtLeast(arcs: seq<W.Arc>, i: nat)
    requires i < |arcs| && forall j :: 0 <= j < |arcs| ==> arcs[j].weight > 0.0
    ensures W.TotalWeight(arcs) >= arcs[i].weight
  {
    if i < |arcs| - 1 {
      TotalAtLeast(arcs[..|arcs| - 1], i);
    } else {
      W.TotalPositive(arcs[..|arcs| - 1]);
    }
  }

  /** A vertex with an edge has at least that edge's weight as its degree. */
  lemma DegreeAtLeast(es: seq<W.Edge>, n: nat, low: real, v: nat, k: nat)
    requires Weighty(es, n, low) && v < n && k < |es| && (es[k].source == v || es[k].target == v)
    ensures Listed(es, n).Valid() && Listed(es, n).Degree(v) >= low
  {
    ListedIsValid(es, n, low);
    var g := Listed(es, n);
    assert k in IncidentTo(es, v, |es|);
    var i: nat :| i < |g.incident[v]| && g.incident[v][i] == k;
    g.ArcAt(v, i);
    g.DegreePositive(v);
    TotalAtLeast(g.Arcs(v), i);
  }

  // ----- the built graph, numbered -----

  /** The vertices in the order that gives them their numbers, each once. */
  ghost predicate Numbers(g: B.Graph, names: seq<Vertex>) {
    && (forall v :: v in names <==> IsVertex(g, v))
    && (forall i, j :: 0 <= i < j < |names| ==> names[i] != names[j])
  }

  predicate IsVertex(g: B.Graph, v: Vertex) {
    if v.ClaimVertex? then v.name in g.claims else v.name in g.entities
  }

  /** Every built graph can be numbered. */
  lemma NumbersExist(g: B.Graph) returns (names: seq<Vertex>)
    ensures Numbers(g, names)
  {
    names := Enumerated((set c | c in g.claims :: ClaimVertex(c)) + set e | e in g.entities :: EntityVertex(e));
  }

  lemma {:induction false} Enumerated(vs: set<Vertex>) returns (names: seq<Vertex>)
    ensures forall v :: v in names <==> v in vs
    ensures forall i, j :: 0 <= i < j < |names| ==> names[i] != names[j]
  {
    if vs == {} {
      names := [];
    } else {
      var v :| v in vs;
      var rest := Enumerated(vs - {v});
      names := rest + [v];
    }
  }

  function NumberOf(names: seq<Vertex>, v: Vertex): (i: nat)
    ensures v in names ==> i < |names| && names[i] == v
  {
    if names == [] || names[0] == v then 0 else 1 + NumberOf(names[1..], v)
  }

  function EdgeTable(g: B.Graph, names: seq<Vertex>): (es: seq<W.Edge>)
    requires |g.weights| == |g.edges|
    ensures |es| == |g.edges|
  {
    seq(|g.edges|, k requires 0 <= k < |g.edges| =>
      W.Edge(NumberOf(names, ClaimVertex(g.edges[k].claim)),
             NumberOf(names, EntityVertex(g.edges[k].entity)), g.weights[k]))
  }

  /** The built graph as the push loop sees it. */
  function Numbered(g: B.Graph, names: seq<Vertex>): W.Graph
    requires |g.weights| == |g.edges|
  {
    Listed(EdgeTable(g, names), |names|)
  }

  /** No entity has more edges than `most`. */
  ghost predicate HubsWithin(g: B.Graph, most: nat) {
    most > 0 && forall e :: e in g.degreeRaw ==> g.degreeRaw[e] <= most
  }

  lemma EveryEdge(log: nat -> real, g: B.Graph, names: seq<Vertex>, most: nat, k: nat)
    requires B.Logarithm(log) && B.Weighed(log, g) && B.Counted(g) && HubsWithin(g, most)
    requires Numbers(g, names) && g.claims == B.ClaimsIn(g.edges) && g.entities.Keys == B.EntitiesIn(g.edges)
    requires k < |g.edges|
    ensures var e := EdgeTable(g, names)[k];
      && e.source < |names| && names[e.source] == ClaimVertex(g.edges[k].claim)
      && e.target < |names| && names[e.target] == EntityVertex(g.edges[k].entity)
      && e.weight >= B.IdfWeight(log, most) > 0.0
  {
    hide B.IdfWeight;
    assert g.edges[k] in g.edges;
    assert IsVertex(g, ClaimVertex(g.edges[k].claim)) && IsVertex(g, EntityVertex(g.edges[k].entity));
    B.CountPositive(g.edges, k);
    RingAsOf.WeightsFall(log, g.degreeRaw[g.edges[k].entity], most);
  }

  /** The weight of an edge of the largest hub is a floor under every degree of a built graph. */
  lemma BuiltGraphFloor(log: nat -> real, db: B.Database, asOf: Option<int>, g: B.Graph, names: seq<Vertex>, most: nat)
    requires B.Logarithm(log) && B.IsGraphOf(log, db, asOf, g) && Numbers(g, names) && HubsWithin(g, most)
    ensures |g.weights| == |g.edges| && Numbered(g, names).Valid()
    ensures DegreeFloor(Numbered(g, names), B.IdfWeight(log, most))
  {
    RingAsOf.WeightsFall(log, most, most);
    hide B.IdfWeight, B.Edges, Numbers, NumberOf, B.Counted, HubsWithin;
    var low, es, n := B.IdfWeight(log, most), EdgeTable(g, names), |names|;
    forall k: nat | k < |es| ensures es[k].source < n && es[k].target < n && es[k].weight >= low {
      EveryEdge(log, g, names, most, k);
    }
    ListedIsValid(es, n, low);
    forall v: nat | v < n ensures Numbered(g, names).Degree(v) >= low {
      var k := EdgeAt(log, g, names, most, v);
      DegreeAtLeast(es, n, low, v, k);
    }
  }

  /** No vertex is alone: vertices come from the edges. */
  lemma EdgeAt(log: nat -> real, g: B.Graph, names: seq<Vertex>, most: nat, v: nat) returns (k: nat)
    requires B.Logarithm(log) && B.Weighed(log, g) && B.Counted(g) && HubsWithin(g, most)
    requires Numbers(g, names) && g.claims == B.ClaimsIn(g.edges) && g.entities.Keys == B.EntitiesIn(g.edges)
    requires v < |names|
    ensures k < |g.edges| && (EdgeTable(g, names)[k].source == v || EdgeTable(g, names)[k].target == v)
  {
    hide B.IdfWeight, EdgeTable, B.Counted, HubsWithin;
    assert names[v] in names && IsVertex(g, names[v]);
    var l :| l in g.edges && (names[v] == ClaimVertex(l.claim) || names[v] == EntityVertex(l.entity));
    k :| 0 <= k < |g.edges| && g.edges[k] == l;
    EveryEdge(log, g, names, most, k);
    var e := EdgeTable(g, names)[k];
    assert names[e.source] == names[v] || names[e.target] == names[v];
  }

  /** So a run on a built graph makes fewer than log(1 + most) / (alpha * epsilon) pushes, where no
      entity has more than `most` edges, and the cap is out of reach once it is at least that. */
  lemma BuiltGraphPushes(log: nat -> real, db: B.Database, asOf: Option<int>, g: B.Graph, names: seq<Vertex>, most: nat,
      c: Params, cap: nat)
    requires B.Logarithm(log) && B.IsGraphOf(log, db, asOf, g) && Numbers(g, names) && HubsWithin(g, most)
    requires |g.weights| == |g.edges| && c.g == Numbered(g, names) && c.seed < |names|
    requires 0.0 < c.alpha <= 1.0 && c.epsilon > 0.0
    ensures c.Valid() && |Elements(Final(c, cap).log)| <= |Final(c, cap).log|
    ensures (|Final(c, cap).log| as real) * (c.alpha * c.epsilon) < log(1 + most)
    ensures (cap as real) * (c.alpha * c.epsilon) >= log(1 + most) ==> Final(c, cap).queue == []
  {
    BuiltGraphFloor(log, db, asOf, g, names, most);
    assert c.g.N() == |names|;
    hide B.IsGraphOf, Numbers, HubsWithin, Numbered, Final, DegreeFloor;
    PushesOnFloor(log, c, cap, most);
  }

  lemma PushesOnFloor(log: nat -> real, c: Params, cap: nat, most: nat)
    requires B.Logarithm(log) && most > 0 && Sensible(c) && c.alpha > 0.0 && c.epsilon > 0.0
    requires DegreeFloor(c.g, B.IdfWeight(log, most))
    ensures |Elements(Final(c, cap).log)| <= |Final(c, cap).log|
    ensures (|Final(c, cap).log| as real) * (c.alpha * c.epsilon) < log(1 + most)
    ensures (cap as real) * (c.alpha * c.epsilon) >= log(1 + most) ==> Final(c, cap).queue == []
  {
    hide Final, DegreeFloor;
    PushCountOnFloor(c, cap, B.IdfWeight(log, most));
    DistinctAtMostLength(Final(c, cap).log);
    BelowQuotient(0.0, c.alpha, c.epsilon);
    PerUnit(|Final(c, cap).log| as real, c.alpha * c.epsilon, log(1 + most));
    RingAsOf.ScaleKeepsOrder(cap as real, |Final(c, cap).log| as real, c.alpha * c.epsilon);
  }

  lemma PerUnit(x: real, ae: real, l: real)
    requires ae > 0.0 && l > 0.0 && x * (1.0 / l) < 1.0 / ae
    ensures x * ae < l
  {
    var p, q := 1.0 / l, 1.0 / ae;
    assert p * l == 1.0 && q * ae == 1.0;
    RingAsOf.ScaleKeepsOrder(x * p, q, ae);
    RingAsOf.ScaleKeepsOrder(x * p * ae, 1.0, l);
    assert x * p * ae * l == x * ae * (p * l);
  }
}
