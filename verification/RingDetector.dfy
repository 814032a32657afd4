/** Pruning, ring components, two-hop claims and the combination of the rungs
    (scoring/app/detector.py:46-74, 166-213, scoring/app/features.py:73-91, 129-154). */
module RingDetector {
  import opened Options
  import opened RingGraph

  type Thresholds = map<string, int>

  const DEFAULT_MIN_RING_SIZE: int := 3
  const DEFAULT_LEIDEN_RESOLUTION: real := 1.2
  const FALLBACK_DEGREE_THRESHOLD: int := 50
  const DEFAULT_DEGREE_THRESHOLDS: Thresholds := map["PHONE" := 50, "ADDRESS" := 1, "SHOP" := 50]

  function Threshold(limits: Thresholds, entityType: string): int {
    if entityType in limits then limits[entityType] else FALLBACK_DEGREE_THRESHOLD
  }

  /** The limits of the default detector: an address may have one claim, any other entity fifty. */
  lemma PrunedExactly(g: Graph, e: string)
    requires e in g.entities
    ensures Pruned(g, DEFAULT_DEGREE_THRESHOLDS, e) <==>
      |set k | 0 <= k < |g.edges| && g.edges[k].entity == e| > (if g.entities[e].entityType == "ADDRESS" then 1 else 50)
  {
    EdgeCountExactly(g.edges, e);
  }

  /** Any other limits: the type's own where there is one, and fifty where there is none. */
  lemma PrunedWithin(g: Graph, limits: Thresholds, e: string)
    requires e in g.entities
    ensures var t := g.entities[e].entityType;
      Pruned(g, limits, e) <==>
        |set k | 0 <= k < |g.edges| && g.edges[k].entity == e| > (if t in limits then limits[t] else 50)
  {
    EdgeCountExactly(g.edges, e);
  }

  // ----- rung 1 -----

  datatype Vertex = ClaimVertex(name: string) | EntityVertex(name: string)

  /** Pruning deletes an entity whose degree in the graph is above its type's threshold. */
  predicate Pruned(g: Graph, limits: Thresholds, e: string) {
    e in g.entities && EdgeCount(g.edges, e) > Threshold(limits, g.entities[e].entityType)
  }

  /** The vertices left after pruning. */
  predicate Remains(g: Graph, limits: Thresholds, v: Vertex) {
    match v
    case ClaimVertex(c) => c in g.claims
    case EntityVertex(e) => e in g.entities && !Pruned(g, limits, e)
  }

  predicate Adjacent(g: Graph, limits: Thresholds, u: Vertex, v: Vertex) {
    && Remains(g, limits, u) && Remains(g, limits, v)
    && ((u.ClaimVertex? && v.EntityVertex? && Edge(u.name, v.name) in g.edges)
        || (u.EntityVertex? && v.ClaimVertex? && Edge(v.name, u.name) in g.edges))
  }

  predicate Walk(g: Graph, limits: Thresholds, path: seq<Vertex>) {
    && path != [] && Remains(g, limits, path[0])
    && forall k :: 0 <= k < |path| - 1 ==> Adjacent(g, limits, path[k], path[k + 1])
  }

  ghost predicate Connected(g: Graph, limits: Thresholds, u: Vertex, v: Vertex) {
    exists path :: Walk(g, limits, path) && path[0] == u && path[|path| - 1] == v
  }

  predicate In(components: seq<set<Vertex>>, i: nat, v: Vertex) {
    i < |components| && v in components[i]
  }

  /** The connected components of the pruned graph, in any order. */
  ghost predicate IsComponents(g: Graph, limits: Thresholds, components: seq<set<Vertex>>) {
    && (forall v :: Remains(g, limits, v) ==> exists i: nat :: In(components, i, v))
    && (forall i: nat, v :: In(components, i, v) ==> Remains(g, limits, v))
    && (forall i: nat, j: nat, v :: In(components, i, v) && In(components, j, v) ==> i == j)
    && (forall i: nat, u, v :: In(components, i, u) && Remains(g, limits, v) ==>
          (In(components, i, v) <==> Connected(g, limits, u, v)))
  }

  function ClaimMembers(component: set<Vertex>): set<string> {
    set v | v in component && v.ClaimVertex? :: v.name
  }

  predicate IsRing(components: seq<set<Vertex>>, minSize: int, i: nat) {
    i < |components| && |ClaimMembers(components[i])| >= minSize
  }

  lemma MembersAreIn(components: seq<set<Vertex>>, minSize: int, i: nat)
    requires i < |components|
    ensures forall c :: c in ClaimMembers(components[i]) <==> In(components, i, ClaimVertex(c))
    ensures IsRing(components, minSize, i) <==> |ClaimMembers(components[i])| >= minSize
  {
    forall c ensures c in ClaimMembers(components[i]) <==> In(components, i, ClaimVertex(c)) {
      assert ClaimVertex(c).ClaimVertex?;
    }
  }

  /** The ring map: a claim has ring id i when it is in component i and that is a ring. */
  ghost predicate IsRingMap(components: seq<set<Vertex>>, minSize: int, rings: map<string, nat>) {
    && (forall c :: c in rings ==> In(components, rings[c], ClaimVertex(c)) && IsRing(components, minSize, rings[c]))
    && (forall c, i: nat :: In(components, i, ClaimVertex(c)) && IsRing(components, minSize, i) ==> c in rings)
  }

  /** The components that are rings: they have enough claims. The i-th gives its claims ring id i. */
  method Rung1Components(g: Graph, components: seq<set<Vertex>>,
      limits: Thresholds := DEFAULT_DEGREE_THRESHOLDS, minSize: int := DEFAULT_MIN_RING_SIZE)
    returns (result: map<string, nat>)
    requires IsComponents(g, limits, components)
    ensures IsRingMap(components, minSize, result)
  {
    hide IsComponents, ClaimMembers, IsRing;
    result := map[];
    for i := 0 to |components|
      invariant forall c :: c in result ==>
        result[c] < i && In(components, result[c], ClaimVertex(c)) && IsRing(components, minSize, result[c])
      invariant forall c, j: nat ::
        j < i && In(components, j, ClaimVertex(c)) && IsRing(components, minSize, j) ==> c in result
    {
      var members := ClaimMembers(components[i]);
      MembersAreIn(components, minSize, i);
      if |members| >= minSize {
        result := result + map c | c in members :: i;
      }
    }
  }

  function RingClaims(rings: map<string, nat>, id: nat): set<string> {
    set c | c in rings && rings[c] == id
  }

  /** A claim's ring is the whole of its component. */
  lemma RingIsComponent(g: Graph, limits: Thresholds, components: seq<set<Vertex>>, minSize: int,
      rings: map<string, nat>, c: string)
    requires IsComponents(g, limits, components) && IsRingMap(components, minSize, rings) && c in rings
    ensures RingClaims(rings, rings[c]) == ClaimMembers(components[rings[c]])
  {
    hide Connected, Remains;
    var i := rings[c];
    forall d ensures d in RingClaims(rings, i) <==> d in ClaimMembers(components[i]) {
      if d in ClaimMembers(components[i]) {
        assert In(components, i, ClaimVertex(d));
        assert In(components, rings[d], ClaimVertex(d));
      }
    }
  }

  /** Two ring claims are in the same ring exactly when a walk through kept entities joins them. */
  lemma SameRing(g: Graph, limits: Thresholds, components: seq<set<Vertex>>, minSize: int,
      rings: map<string, nat>, c: string, d: string)
    requires IsComponents(g, limits, components) && IsRingMap(components, minSize, rings) && c in rings && d in rings
    ensures rings[c] == rings[d] <==> Connected(g, limits, ClaimVertex(c), ClaimVertex(d))
  {
    hide Connected, Remains, IsRing;
    assert In(components, rings[c], ClaimVertex(c)) && In(components, rings[d], ClaimVertex(d));
    assert Remains(g, limits, ClaimVertex(d));
    assert In(components, rings[c], ClaimVertex(d)) <==> Connected(g, limits, ClaimVertex(c), ClaimVertex(d));
  }

  // ----- two-hop claims -----

  /** Another claim reached through an entity the walk does not skip. */
  ghost predicate TwoHop(g: Graph, c: string, d: string) {
    d != c && exists e :: Edge(c, e) in g.edges && Edge(d, e) in g.edges && Walked(g, e)
  }

  predicate Walked(g: Graph, e: string) {
    e in g.entities && e in g.degreeRaw
    && g.degreeRaw[e] <= Threshold(DEFAULT_DEGREE_THRESHOLDS, g.entities[e].entityType)
  }

  method TwoHopClaims(g: Graph, c: string) returns (found: set<string>)
    requires Counted(g) && g.entities.Keys == EntitiesIn(g.edges)
    ensures forall d :: d in found <==> TwoHop(g, c, d)
  {
    found := {};
    for k := 0 to |g.edges|
      invariant forall d :: d in found <==>
        exists j :: 0 <= j < k && g.edges[j].claim == c && Walked(g, g.edges[j].entity)
                    && Edge(d, g.edges[j].entity) in g.edges
    {
      var e := g.edges[k].entity;
      if g.edges[k].claim == c {
        if g.degreeRaw[e] > Threshold(DEFAULT_DEGREE_THRESHOLDS, g.entities[e].entityType) { continue; }
        found := found + set l | l in g.edges && l.entity == e :: l.claim;
      }
    }
    found := found - {c};
  }

  /** The size a claim's feature row gets: 1 outside of every ring. */
  function ComponentSize(rings: map<string, nat>, c: string): nat {
    if c in rings then |RingClaims(rings, rings[c])| else 1
  }

  /** The parts of a built graph the detector and the features share. */
  ghost predicate WellBuilt(g: Graph) {
    g.claims == ClaimsIn(g.edges) && g.entities.Keys == EntitiesIn(g.edges) && Counted(g)
  }

  /** The two modules skip the same entities: the stored degree is the one in the graph. */
  lemma PruningAgrees(g: Graph, e: string)
    requires WellBuilt(g) && e in g.entities
    ensures Walked(g, e) <==> Remains(g, DEFAULT_DEGREE_THRESHOLDS, EntityVertex(e))
  {
    hide EdgeCount;
  }

  /** A two-hop claim is joined to the claim in the pruned graph. */
  lemma TwoHopConnected(g: Graph, c: string, d: string)
    requires WellBuilt(g) && TwoHop(g, c, d)
    ensures Remains(g, DEFAULT_DEGREE_THRESHOLDS, ClaimVertex(c))
    ensures Remains(g, DEFAULT_DEGREE_THRESHOLDS, ClaimVertex(d))
    ensures Connected(g, DEFAULT_DEGREE_THRESHOLDS, ClaimVertex(c), ClaimVertex(d))
  {
    hide EdgeCount;
    var e :| Edge(c, e) in g.edges && Edge(d, e) in g.edges && Walked(g, e);
    PruningAgrees(g, e);
    assert Edge(c, e).claim in g.claims && Edge(d, e).claim in g.claims;
    var path := [ClaimVertex(c), EntityVertex(e), ClaimVertex(d)];
    assert Walk(g, DEFAULT_DEGREE_THRESHOLDS, path);
  }

  /** Two-hop claims lie in the claim's own component. So two of them make it a ring, and the size
      feature exceeds the two-hop count exactly when the claim is in a ring or has none. */
  lemma TwoHopInOwnComponent(log: nat -> real, db: Database, asOf: Option<int>, g: Graph,
      components: seq<set<Vertex>>, rings: map<string, nat>, c: string, found: set<string>)
    requires Logarithm(log) && IsGraphOf(log, db, asOf, g)
    requires IsComponents(g, DEFAULT_DEGREE_THRESHOLDS, components)
    requires IsRingMap(components, DEFAULT_MIN_RING_SIZE, rings) && c in g.claims
    requires forall d :: d in found <==> TwoHop(g, c, d)
    ensures exists i: nat ::
      In(components, i, ClaimVertex(c)) && forall d :: d in found ==> In(components, i, ClaimVertex(d))
    ensures |found| >= 2 ==> c in rings
    ensures ComponentSize(rings, c) >= |found| + 1 <==> c in rings || found == {}
  {
    assert WellBuilt(g);
    hide Connected, Walk, TwoHop, Counted, WellBuilt, IsGraphOf;
    assert Remains(g, DEFAULT_DEGREE_THRESHOLDS, ClaimVertex(c));
    var i: nat :| In(components, i, ClaimVertex(c));
    forall d | d in found ensures In(components, i, ClaimVertex(d)) {
      TwoHopConnected(g, c, d);
    }
    var members := ClaimMembers(components[i]);
    forall d | d in found + {c} ensures d in members {
      assert In(components, i, ClaimVertex(d));
    }
    NotOwnTwoHop(g, c);
    assert c !in found;
    Larger(found + {c}, members);
    assert |found + {c}| == |found| + 1;
    assert |found| >= 2 ==> IsRing(components, DEFAULT_MIN_RING_SIZE, i);
    if c in rings {
      RingIsComponent(g, DEFAULT_DEGREE_THRESHOLDS, components, DEFAULT_MIN_RING_SIZE, rings, c);
      assert In(components, rings[c], ClaimVertex(c));
    }
  }

  lemma NotOwnTwoHop(g: Graph, c: string)
    ensures !TwoHop(g, c, c)
  {
  }

  lemma {:induction false} Larger(a: set<string>, b: set<string>)
    requires a <= b
    ensures |a| <= |b|
  {
    if a != {} {
      var x :| x in a;
      Larger(a - {x}, b - {x});
    }
  }

  /** An address never joins two claims: its threshold is 1. */
  lemma AddressJoinsNobody(g: Graph, e: string, c: string, d: string)
    requires WellBuilt(g) && e in g.entities && g.entities[e].entityType == "ADDRESS"
    requires Edge(c, e) in g.edges && Edge(d, e) in g.edges && c != d
    ensures Pruned(g, DEFAULT_DEGREE_THRESHOLDS, e)
  {
    var i :| 0 <= i < |g.edges| && g.edges[i] == Edge(c, e);
    var j :| 0 <= j < |g.edges| && g.edges[j] == Edge(d, e);
    if i < j { CountTwo(g.edges, i, j); } else { CountTwo(g.edges, j, i); }
  }

  lemma {:induction false} CountTwo(edges: seq<Edge>, i: nat, j: nat)
    requires i < j < |edges| && edges[i].entity == edges[j].entity
    ensures EdgeCount(edges, edges[i].entity) >= 2
  {
    var init := edges[..|edges| - 1];
    if j < |edges| - 1 {
      CountTwo(init, i, j);
    } else {
      CountPositive(init, i);
    }
  }

  // ----- combining the rungs -----

  datatype RingId = KCore(component: nat) | Leiden(community: nat)

  datatype Verdict = Verdict(fraudScore: real, rung: string, ringId: Option<RingId>, community: set<string>)

  const FLAG_AT: real := 0.75
  const K_CORE_SCORE: real := 0.9
  const PPR_FLOOR: real := 0.05

  function KCoreVerdict(rings: map<string, nat>, c: string): Verdict
    requires c in rings
  {
    Verdict(K_CORE_SCORE, "k_core", Some(KCore(rings[c])), RingClaims(rings, rings[c]))
  }

  /** The claims to restart the propagation from, as the feature extractor selects them. */
  function ContextSeeds(rings: map<string, nat>, rung2: map<string, Verdict>): set<string> {
    rings.Keys + set c | c in rung2 && rung2[c].fraudScore >= 0.75
  }

  /** The verdict of a ring: its id and all of its claims, at a fixed score. */
  predicate IsRingVerdict(rings: map<string, nat>, c: string, v: Verdict)
    requires c in rings
  {
    v == Verdict(0.9, "k_core", Some(KCore(rings[c])), set d | d in rings && rings[d] == rings[c])
  }

  /** A claim's verdict from the first two rungs: of the two, the one with the higher score. */
  ghost predicate Strongest(rings: map<string, nat>, rung2: map<string, Verdict>, c: string, v: Verdict) {
    && ((c in rings && IsRingVerdict(rings, c, v)) || (c in rung2 && v == rung2[c]))
    && (c in rings ==> 0.9 <= v.fraudScore)
    && (c in rung2 ==> rung2[c].fraudScore <= v.fraudScore)
    && (c in rings && v.fraudScore == 0.9 ==> IsRingVerdict(rings, c, v))
  }

  /** The combined verdicts. `leiden` is the community detection, given its resolution and minimum
      size, and `propagate` the propagation of scores from a set of seeds to the other claims; both
      only speak of the graph's claims. */
  method Detect(g: Graph, components: seq<set<Vertex>>, leiden: (real, int) -> map<string, Verdict>,
      propagate: set<string> -> map<string, real>, round: real -> real,
      limits: Thresholds := DEFAULT_DEGREE_THRESHOLDS, resolution: real := DEFAULT_LEIDEN_RESOLUTION,
      minSize: int := DEFAULT_MIN_RING_SIZE)
    returns (verdicts: map<string, Verdict>, ghost rings: map<string, nat>, ghost seeds: set<string>)
    requires IsComponents(g, limits, components)
    requires forall x, n :: leiden(x, n).Keys <= g.claims
    requires forall s :: propagate(s).Keys <= g.claims
    ensures IsRingMap(components, minSize, rings)
    ensures verdicts.Keys == g.claims
    ensures seeds == ContextSeeds(rings, leiden(resolution, minSize))
    ensures forall c :: c in rings || c in leiden(resolution, minSize) ==>
      c in verdicts && Strongest(rings, leiden(resolution, minSize), c, verdicts[c])
    ensures forall c :: c in g.claims && c !in rings && c !in leiden(resolution, minSize) ==>
      verdicts[c] == (if c in propagate(seeds) && propagate(seeds)[c] > 0.05
                      then Verdict(round(propagate(seeds)[c]), "ppr", None, {})
                      else Verdict(0.0, "none", None, {}))
  {
    hide Strongest, Connected, IsRing;
    var rung1 := Rung1Components(g, components, limits, minSize);
    var rung2 := leiden(resolution, minSize);
    rings := rung1;
    forall c | c in rung1 ensures c in g.claims {
      assert Remains(g, limits, ClaimVertex(c));
    }
    var first := CombineRungs(g, rung1, rung2);
    var flagged := set c | c in first && first[c].fraudScore >= FLAG_AT;
    seeds := flagged;
    SeedsAgree(rung1, rung2, first);
    var scores := propagate(flagged);
    hide IsComponents, IsRingMap;
    verdicts := first + map c | c in g.claims - first.Keys ::
      if c in scores && scores[c] > PPR_FLOOR then Verdict(round(scores[c]), "ppr", None, {})
      else Verdict(0.0, "none", None, {});
  }

  /** The loop over the claims that keeps the best candidate of the first two rungs. */
  method CombineRungs(g: Graph, rings: map<string, nat>, rung2: map<string, Verdict>)
    returns (verdicts: map<string, Verdict>)
    requires rings.Keys <= g.claims && rung2.Keys <= g.claims
    ensures forall c :: c in verdicts <==> c in rings || c in rung2
    ensures forall c :: c in verdicts ==> Strongest(rings, rung2, c, verdicts[c])
  {
    verdicts := map[];
    var todo := g.claims;
    while todo != {}
      invariant todo <= g.claims
      invariant forall c :: c in verdicts <==> c in g.claims && c !in todo && (c in rings || c in rung2)
      invariant forall c :: c in verdicts ==> Strongest(rings, rung2, c, verdicts[c])
      decreases |todo|
    {
      hide Strongest;
      var c :| c in todo;
      if c in rings || c in rung2 {
        var best := Best(rings, rung2, c);
        verdicts := verdicts[c := best];
      }
      todo := todo - {c};
    }
  }

  /** The first candidate with the highest score. */
  method Best(rings: map<string, nat>, rung2: map<string, Verdict>, c: string) returns (best: Verdict)
    requires c in rings || c in rung2
    ensures Strongest(rings, rung2, c, best)
  {
    if c in rings && (c in rung2 ==> rung2[c].fraudScore <= K_CORE_SCORE) {
      best := KCoreVerdict(rings, c);
    } else {
      best := rung2[c];
    }
  }

  /** The detector's seeds, taken from its combined verdicts, are the feature extractor's. */
  lemma SeedsAgree(rings: map<string, nat>, rung2: map<string, Verdict>, verdicts: map<string, Verdict>)
    requires forall c :: c in verdicts <==> c in rings || c in rung2
    requires forall c :: c in verdicts ==> Strongest(rings, rung2, c, verdicts[c])
    ensures (set c | c in verdicts && verdicts[c].fraudScore >= FLAG_AT) == ContextSeeds(rings, rung2)
  {
    forall c | c in verdicts
      ensures verdicts[c].fraudScore >= FLAG_AT <==> c in rings || (c in rung2 && rung2[c].fraudScore >= FLAG_AT)
    {
      assert Strongest(rings, rung2, c, verdicts[c]);
    }
  }

  // ----- the feature extractor's side -----

  /** What the detector and the feature extractor both rest on: the rings of the default detector. */
  ghost predicate DefaultRings(components: seq<set<Vertex>>, rings: map<string, nat>) {
    && (forall c :: c in rings ==> In(components, rings[c], ClaimVertex(c)))
    && (forall c, i: nat :: In(components, i, ClaimVertex(c)) ==>
          (c in rings <==> |set v | v in components[i] && v.ClaimVertex? :: v.name| >= 3))
  }

  lemma DefaultRingMap(g: Graph, components: seq<set<Vertex>>, rings: map<string, nat>)
    requires IsComponents(g, DEFAULT_DEGREE_THRESHOLDS, components)
    requires IsRingMap(components, DEFAULT_MIN_RING_SIZE, rings)
    ensures DefaultRings(components, rings)
  {
    hide Connected, Remains;
    forall c, i: nat | In(components, i, ClaimVertex(c))
      ensures c in rings <==> |set v | v in components[i] && v.ClaimVertex? :: v.name| >= 3
    {
      assert ClaimMembers(components[i]) == set v | v in components[i] && v.ClaimVertex? :: v.name;
      assert IsRing(components, 3, i) <==> |ClaimMembers(components[i])| >= 3;
      if c in rings { assert In(components, rings[c], ClaimVertex(c)); }
    }
  }

  /** The graph-wide part of the features, with the detector's default settings throughout: the ring
      of a claim, the size of each ring, and the propagation from the claims that either rung flags. */
  method BuildFeatureContext(g: Graph, components: seq<set<Vertex>>, leiden: (real, int) -> map<string, Verdict>,
      propagate: set<string> -> map<string, real>)
    returns (componentOf: map<string, nat>, componentSize: map<nat, nat>,
             leidenVerdicts: map<string, Verdict>, pprScores: map<string, real>)
    requires IsComponents(g, DEFAULT_DEGREE_THRESHOLDS, components)
    ensures DefaultRings(components, componentOf) && IsRingMap(components, DEFAULT_MIN_RING_SIZE, componentOf)
    ensures componentSize.Keys == componentOf.Values
    ensures forall id :: id in componentSize ==> componentSize[id] == |set c | c in componentOf && componentOf[c] == id|
    ensures leidenVerdicts == leiden(1.2, 3)
    ensures pprScores ==
      propagate(componentOf.Keys + set c | c in leidenVerdicts && leidenVerdicts[c].fraudScore >= 0.75)
  {
    hide Connected, Remains, IsComponents, IsRing;
    componentOf := Rung1Components(g, components);
    DefaultRingMap(g, components, componentOf);
    componentSize := map id | id in componentOf.Values :: |RingClaims(componentOf, id)|;
    leidenVerdicts := leiden(DEFAULT_LEIDEN_RESOLUTION, DEFAULT_MIN_RING_SIZE);
    pprScores := propagate(componentOf.Keys + set c | c in leidenVerdicts && leidenVerdicts[c].fraudScore >= 0.75);
  }

  /** A graph's components have one ring map for each minimum size. */
  lemma RingMapUnique(g: Graph, limits: Thresholds, components: seq<set<Vertex>>, minSize: int,
      a: map<string, nat>, b: map<string, nat>)
    requires IsComponents(g, limits, components)
    requires IsRingMap(components, minSize, a) && IsRingMap(components, minSize, b)
    ensures a == b
  {
    hide Connected, Remains, IsRing;
    forall c ensures c in a <==> c in b {
      if c in a { assert In(components, a[c], ClaimVertex(c)); }
      if c in b { assert In(components, b[c], ClaimVertex(c)); }
    }
    forall c | c in a ensures a[c] == b[c] {
      assert In(components, a[c], ClaimVertex(c)) && In(components, b[c], ClaimVertex(c));
    }
  }

  /** The rule-based detector and the feature extractor, each with its defaults, propagate from the
      same claims, so the same scores reach both. */
  method BothPropagateAlike(g: Graph, components: seq<set<Vertex>>, leiden: (real, int) -> map<string, Verdict>,
      propagate: set<string> -> map<string, real>, round: real -> real)
    returns (verdicts: map<string, Verdict>, pprScores: map<string, real>)
    requires IsComponents(g, DEFAULT_DEGREE_THRESHOLDS, components)
    requires forall x, n :: leiden(x, n).Keys <= g.claims
    requires forall s :: propagate(s).Keys <= g.claims
    ensures verdicts.Keys == g.claims
    ensures forall c :: c in g.claims && verdicts[c].rung == "ppr" && c !in leiden(1.2, 3) ==>
      c in pprScores && pprScores[c] > 0.05 && verdicts[c].fraudScore == round(pprScores[c])
  {
    hide IsComponents, IsRingMap, Strongest, DefaultRings;
    var found, rings, seeds := Detect(g, components, leiden, propagate, round);
    var componentOf, componentSize, leidenVerdicts, scores := BuildFeatureContext(g, components, leiden, propagate);
    RingMapUnique(g, DEFAULT_DEGREE_THRESHOLDS, components, DEFAULT_MIN_RING_SIZE, rings, componentOf);
    assert seeds == componentOf.Keys + set c | c in leidenVerdicts && leidenVerdicts[c].fraudScore >= 0.75;
    verdicts, pprScores := found, scores;
    forall c | c in rings && c !in leiden(1.2, 3) ensures verdicts[c].rung == "k_core" {
      RingVerdictRung(rings, leiden(1.2, 3), c, verdicts[c]);
    }
  }

  lemma RingVerdictRung(rings: map<string, nat>, rung2: map<string, Verdict>, c: string, v: Verdict)
    requires Strongest(rings, rung2, c, v) && c !in rung2
    ensures v.rung == "k_core"
  {
  }
}
