/** Building the claim-entity graph as of a date (scoring/app/graph.py:35-113). */
module RingGraph {
  import opened Options

  /** The tables the graph is read from. Dates are day numbers. */
  datatype EntityMeta = EntityMeta(entityType: string, canonical: string)
  datatype ClaimAttr = ClaimAttr(amount: real, date: int)
  datatype Edge = Edge(claim: string, entity: string)
  datatype Database = Database(links: seq<Edge>, entities: map<string, EntityMeta>, claims: map<string, ClaimAttr>)

  datatype LinkRow = LinkRow(claim: string, entity: string, meta: EntityMeta)

  /** Edges run parallel to weights. Vertices are named by kind and id. */
  datatype Graph = Graph(
    claims: set<string>,
    entities: map<string, EntityMeta>,
    degreeRaw: map<string, nat>,
    attrs: map<string, ClaimAttr>,
    edges: seq<Edge>,
    weights: seq<real>)

  /** The cutoff test of both queries. */
  predicate Visible(db: Database, c: string, asOf: Option<int>) {
    c in db.claims && (asOf.Some? ==> db.claims[c].date <= asOf.value)
  }

  predicate Selected(db: Database, l: Edge, asOf: Option<int>) {
    l.entity in db.entities && Visible(db, l.claim, asOf)
  }

  /** The joined link query. */
  function FetchLinks(db: Database, links: seq<Edge>, asOf: Option<int>): (rows: seq<LinkRow>)
    ensures forall r :: r in rows ==> r.entity in db.entities && r.meta == db.entities[r.entity] && r.claim in db.claims
  {
    if links == [] then []
    else if Selected(db, links[0], asOf)
    then [LinkRow(links[0].claim, links[0].entity, db.entities[links[0].entity])] + FetchLinks(db, links[1..], asOf)
    else FetchLinks(db, links[1..], asOf)
  }

  function FetchAttrs(db: Database, asOf: Option<int>): map<string, ClaimAttr> {
    map c | c in db.claims && Visible(db, c, asOf) :: db.claims[c]
  }

  /** How many edges touch an entity. */
  function EdgeCount(edges: seq<Edge>, e: string): nat {
    if edges == [] then 0
    else EdgeCount(edges[..|edges| - 1], e) + (if edges[|edges| - 1].entity == e then 1 else 0)
  }

  lemma {:induction false} CountPositive(edges: seq<Edge>, k: nat)
    requires k < |edges|
    ensures EdgeCount(edges, edges[k].entity) > 0
  {
    if k < |edges| - 1 {
      assert edges[..|edges| - 1][k] == edges[k];
      CountPositive(edges[..|edges| - 1], k);
    }
  }

  /** The count is that of the edges listed at the entity. */
  lemma {:induction false} EdgeCountExactly(edges: seq<Edge>, e: string)
    ensures EdgeCount(edges, e) == |set k | 0 <= k < |edges| && edges[k].entity == e|
  {
    assert Positions(edges, e) == set k | 0 <= k < |edges| && edges[k].entity == e;
    if edges != [] {
      PositionsSnoc(edges, e);
      hide Positions;
      EdgeCountExactly(edges[..|edges| - 1], e);
    }
  }

  function Positions(edges: seq<Edge>, e: string): set<int> {
    set k | 0 <= k < |edges| && edges[k].entity == e
  }

  lemma PositionsSnoc(edges: seq<Edge>, e: string)
    requires edges != []
    ensures var n := |edges| - 1;
      |Positions(edges, e)| == |Positions(edges[..n], e)| + (if edges[n].entity == e then 1 else 0)
  {
    var n := |edges| - 1;
    var before := Positions(edges[..n], e);
    forall k ensures k in before <==> k in Positions(edges, e) && k != n {}
    assert Positions(edges, e) == if edges[n].entity == e then before + {n} else before;
  }

  /** Any logarithm: positive and strictly increasing from 2 on. */
  ghost predicate Logarithm(log: nat -> real) {
    && (forall m: nat :: m >= 2 ==> log(m) > 0.0)
    && (forall m: nat, n: nat :: 2 <= m < n ==> log(m) < log(n))
  }

  function IdfWeight(log: nat -> real, degree: nat): real
    requires Logarithm(log)
  {
    if degree > 0 then 1.0 / log(1 + degree) else 0.0
  }

  /** The weight of a hub is the inverse of the logarithm of one more than its degree. */
  lemma IdfWeightExactly(log: nat -> real, degree: nat)
    requires Logarithm(log)
    ensures degree > 0 ==> IdfWeight(log, degree) * log(1 + degree) == 1.0
    ensures degree == 0 ==> IdfWeight(log, degree) == 0.0
  {
  }

  ghost predicate Weighed(log: nat -> real, g: Graph)
    requires Logarithm(log)
  {
    && |g.weights| == |g.edges|
    && forall k :: 0 <= k < |g.edges| ==>
         g.edges[k].entity in g.degreeRaw && g.weights[k] == IdfWeight(log, g.degreeRaw[g.edges[k].entity])
  }

  function ClaimsIn(edges: seq<Edge>): set<string> { set l | l in edges :: l.claim }

  function EntitiesIn(edges: seq<Edge>): set<string> { set l | l in edges :: l.entity }

  /** The claim vertices are the claims of the edges, with their attributes. */
  ghost predicate ClaimsFilled(db: Database, g: Graph) {
    && g.claims == ClaimsIn(g.edges) && g.attrs.Keys == g.claims
    && forall c :: c in g.attrs ==> c in db.claims && g.attrs[c] == db.claims[c]
  }

  /** The entity vertices are the entities of the edges, with their type and value. */
  ghost predicate EntitiesFilled(db: Database, g: Graph) {
    && g.entities.Keys == EntitiesIn(g.edges)
    && forall e :: e in g.entities ==> e in db.entities && g.entities[e] == db.entities[e]
  }

  /** An entity's degree is the number of its edges. */
  ghost predicate Counted(g: Graph) {
    && g.degreeRaw.Keys == EntitiesIn(g.edges)
    && forall e :: e in g.degreeRaw ==> g.degreeRaw[e] == EdgeCount(g.edges, e)
  }

  /** The graph of a database as of a cutoff, None for no cutoff: what building it must produce. */
  ghost predicate IsGraphOf(log: nat -> real, db: Database, asOf: Option<int>, g: Graph)
    requires Logarithm(log)
  {
    && g.edges == Edges(db, asOf)
    && ClaimsFilled(db, g) && EntitiesFilled(db, g) && Counted(g) && Weighed(log, g)
  }

  /** The selected links, in the order of the table. */
  function Edges(db: Database, asOf: Option<int>): seq<Edge> {
    Kept(db, db.links, asOf)
  }

  function Kept(db: Database, links: seq<Edge>, asOf: Option<int>): seq<Edge> {
    if links == [] then []
    else if Selected(db, links[0], asOf) then [links[0]] + Kept(db, links[1..], asOf)
    else Kept(db, links[1..], asOf)
  }

  lemma {:induction false} FetchedAreKept(db: Database, links: seq<Edge>, asOf: Option<int>)
    ensures var rows := FetchLinks(db, links, asOf); var edges := Kept(db, links, asOf);
      && |rows| == |edges|
      && forall k :: 0 <= k < |rows| ==> Edge(rows[k].claim, rows[k].entity) == edges[k]
  {
    if links != [] { FetchedAreKept(db, links[1..], asOf); }
  }

  lemma {:induction false} KeptMembers(db: Database, links: seq<Edge>, asOf: Option<int>, l: Edge)
    ensures l in Kept(db, links, asOf) <==> l in links && Selected(db, l, asOf)
  {
    if links != [] {
      KeptMembers(db, links[1..], asOf, l);
      assert links == [links[0]] + links[1..];
    }
  }

  method BuildGraph(log: nat -> real, db: Database, asOf: Option<int>) returns (g: Graph)
    requires Logarithm(log)
    ensures IsGraphOf(log, db, asOf, g)
  {
    var links := FetchLinks(db, db.links, asOf);
    var claimAttrs := FetchAttrs(db, asOf);
    FetchedAreKept(db, db.links, asOf);
    var claimIds, entityMeta, edgesRaw := Collect(db, links);
    assert edgesRaw == Edges(db, asOf);
    var degree := CountDegrees(edgesRaw);
    var weights := Weigh(log, edgesRaw, degree);
    AttrsFound(db, asOf, claimIds);
    g := Graph(claimIds, entityMeta, degree, map c | c in claimIds :: claimAttrs[c], edgesRaw, weights);
  }

  /** The claim query selects every claim the link query does. */
  lemma AttrsFound(db: Database, asOf: Option<int>, ids: set<string>)
    requires ids == ClaimsIn(Edges(db, asOf))
    ensures forall c :: c in ids ==>
      c in FetchAttrs(db, asOf) && c in db.claims && FetchAttrs(db, asOf)[c] == db.claims[c]
  {
    forall c | c in ids ensures c in FetchAttrs(db, asOf) && FetchAttrs(db, asOf)[c] == db.claims[c] {
      var l :| l in Edges(db, asOf) && l.claim == c;
      KeptMembers(db, db.links, asOf, l);
    }
  }

  /** The loop over the fetched rows. */
  method Collect(db: Database, links: seq<LinkRow>)
    returns (claimIds: set<string>, entityMeta: map<string, EntityMeta>, edgesRaw: seq<Edge>)
    requires forall k :: 0 <= k < |links| ==>
      links[k].entity in db.entities && links[k].meta == db.entities[links[k].entity]
    ensures |edgesRaw| == |links|
    ensures forall k :: 0 <= k < |links| ==> edgesRaw[k] == Edge(links[k].claim, links[k].entity)
    ensures claimIds == ClaimsIn(edgesRaw)
    ensures entityMeta.Keys == EntitiesIn(edgesRaw)
    ensures forall e :: e in entityMeta ==> e in db.entities && entityMeta[e] == db.entities[e]
  {
    claimIds, entityMeta, edgesRaw := {}, map[], [];
    for k := 0 to |links|
      invariant |edgesRaw| == k
      invariant forall j :: 0 <= j < k ==> edgesRaw[j] == Edge(links[j].claim, links[j].entity)
      invariant claimIds == ClaimsIn(edgesRaw)
      invariant entityMeta.Keys == EntitiesIn(edgesRaw)
      invariant forall e :: e in entityMeta ==> e in db.entities && entityMeta[e] == db.entities[e]
    {
      var row := links[k];
      claimIds := claimIds + {row.claim};
      entityMeta := entityMeta[row.entity := row.meta];
      edgesRaw := edgesRaw + [Edge(row.claim, row.entity)];
    }
  }

  method Weigh(log: nat -> real, edges: seq<Edge>, degree: map<string, nat>) returns (weights: seq<real>)
    requires Logarithm(log) && forall k :: 0 <= k < |edges| ==> edges[k].entity in degree
    ensures |weights| == |edges|
    ensures forall k :: 0 <= k < |edges| ==> weights[k] == IdfWeight(log, degree[edges[k].entity])
  {
    weights := [];
    for k := 0 to |edges|
      invariant |weights| == k
      invariant forall j :: 0 <= j < k ==> weights[j] == IdfWeight(log, degree[edges[j].entity])
    {
      weights := weights + [IdfWeight(log, degree[edges[k].entity])];
    }
  }

  /** Counts how often each entity occurs in the edges. */
  method CountDegrees(edges: seq<Edge>) returns (degree: map<string, nat>)
    ensures degree.Keys == EntitiesIn(edges)
    ensures forall e :: e in degree ==> degree[e] == EdgeCount(edges, e)
  {
    degree := map[];
    for k := 0 to |edges|
      invariant degree.Keys == EntitiesIn(edges[..k])
      invariant forall e :: e in degree ==> degree[e] == EdgeCount(edges[..k], e)
      invariant forall e :: e !in degree ==> EdgeCount(edges[..k], e) == 0
    {
      var e := edges[k].entity;
      assert edges[..k + 1][..k] == edges[..k];
      degree := degree[e := (if e in degree then degree[e] else 0) + 1];
    }
    assert edges[..|edges|] == edges;
  }
}
