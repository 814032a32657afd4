/** What a cutoff date hides: graphs of the past, and the training split built from them
    (scoring/app/graph.py:35-113, tools/train_model.py:90-155). */
module RingAsOf {
  import opened Options
  import opened RingGraph

  // ----- only the past counts -----

  function Restrict(links: seq<Edge>, past: set<string>): seq<Edge> {
    if links == [] then []
    else if links[0].claim in past then [links[0]] + Restrict(links[1..], past)
    else Restrict(links[1..], past)
  }

  function Past(db: Database, cutoff: int): set<string> {
    set c | c in db.claims && db.claims[c].date <= cutoff
  }

  /** The two databases hold the same claims up to the cutoff, with the same links to the same
      entities; nothing is said about later claims. */
  ghost predicate AgreeUpTo(db: Database, other: Database, cutoff: int) {
    && Past(db, cutoff) == Past(other, cutoff)
    && (forall c :: c in Past(db, cutoff) ==> db.claims[c] == other.claims[c])
    && Restrict(db.links, Past(db, cutoff)) == Restrict(other.links, Past(db, cutoff))
    && (forall l :: l in Restrict(db.links, Past(db, cutoff)) ==> SameEntity(db, other, l.entity))
  }

  ghost predicate SameEntity(db: Database, other: Database, e: string) {
    (e in db.entities <==> e in other.entities) && (e in db.entities ==> db.entities[e] == other.entities[e])
  }

  lemma {:induction false} KeptArePast(db: Database, links: seq<Edge>, cutoff: int)
    ensures Kept(db, links, Some(cutoff)) == Kept(db, Restrict(links, Past(db, cutoff)), Some(cutoff))
  {
    if links != [] { KeptArePast(db, links[1..], cutoff); }
  }

  lemma {:induction false} KeptAgree(db: Database, other: Database, links: seq<Edge>, cutoff: Option<int>)
    requires forall l :: l in links ==> (Selected(db, l, cutoff) <==> Selected(other, l, cutoff))
    ensures Kept(db, links, cutoff) == Kept(other, links, cutoff)
  {
    if links != [] { KeptAgree(db, other, links[1..], cutoff); }
  }

  lemma {:induction false} RestrictMembers(links: seq<Edge>, past: set<string>, l: Edge)
    ensures l in Restrict(links, past) <==> l in links && l.claim in past
  {
    if links != [] {
      RestrictMembers(links[1..], past, l);
      assert links == [links[0]] + links[1..];
    }
  }

  lemma EdgesAgree(db: Database, other: Database, cutoff: int)
    requires AgreeUpTo(db, other, cutoff)
    ensures Edges(db, Some(cutoff)) == Edges(other, Some(cutoff))
    ensures forall l :: l in Edges(db, Some(cutoff)) ==> l.claim in Past(db, cutoff) && SameEntity(db, other, l.entity)
  {
    hide SameEntity;
    var links := Restrict(db.links, Past(db, cutoff));
    KeptArePast(db, db.links, cutoff);
    KeptArePast(other, other.links, cutoff);
    forall l | l in links ensures Selected(db, l, Some(cutoff)) <==> Selected(other, l, Some(cutoff)) {
      RestrictMembers(db.links, Past(db, cutoff), l);
      SelectedAgree(db, other, l, cutoff);
    }
    KeptAgree(db, other, links, Some(cutoff));
    forall l | l in Edges(db, Some(cutoff)) ensures l.claim in Past(db, cutoff) && SameEntity(db, other, l.entity) {
      KeptMembers(db, links, Some(cutoff), l);
      RestrictMembers(db.links, Past(db, cutoff), l);
    }
  }

  lemma SelectedAgree(db: Database, other: Database, l: Edge, cutoff: int)
    requires AgreeUpTo(db, other, cutoff) && l.claim in Past(db, cutoff) && SameEntity(db, other, l.entity)
    ensures Selected(db, l, Some(cutoff)) <==> Selected(other, l, Some(cutoff))
  {
    assert l.claim in Past(other, cutoff);
  }

  /** A graph with a cutoff depends only on the claims dated up to it. */
  lemma CutoffSeesOnlyThePast(
      log: nat -> real, db: Database, other: Database, cutoff: int, g: Graph, h: Graph)
    requires Logarithm(log) && AgreeUpTo(db, other, cutoff)
    requires IsGraphOf(log, db, Some(cutoff), g) && IsGraphOf(log, other, Some(cutoff), h)
    ensures g == h
  {
    hide Edges, Weighed, Counted;
    EdgesAgree(db, other, cutoff);
    SameEntities(db, other, g, h);
    SameClaims(db, other, cutoff, g, h);
    SameCounts(g, h);
    SameGraph(log, g, h);
  }

  lemma SameEntities(db: Database, other: Database, g: Graph, h: Graph)
    requires g.edges == h.edges && EntitiesFilled(db, g) && EntitiesFilled(other, h)
    requires forall l :: l in g.edges ==> SameEntity(db, other, l.entity)
    ensures g.entities == h.entities
  {
    forall e | e in g.entities ensures g.entities[e] == h.entities[e] {
      var l :| l in g.edges && l.entity == e;
      assert SameEntity(db, other, e);
    }
  }

  lemma SameClaims(db: Database, other: Database, cutoff: int, g: Graph, h: Graph)
    requires g.edges == h.edges && ClaimsFilled(db, g) && ClaimsFilled(other, h)
    requires forall l :: l in g.edges ==> l.claim in Past(db, cutoff)
    requires forall c :: c in Past(db, cutoff) ==> c in Past(other, cutoff) && db.claims[c] == other.claims[c]
    ensures g.claims == h.claims && g.attrs == h.attrs
  {
    forall c | c in g.attrs ensures g.attrs[c] == h.attrs[c] {
      var l :| l in g.edges && l.claim == c;
    }
  }

  lemma SameCounts(g: Graph, h: Graph)
    requires g.edges == h.edges && Counted(g) && Counted(h)
    ensures g.degreeRaw == h.degreeRaw
  {
    hide EdgeCount;
  }

  lemma SameGraph(log: nat -> real, g: Graph, h: Graph)
    requires Logarithm(log) && Weighed(log, g) && Weighed(log, h)
    requires g.claims == h.claims && g.edges == h.edges && g.entities == h.entities && g.attrs == h.attrs
    requires g.degreeRaw == h.degreeRaw
    ensures g == h
  {
    assert g.weights == h.weights;
  }

  // ----- later cutoffs see more -----

  predicate Before(a: Option<int>, b: Option<int>) {
    b.None? || (a.Some? && a.value <= b.value)
  }

  lemma SelectedLater(db: Database, l: Edge, a: Option<int>, b: Option<int>)
    requires Before(a, b) && Selected(db, l, a)
    ensures Selected(db, l, b)
  {
  }

  lemma {:induction false} CountAppend(s: seq<Edge>, t: seq<Edge>, e: string)
    ensures EdgeCount(s + t, e) == EdgeCount(s, e) + EdgeCount(t, e)
  {
    if t == [] {
      assert s + t == s;
    } else {
      assert (s + t)[..|s + t| - 1] == s + t[..|t| - 1];
      CountAppend(s, t[..|t| - 1], e);
    }
  }

  lemma {:induction false} CountsGrow(db: Database, links: seq<Edge>, a: Option<int>, b: Option<int>, e: string)
    requires Before(a, b)
    ensures EdgeCount(Kept(db, links, a), e) <= EdgeCount(Kept(db, links, b), e)
  {
    if links != [] {
      CountsGrow(db, links[1..], a, b, e);
      CountAppend([links[0]], Kept(db, links[1..], a), e);
      CountAppend([links[0]], Kept(db, links[1..], b), e);
    }
  }

  lemma WeightsFall(log: nat -> real, m: nat, n: nat)
    requires Logarithm(log) && 0 < m <= n
    ensures 0.0 < IdfWeight(log, n) <= IdfWeight(log, m)
    ensures m < n ==> IdfWeight(log, n) < IdfWeight(log, m)
  {
    var x, y := log(1 + m), log(1 + n);
    assert 0.0 < x <= y;
    InverseFalls(x, y);
  }

  lemma InverseFalls(x: real, y: real)
    requires 0.0 < x <= y
    ensures 0.0 < 1.0 / y <= 1.0 / x && (x < y ==> 1.0 / y < 1.0 / x)
  {
    var p, q := 1.0 / x, 1.0 / y;
    assert p * x == 1.0 && q * y == 1.0;
    ScaleKeepsOrder(q, 0.0, y);
    ScaleKeepsOrder(p, q, x);
    ScaleKeepsOrder(x, y, q);
    ScaleKeepsOrder(y, x, q);
  }

  lemma ScaleKeepsOrder(a: real, b: real, k: real)
    ensures k > 0.0 && a <= b ==> a * k <= b * k
    ensures k > 0.0 && a < b ==> a * k < b * k
  {
    assert (b - a) * k == b * k - a * k;
  }

  /** Edge i of g is edge j of h; its weight falls exactly when its entity's degree has grown. */
  ghost predicate Weakens(g: Graph, h: Graph, i: nat, j: nat) {
    && i < |g.weights| && j < |h.weights| && i < |g.edges|
    && g.edges[i].entity in g.degreeRaw && g.edges[i].entity in h.degreeRaw
    && 0.0 < h.weights[j] <= g.weights[i]
    && (h.weights[j] < g.weights[i] <==> g.degreeRaw[g.edges[i].entity] < h.degreeRaw[g.edges[i].entity])
  }

  /** Later cutoffs give more claims and edges, no smaller degrees and no larger weights. */
  lemma CutoffsNest(log: nat -> real, db: Database, a: Option<int>, b: Option<int>, g: Graph, h: Graph)
    requires Logarithm(log) && Before(a, b) && IsGraphOf(log, db, a, g) && IsGraphOf(log, db, b, h)
    ensures g.claims <= h.claims
    ensures forall l :: l in g.edges ==> l in h.edges
    ensures forall e :: e in g.degreeRaw ==> e in h.degreeRaw && 0 < g.degreeRaw[e] <= h.degreeRaw[e]
    ensures forall i, j :: 0 <= i < |g.edges| && 0 <= j < |h.edges| && g.edges[i] == h.edges[j] ==> Weakens(g, h, i, j)
  {
    hide IdfWeight, Edges, ClaimsFilled, EntitiesFilled, Counted, Weighed, Weakens;
    EdgesNest(db, a, b);
    ClaimsNest(db, g, h);
    DegreesNest(db, a, b, g, h);
    forall i, j | 0 <= i < |g.edges| && 0 <= j < |h.edges| && g.edges[i] == h.edges[j] ensures Weakens(g, h, i, j) {
      WeightNests(log, g, h, i, j);
    }
  }

  lemma ClaimsNest(db: Database, g: Graph, h: Graph)
    requires ClaimsFilled(db, g) && ClaimsFilled(db, h) && forall l :: l in g.edges ==> l in h.edges
    ensures g.claims <= h.claims
  {
  }

  lemma DegreesNest(db: Database, a: Option<int>, b: Option<int>, g: Graph, h: Graph)
    requires Before(a, b) && g.edges == Edges(db, a) && h.edges == Edges(db, b) && Counted(g) && Counted(h)
    requires forall l :: l in g.edges ==> l in h.edges
    ensures forall e :: e in g.degreeRaw ==> e in h.degreeRaw && 0 < g.degreeRaw[e] <= h.degreeRaw[e]
  {
    forall e | e in g.degreeRaw ensures e in h.degreeRaw && 0 < g.degreeRaw[e] <= h.degreeRaw[e] {
      CountsGrow(db, db.links, a, b, e);
      var l :| l in g.edges && l.entity == e;
      var k :| 0 <= k < |g.edges| && g.edges[k] == l;
      CountPositive(g.edges, k);
      assert l in h.edges;
    }
  }

  lemma WeightNests(log: nat -> real, g: Graph, h: Graph, i: nat, j: nat)
    requires Logarithm(log) && Weighed(log, g) && Weighed(log, h) && i < |g.edges| && j < |h.edges|
    requires g.edges[i] == h.edges[j]
    requires forall e :: e in g.degreeRaw ==> e in h.degreeRaw && 0 < g.degreeRaw[e] <= h.degreeRaw[e]
    ensures Weakens(g, h, i, j)
  {
    var e := g.edges[i].entity;
    WeightsFall(log, g.degreeRaw[e], h.degreeRaw[e]);
  }

  lemma EdgesNest(db: Database, a: Option<int>, b: Option<int>)
    requires Before(a, b)
    ensures forall l :: l in Edges(db, a) ==> l in Edges(db, b)
  {
    forall l | l in Edges(db, a) ensures l in Edges(db, b) {
      KeptMembers(db, db.links, a, l);
      SelectedLater(db, l, a, b);
      KeptMembers(db, db.links, b, l);
    }
  }

  lemma {:induction false} OwnLinksKept(db: Database, links: seq<Edge>, a: Option<int>, b: Option<int>, c: string)
    requires Visible(db, c, a) && Visible(db, c, b)
    ensures Restrict(Kept(db, links, a), {c}) == Restrict(Kept(db, links, b), {c})
  {
    if links != [] { OwnLinksKept(db, links[1..], a, b, c); }
  }

  /** A claim's own links never depend on the cutoff, only its date does. */
  lemma OwnLinksNeverChange(
      log: nat -> real, db: Database, a: Option<int>, b: Option<int>, g: Graph, h: Graph, c: string)
    requires Logarithm(log) && IsGraphOf(log, db, a, g) && IsGraphOf(log, db, b, h)
    requires c in g.claims && c in h.claims
    ensures Restrict(g.edges, {c}) == Restrict(h.edges, {c})
  {
    var l :| l in g.edges && l.claim == c;
    var m :| m in h.edges && m.claim == c;
    KeptMembers(db, db.links, a, l);
    KeptMembers(db, db.links, b, m);
    OwnLinksKept(db, db.links, a, b, c);
  }

  // ----- the training split -----

  /** Day offsets of the two boundaries: 0.6 and 0.8 of the 240 days. */
  const TRAIN_END: int := 144
  const VAL_END: int := 192

  lemma EdgesUpTo(db: Database, cutoff: int, l: Edge)
    ensures l in Edges(db, Some(cutoff)) <==>
      l in Edges(db, None) && l.claim in db.claims && db.claims[l.claim].date <= cutoff
  {
    KeptMembers(db, db.links, Some(cutoff), l);
    KeptMembers(db, db.links, None, l);
  }

  lemma ClaimsUpTo(log: nat -> real, db: Database, full: Graph, cutoff: int, g: Graph)
    requires Logarithm(log) && IsGraphOf(log, db, None, full) && IsGraphOf(log, db, Some(cutoff), g)
    ensures full.attrs.Keys == full.claims
    ensures g.claims == (set c | c in full.claims && full.attrs[c].date <= cutoff)
  {
    hide Edges, EntitiesFilled, Counted, Weighed;
    forall c | c in g.claims ensures c in full.claims && full.attrs[c].date <= cutoff {
      var l :| l in g.edges && l.claim == c;
      EdgesUpTo(db, cutoff, l);
    }
    forall c | c in full.claims && full.attrs[c].date <= cutoff ensures c in g.claims {
      var l :| l in full.edges && l.claim == c;
      EdgesUpTo(db, cutoff, l);
    }
  }

  /** The split by date: train, validation and test claims. */
  function TemporalSplit(index: set<string>, dates: map<string, int>): (set<string>, set<string>, set<string>)
    requires index <= dates.Keys
  {
    (set c | c in index && dates[c] <= TRAIN_END,
     set c | c in index && TRAIN_END < dates[c] <= VAL_END,
     set c | c in index && VAL_END < dates[c])
  }

  /** Each period's rows, read from its own graph: those of the claims no earlier graph has. */
  method SplitRows<Row>(train: Graph, val: Graph, full: Graph, features: (Graph, string) -> Row)
    returns (trainRows: map<string, Row>, valRows: map<string, Row>, testRows: map<string, Row>)
    ensures trainRows.Keys == train.claims && valRows.Keys == val.claims - train.claims
    ensures testRows.Keys == full.claims - train.claims - val.claims
    ensures forall c :: c in trainRows ==> trainRows[c] == features(train, c)
    ensures forall c :: c in valRows ==> valRows[c] == features(val, c)
    ensures forall c :: c in testRows ==> testRows[c] == features(full, c)
  {
    trainRows := map c | c in train.claims :: features(train, c);
    valRows := map c | c in val.claims && c !in trainRows :: features(val, c);
    testRows := map c | c in full.claims && c !in trainRows && c !in valRows :: features(full, c);
  }

  /** Three graphs, and each period's rows by set difference. The rows come out as the split by date
      has them, each read from the graph of its own period, and no claim twice. */
  method BuildDataset<Row>(log: nat -> real, db: Database, features: (Graph, string) -> Row)
    returns (train: Graph, val: Graph, full: Graph,
             trainRows: map<string, Row>, valRows: map<string, Row>, testRows: map<string, Row>,
             featureRows: map<string, Row>, incidentDates: map<string, int>)
    requires Logarithm(log)
    ensures IsGraphOf(log, db, Some(TRAIN_END), train) && IsGraphOf(log, db, Some(VAL_END), val)
    ensures IsGraphOf(log, db, None, full)
    ensures full.attrs.Keys == full.claims == featureRows.Keys
    ensures incidentDates == map c | c in full.attrs :: full.attrs[c].date
    ensures TemporalSplit(featureRows.Keys, incidentDates) == (trainRows.Keys, valRows.Keys, testRows.Keys)
    ensures trainRows.Keys == (set c | c in full.attrs && full.attrs[c].date <= 144)
    ensures valRows.Keys == (set c | c in full.attrs && 144 < full.attrs[c].date <= 192)
    ensures testRows.Keys == (set c | c in full.attrs && 192 < full.attrs[c].date)
    ensures forall c :: c in trainRows ==> c in featureRows && featureRows[c] == trainRows[c] == features(train, c)
    ensures forall c :: c in valRows ==> c in featureRows && featureRows[c] == valRows[c] == features(val, c)
    ensures forall c :: c in testRows ==> c in featureRows && featureRows[c] == testRows[c] == features(full, c)
  {
    hide IsGraphOf;
    train := BuildGraph(log, db, Some(TRAIN_END));
    val := BuildGraph(log, db, Some(VAL_END));
    full := BuildGraph(log, db, None);
    ClaimsUpTo(log, db, full, TRAIN_END, train);
    ClaimsUpTo(log, db, full, VAL_END, val);
    trainRows, valRows, testRows := SplitRows(train, val, full, features);
    featureRows := trainRows + valRows + testRows;
    incidentDates := map c | c in full.attrs :: full.attrs[c].date;
    SplitsAgree(train, val, full, trainRows.Keys, valRows.Keys, testRows.Keys, incidentDates);
  }

  /** Set differences of nested graphs are the split by date. */
  lemma SplitsAgree(train: Graph, val: Graph, full: Graph,
      trainIds: set<string>, valIds: set<string>, testIds: set<string>, dates: map<string, int>)
    requires dates.Keys == full.claims
    requires train.claims == (set c | c in full.claims && dates[c] <= TRAIN_END)
    requires val.claims == (set c | c in full.claims && dates[c] <= VAL_END)
    requires trainIds == train.claims && valIds == val.claims - trainIds
    requires testIds == full.claims - trainIds - valIds
    ensures trainIds + valIds + testIds == full.claims
    ensures TemporalSplit(full.claims, dates) == (trainIds, valIds, testIds)
  {
    var (a, b, c) := TemporalSplit(full.claims, dates);
    assert a == trainIds && b == valIds && c == testIds;
  }
}
