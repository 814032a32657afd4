/** How far the documented locality claim reaches. What is bounded by alpha and epsilon is the total
    weighted degree of the pushes; the number of vertices is bounded by the push cap alone, unless
    the graph's degrees are bounded below (scoring/app/local_push.py:7-9, 20, 57-62, 80). */
module LocalPushScope {
  import opened RealSums
  import opened WeightedGraph
  import opened LocalPushSpec
  import opened LocalPushMass
  import opened LocalPush

  /** With every pushed degree at least `low`, there are fewer than 1 / (alpha * epsilon * low)
      pushes, hence at most that many vertices, whatever the size of the graph. */
  lemma PushCountBound(c: Params, cap: nat, low: real)
    requires Sensible(c) && c.alpha > 0.0 && c.epsilon > 0.0
    requires forall v: nat :: v in Final(c, cap).log ==> v < c.g.N() && c.g.Degree(v) >= low
    ensures (|Final(c, cap).log| as real) * low < 1.0 / (c.alpha * c.epsilon)
    ensures |Elements(Final(c, cap).log)| <= |Final(c, cap).log|
  {
    var k := RunIsAfter(c, 0, cap);
    assert After(c, 0) == Init(c);
    hide After, Work, Run;
    WorkBound(c, k);
    WorkAtLeast(c, Final(c, cap).log, low);
    DistinctAtMostLength(Final(c, cap).log);
  }

  /** The same from what a caller can see beforehand, a floor on the graph's degrees. */
  lemma PushCountOnFloor(c: Params, cap: nat, low: real)
    requires Sensible(c) && c.alpha > 0.0 && c.epsilon > 0.0 && DegreeFloor(c.g, low)
    ensures (|Elements(Final(c, cap).log)| as real) * low <= (|Final(c, cap).log| as real) * low
    ensures (|Final(c, cap).log| as real) * low < 1.0 / (c.alpha * c.epsilon)
  {
    FinalWork(c, cap);
    forall v: nat | v in Final(c, cap).log ensures v < c.g.N() && c.g.Degree(v) >= low {
      var i :| 0 <= i < |Final(c, cap).log| && Final(c, cap).log[i] == v;
    }
    PushCountBound(c, cap, low);
    ShareWeak(|Elements(Final(c, cap).log)| as real, |Final(c, cap).log| as real, low);
  }

  ghost function Elements(log: seq<nat>): set<nat> { set v | v in log }

  lemma {:induction false} DistinctAtMostLength(log: seq<nat>)
    ensures |Elements(log)| <= |log|
  {
    if log == [] {
      assert Elements(log) == {};
    } else {
      var init, last := log[..|log| - 1], log[|log| - 1];
      assert log == init + [last];
      assert Elements(log) == Elements(init) + {last};
      DistinctAtMostLength(init);
    }
  }

  lemma {:induction false} DistinctCount(log: seq<nat>)
    requires NoDup(log)
    ensures |Elements(log)| == |log|
  {
    if log == [] {
      assert Elements(log) == {};
    } else {
      var init, last := log[..|log| - 1], log[|log| - 1];
      assert log == init + [last] && last !in init;
      assert Elements(log) == Elements(init) + {last};
      DistinctCount(init);
    }
  }

  // ----- a family of graphs on which every push is at a new vertex -----

  /** A centre 0 joined to the leaves 1..n by edges of weight w. */
  function Star(n: nat, w: real): Graph {
    Graph(seq(n, i requires 0 <= i < n => Edge(0, i + 1, w)),
          [seq(n, i requires 0 <= i < n => i)] + seq(n, i requires 0 <= i < n => [i]))
  }

  /** A run from the centre with edges so thin that its first push makes every leaf active. */
  ghost predicate ThinStar(c: Params, n: nat, w: real) {
    && n > 0 && w > 0.0 && c.g == Star(n, w) && c.seed == 0
    && 0.0 < c.alpha < 1.0 && c.epsilon > 0.0
    && Share(c.epsilon, Share(n as real, w)) < 1.0 - c.alpha
  }

  lemma StarValid(n: nat, w: real)
    requires w > 0.0
    ensures Star(n, w).Valid() && Star(n, w).N() == n + 1
    ensures |Star(n, w).Arcs(0)| == n && forall i :: 0 <= i < n ==> Star(n, w).Arcs(0)[i] == Arc(i + 1, w)
    ensures forall v: nat :: 1 <= v <= n ==> Star(n, w).Arcs(v) == [Arc(0, w)]
  {
    var g := Star(n, w);
    forall u, i | 0 <= u < g.N() && 0 <= i < |g.incident[u]| ensures g.ValidAt(u, g.incident[u][i]) {
      assert u > 0 ==> g.incident[u] == [u - 1];
      assert u == 0 ==> g.incident[0][i] == i && g.incident[i + 1][0] == i;
      assert u > 0 ==> g.incident[0][u - 1] == u - 1;
    }
    forall v: nat | 1 <= v <= n ensures g.Arcs(v) == [Arc(0, w)] {
      assert g.incident[v] == [v - 1];
    }
  }

  lemma {:induction false} UniformTotal(arcs: seq<Arc>, w: real)
    requires forall i :: 0 <= i < |arcs| ==> arcs[i].weight == w
    ensures TotalWeight(arcs) == Share(|arcs| as real, w)
  {
    if arcs == [] {
      ShareZero(w);
    } else {
      UniformTotal(arcs[..|arcs| - 1], w);
      OneMore(|arcs| - 1, w);
    }
  }

  lemma StarDegrees(n: nat, w: real)
    requires n > 0 && w > 0.0
    ensures Star(n, w).Valid() && Star(n, w).N() == n + 1
    ensures Star(n, w).Degree(0) == Share(n as real, w) > 0.0
    ensures forall v: nat :: 1 <= v <= n ==> Star(n, w).Degree(v) == w
  {
    StarValid(n, w);
    var g := Star(n, w);
    g.DegreePositive(0);
    UniformTotal(g.Arcs(0), w);
    forall v: nat | 1 <= v <= n ensures g.Degree(v) == w {
      assert [Arc(0, w)][..0] == [];
      assert TotalWeight([Arc(0, w)]) == TotalWeight([]) + w;
    }
  }

  function UpTo(lo: nat, hi: nat): seq<nat>
    requires lo <= hi
  {
    seq(hi - lo, i requires 0 <= i < hi - lo => lo + i)
  }

  /** What the first push leaves at each leaf. */
  function Crumb(c: Params, n: nat, w: real): real
    requires n > 0 && w > 0.0
  {
    ShareSign(n as real, w);
    Share(Share(1.0 - c.alpha, 1.0), Ratio(w, Share(n as real, w)))
  }

  lemma CrumbIsActive(c: Params, n: nat, w: real)
    requires ThinStar(c, n, w)
    ensures Ratio(Crumb(c, n, w), w) > c.epsilon
    ensures Ratio(1.0, Share(n as real, w)) > c.epsilon
  {
    ShareSign(n as real, w);
    var d := Share(n as real, w);
    CrumbAlgebra(1.0 - c.alpha, w, d);
    RatioAbove(1.0 - c.alpha, d, c.epsilon);
    RatioAbove(1.0, d, c.epsilon);
  }

  lemma CrumbAlgebra(m: real, w: real, d: real)
    requires w > 0.0 && d > 0.0
    ensures Ratio(Share(Share(m, 1.0), Ratio(w, d)), w) == Ratio(m, d)
  {
    var q, x := w / d, m / d;
    assert q * d == w && x * d == m;
    assert m * q == x * w by { assert (x * d) * q == x * (q * d); }
    assert (x * w) / w == x;
  }

  /** After the centre and the first j leaves have been pushed: the other leaves are next in the
      queue, each with what the first push left it. */
  ghost predicate StarState(c: Params, n: nat, w: real, j: nat, s: State)
    requires n > 0 && w > 0.0 && j <= n
  {
    && s.log == UpTo(0, j + 1) && UpTo(j + 1, n + 1) <= s.queue
    && forall v: nat :: j < v <= n ==> At(s.r, v) == Crumb(c, n, w)
  }

  lemma {:induction false} SpreadFromCentre(mass: real, d: real, w: real, i: nat, arcs: seq<Arc>)
    requires i == |arcs| && d > 0.0
    requires forall k :: 0 <= k < i ==> arcs[k] == Arc(k + 1, w)
    ensures forall v: nat ::
      At(Spread(map[0 := 0.0], arcs, mass, d), v) == if 1 <= v <= i then Share(mass, Ratio(w, d)) else 0.0
  {
    hide Share, Ratio;
    if i > 0 {
      var r := Spread(map[0 := 0.0], arcs[..i - 1], mass, d);
      var x := Share(mass, Ratio(w, d));
      SpreadFromCentre(mass, d, w, i - 1, arcs[..i - 1]);
      forall v: nat ensures At(Bump(r, i, x), v) == if 1 <= v <= i then x else 0.0 {
        assert At(r, v) == if 1 <= v <= i - 1 then x else 0.0;
        assert At(r, i) == 0.0;
      }
    }
  }

  lemma {:induction false} EnqueueLeaves(c: Params, n: nat, w: real, i: nat, r: map<nat, real>, arcs: seq<Arc>)
    requires i == |arcs| <= n && c.Valid() && c.g.N() == n + 1
    requires forall k :: 0 <= k < i ==> arcs[k] == Arc(k + 1, w)
    requires forall v: nat :: 1 <= v <= n ==> Active(c, r, v)
    ensures Enqueue(c, r, [], arcs) == UpTo(1, i + 1)
  {
    hide Active;
    if i > 0 { EnqueueLeaves(c, n, w, i - 1, r, arcs[..i - 1]); }
  }

  lemma FirstPush(c: Params, n: nat, w: real)
    requires ThinStar(c, n, w)
    ensures c.Valid() && StarState(c, n, w, 0, Step(c, Init(c)))
  {
    hide Graph.Arcs, Graph.Degree, Graph.Valid, Share, Ratio, Star;
    StarDegrees(n, w);
    StarValid(n, w);
    CrumbIsActive(c, n, w);
    var s, d := Init(c), Share(n as real, w);
    var arcs := c.g.Arcs(0);
    assert s.r[0 := 0.0] == map[0 := 0.0];
    SpreadFromCentre(Share(1.0 - c.alpha, 1.0), d, w, n, arcs);
    var r := PushR(c, s, 0);
    forall v: nat | 1 <= v <= n ensures Active(c, r, v) {
      assert At(r, v) == Crumb(c, n, w);
    }
    EnqueueLeaves(c, n, w, n, r, arcs);
    assert s.queue[1..] == [];
    assert [] + [0] == UpTo(0, 1);
  }

  lemma LeafPush(c: Params, n: nat, w: real, j: nat, s: State)
    requires ThinStar(c, n, w) && j < n && c.Valid() && Bounded(c, s) && StarState(c, n, w, j, s)
    ensures s.queue != [] && StarState(c, n, w, j + 1, Step(c, s))
  {
    hide Graph.Arcs, Graph.Degree, Graph.Valid, Share, Ratio, Star, Crumb;
    StarDegrees(n, w);
    StarValid(n, w);
    CrumbIsActive(c, n, w);
    var u := j + 1;
    assert UpTo(j + 1, n + 1)[0] == u && UpTo(j + 1, n + 1)[1..] == UpTo(j + 2, n + 1);
    assert Head(c, s) == u && UpTo(j + 2, n + 1) <= s.queue[1..];
    assert At(s.r, u) == Crumb(c, n, w);
    var t := Step(c, s);
    var a := Arc(0, w);
    OneArc(s.r[u := 0.0], a, Share(1.0 - c.alpha, At(s.r, u)), w);
    forall v: nat | j + 1 < v <= n ensures At(t.r, v) == Crumb(c, n, w) { assert At(s.r, v) == Crumb(c, n, w); }
    assert [a][..0] == [] && Enqueue(c, t.r, s.queue[1..], [a][..0]) == s.queue[1..];
    assert s.queue[1..] <= t.queue;
    assert t.log == UpTo(0, j + 2);
  }

  lemma OneArc(r: map<nat, real>, a: Arc, mass: real, d: real)
    requires d != 0.0
    ensures Spread(r, [a], mass, d) == Bump(r, a.to, Share(mass, Ratio(a.weight, d)))
  {
    assert [a][..0] == [];
    assert Spread(r, [a][..0], mass, d) == r;
  }

  lemma {:induction false} LeavesPushed(c: Params, n: nat, w: real, j: nat)
    requires ThinStar(c, n, w) && j <= n
    ensures c.Valid() && StarState(c, n, w, j, After(c, j + 1))
  {
    hide Step, StarState, ThinStar, Init;
    if j == 0 {
      FirstPush(c, n, w);
      SecondState(c);
    } else {
      LeavesPushed(c, n, w, j - 1);
      LeafPush(c, n, w, j - 1, After(c, j));
      assert After(c, j + 1) == Step(c, After(c, j));
    }
  }

  lemma SecondState(c: Params)
    requires c.Valid()
    ensures After(c, 0) == Init(c) && After(c, 1) == Step(c, Init(c))
  {
    assert After(c, 0) == Init(c);
  }

  /** The capped run on such a star, seen from its k-th state on. */
  lemma {:induction false} StarRun(c: Params, n: nat, w: real, cap: nat, k: nat)
    requires ThinStar(c, n, w) && k <= cap <= n
    ensures c.Valid() && Final(c, cap) == Run(c, After(c, k), cap)
  {
    hide Step, ThinStar;
    if k == 0 {
      LeavesPushed(c, n, w, 0);
      SecondState(c);
    } else {
      StarRun(c, n, w, cap, k - 1);
      if k == 1 {
        SecondState(c);
      } else {
        LeavesPushed(c, n, w, k - 2);
        assert After(c, k - 1).queue[0] == UpTo(k - 1, n + 1)[0];
        assert After(c, k) == Step(c, After(c, k - 1));
      }
    }
  }

  /** For every cap there is a graph on which the run makes all its pushes at different vertices. */
  lemma EveryPushNew(alpha: real, epsilon: real, cap: nat) returns (c: Params)
    requires 0.0 < alpha < 1.0 && epsilon > 0.0 && cap > 0
    ensures c.Valid() && c.alpha == alpha && c.epsilon == epsilon && c.seed == 0
    ensures Final(c, cap).log == UpTo(0, cap) && |Elements(Final(c, cap).log)| == cap
  {
    var w := ThinWeight(alpha, epsilon, cap);
    c := Params(Star(cap, w), 0, alpha, epsilon);
    StarRun(c, cap, w, cap, cap);
    LeavesPushed(c, cap, w, cap - 1);
    assert Run(c, After(c, cap), cap) == After(c, cap);
    DistinctCount(UpTo(0, cap));
  }

  lemma ThinWeight(alpha: real, epsilon: real, n: nat) returns (w: real)
    requires alpha < 1.0 && epsilon > 0.0 && n > 0
    ensures w > 0.0 && Share(epsilon, Share(n as real, w)) < 1.0 - alpha
  {
    var k := 2.0 * epsilon * (n as real);
    assert k > 0.0;
    w := (1.0 - alpha) / k;
    assert w * k == 1.0 - alpha;
    RatioSign(1.0 - alpha, k);
    assert 2.0 * (epsilon * ((n as real) * w)) == w * k;
  }

  lemma RatioSign(x: real, k: real)
    requires x > 0.0 && k > 0.0
    ensures x / k > 0.0
  {
  }

  // ----- the documented count -----

  /** On this graph the run pushes from at most K / (alpha * epsilon) vertices. */
  ghost predicate CountWithin(g: Graph, seed: nat, alpha: real, epsilon: real, cap: nat, K: real) {
    g.Valid() && seed < g.N() ==>
      (|Elements(Final(Params(g, seed, alpha, epsilon), cap).log)| as real) * (alpha * epsilon) <= K
  }

  /** When the documented vertex count holds, with any constant K: on every graph the loop pushes
      from at most K / (alpha * epsilon) vertices if and only if the push cap itself is within
      K / (alpha * epsilon). */
  lemma VertexCountExactly(alpha: real, epsilon: real, cap: nat, K: real)
    requires 0.0 < alpha < 1.0 && epsilon > 0.0
    ensures (forall g: Graph, seed: nat :: CountWithin(g, seed, alpha, epsilon, cap, K))
       <==> (cap as real) * (alpha * epsilon) <= K
  {
    hide CountWithin;
    if (cap as real) * (alpha * epsilon) <= K {
      forall g: Graph, seed: nat ensures CountWithin(g, seed, alpha, epsilon, cap, K) {
        AtMostCap(g, seed, alpha, epsilon, cap, K);
      }
    } else {
      var g, seed := CountExceeded(alpha, epsilon, cap, K);
      assert !CountWithin(g, seed, alpha, epsilon, cap, K);
    }
  }

  lemma AtMostCap(g: Graph, seed: nat, alpha: real, epsilon: real, cap: nat, K: real)
    requires 0.0 < alpha && 0.0 < epsilon && (cap as real) * (alpha * epsilon) <= K
    ensures CountWithin(g, seed, alpha, epsilon, cap, K)
  {
    if g.Valid() && seed < g.N() {
      var c := Params(g, seed, alpha, epsilon);
      PushesWithinCap(c, Init(c), cap);
      DistinctAtMostLength(Final(c, cap).log);
      ShareWeak(|Elements(Final(c, cap).log)| as real, cap as real, alpha * epsilon);
    }
  }

  lemma {:induction false} PushesWithinCap(c: Params, s: State, cap: nat)
    requires c.Valid() && Bounded(c, s) && |s.log| <= cap
    ensures |Run(c, s, cap).log| <= cap
    decreases if |s.log| < cap then cap - |s.log| else 0, |s.queue|
  {
    if s.queue != [] && |s.log| < cap {
      StepBounded(c, s);
      PushesWithinCap(c, Step(c, s), cap);
    }
  }

  /** A graph on which the count is exceeded, for a cap that exceeds it. */
  lemma CountExceeded(alpha: real, epsilon: real, cap: nat, K: real) returns (g: Graph, seed: nat)
    requires 0.0 < alpha < 1.0 && epsilon > 0.0 && (cap as real) * (alpha * epsilon) > K
    ensures g.Valid() && seed < g.N() && !CountWithin(g, seed, alpha, epsilon, cap, K)
  {
    if cap == 0 {
      StarValid(1, 1.0);
      g, seed := Star(1, 1.0), 0;
      var c := Params(g, seed, alpha, epsilon);
      PushesWithinCap(c, Init(c), cap);
      DistinctAtMostLength(Final(c, cap).log);
    } else {
      var c := EveryPushNew(alpha, epsilon, cap);
      g, seed := c.g, c.seed;
      assert c == Params(g, seed, alpha, epsilon);
    }
  }

  /** At the default parameters, on a graph with degrees of at least 10/3, the push cap is not what
      ends the loop, and the returned estimate is within its error bound. */
  lemma DefaultEstimate(g: Graph, seed: nat, b: nat -> real, f: nat -> real, M: real)
    requires g.Valid() && seed < g.N() && DegreeFloor(g, 10.0 / 3.0)
    requires Solves(Params(g, seed, 0.15, 0.00001), b, f) && forall v: nat :: v < g.N() ==> 0.0 <= f(v) <= M
    ensures var c := Params(g, seed, 0.15, 0.00001);
      var t := Final(c, MAX_PUSHES);
      && t.queue == []
      && 0.0 <= f(seed) - Dot(g.N(), t.p, b) <= Share(Share(0.00001, M), SupportDegree(c, t))
  {
    var c := Params(g, seed, 0.15, 0.00001);
    assert (MAX_PUSHES as real) * 0.15 * 0.00001 * (10.0 / 3.0) >= 1.0;
    FinalEstimate(c, MAX_PUSHES, 10.0 / 3.0, b, f, M);
  }

  /** The cap does not end such a run, whatever is read out of it. */
  lemma DefaultRunEnds(g: Graph, seed: nat)
    requires g.Valid() && seed < g.N() && DegreeFloor(g, 10.0 / 3.0)
    ensures Final(Params(g, seed, 0.15, 0.00001), MAX_PUSHES).queue == []
  {
    assert (MAX_PUSHES as real) * 0.15 * 0.00001 * (10.0 / 3.0) >= 1.0;
    CapOutOfReach(Params(g, seed, 0.15, 0.00001), MAX_PUSHES, 10.0 / 3.0);
  }

  /** A caller that leaves the parameters to their defaults, as for one new claim. */
  method PushFromClaim(g: Graph, claimIndex: nat) returns (p: map<nat, real>, pushedFrom: set<nat>)
    requires g.Valid() && claimIndex < g.N()
    ensures var t := Final(Params(g, claimIndex, 0.15, 0.00001), 200_000);
      && p == t.p && pushedFrom == Elements(t.log)
      && (DegreeFloor(g, 10.0 / 3.0) ==> t.queue == [])
    ensures |pushedFrom| <= 200_000
    ensures forall v: nat :: At(p, v) > 0.0 <==> v in pushedFrom
  {
    p, pushedFrom := LocalPushPpr(g, claimIndex);
    ghost var c := Params(g, claimIndex, 0.15, 0.00001);
    PushesWithinCap(c, Init(c), 200_000);
    DistinctAtMostLength(Final(c, 200_000).log);
    if DegreeFloor(g, 10.0 / 3.0) { DefaultRunEnds(g, claimIndex); }
    ghost var k := RunIsAfter(c, 0, 200_000);
    assert After(c, 0) == Init(c);
    QueueHoldsEveryActiveVertex(c, k);
  }

  /** The entry point's own constants: at its default parameters the documented count holds on every
      graph, because the cap is within it; at alpha = epsilon = 1/2 some graph exceeds it. */
  lemma CountAtTheConstants()
    ensures forall g: Graph, seed: nat :: CountWithin(g, seed, DEFAULT_ALPHA, DEFAULT_EPSILON, MAX_PUSHES, 1.0)
    ensures exists g: Graph, seed: nat :: g.Valid() && seed < g.N() && !CountWithin(g, seed, 0.5, 0.5, MAX_PUSHES, 1.0)
  {
    hide CountWithin;
    VertexCountExactly(DEFAULT_ALPHA, DEFAULT_EPSILON, MAX_PUSHES, 1.0);
    var g, seed := CountExceeded(0.5, 0.5, MAX_PUSHES, 1.0);
  }
}
