/** What one push, and hence every run, does to weighted totals of p and r: the linear
    invariant behind the approximation guarantee, conservation of mass, and the work bound
    (scoring/app/local_push.py:2-12, 33-54, 69-97). */
module LocalPushMass {
  import opened RealSums
  import opened WeightedGraph
  import opened LocalPushSpec

  lemma {:induction false} SpreadDot(n: nat, r: map<nat, real>, arcs: seq<Arc>, mass: real, d: real, f: nat -> real)
    requires d != 0.0
    requires forall i :: 0 <= i < |arcs| ==> arcs[i].to < n
    ensures Dot(n, Spread(r, arcs, mass, d), f) == Dot(n, r, f) + Share(mass, ArcMean(arcs, d, f))
  {
    if arcs != [] {
      SpreadDot(n, r, arcs[..|arcs| - 1], mass, d, f);
      SpreadLast(n, r, arcs, mass, d, f);
    }
  }

  lemma SpreadLast(n: nat, r: map<nat, real>, arcs: seq<Arc>, mass: real, d: real, f: nat -> real)
    requires d != 0.0 && arcs != []
    requires arcs[|arcs| - 1].to < n
    requires Dot(n, Spread(r, arcs[..|arcs| - 1], mass, d), f)
          == Dot(n, r, f) + Share(mass, ArcMean(arcs[..|arcs| - 1], d, f))
    ensures Dot(n, Spread(r, arcs, mass, d), f) == Dot(n, r, f) + Share(mass, ArcMean(arcs, d, f))
  {
    hide Share, Ratio, Dot, Bump;
    var init, a := arcs[..|arcs| - 1], arcs[|arcs| - 1];
    var r0, q := Spread(r, init, mass, d), Ratio(a.weight, d);
    DotBump(n, r0, a.to, Share(mass, q), f);
    assert ArcMean(arcs, d, f) == ArcMean(init, d, f) + Share(q, f(a.to));
    Distribute(mass, ArcMean(init, d, f), q, f(a.to));
  }

  lemma Distribute(m: real, x: real, k: real, y: real)
    ensures Share(m, x + Share(k, y)) == Share(m, x) + Share(Share(m, k), y)
  {
  }

  /** The mean of f over the edges at u, as the source weighs them. */
  ghost function NeighbourMean(c: Params, u: nat, f: nat -> real): real
    requires c.Valid() && u < c.g.N()
  {
    c.g.DegreePositive(u);
    ArcMean(c.g.Arcs(u), c.g.Degree(u), f)
  }

  /** By how much f exceeds, at u, one restart-or-move step of b and f. */
  ghost function Defect(c: Params, u: nat, b: nat -> real, f: nat -> real): real
    requires c.Valid() && u < c.g.N()
  {
    Share(c.alpha, b(u)) + Share(1.0 - c.alpha, NeighbourMean(c, u, f)) - f(u)
  }

  ghost function Total(c: Params, s: State, b: nat -> real, f: nat -> real): real {
    Dot(c.g.N(), s.p, b) + Dot(c.g.N(), s.r, f)
  }

  lemma PushPDot(c: Params, s: State, u: nat, b: nat -> real)
    requires c.Valid() && u < c.g.N()
    ensures Dot(c.g.N(), PushP(c, s, u), b) == Dot(c.g.N(), s.p, b) + Share(Share(c.alpha, At(s.r, u)), b(u))
  {
    hide Share, Ratio;
    DotBump(c.g.N(), s.p, u, Share(c.alpha, At(s.r, u)), b);
  }

  lemma PushRDot(c: Params, s: State, u: nat, f: nat -> real)
    requires c.Valid() && u < c.g.N()
    ensures Dot(c.g.N(), PushR(c, s, u), f) == Dot(c.g.N(), s.r, f) + Share(-At(s.r, u), f(u))
      + Share(Share(1.0 - c.alpha, At(s.r, u)), NeighbourMean(c, u, f))
  {
    hide Share, Ratio;
    var n, ru, r1, d := c.g.N(), At(s.r, u), s.r[u := 0.0], c.g.Degree(u);
    var mass := Share(1.0 - c.alpha, ru);
    DotBump(n, s.r, u, -ru, f);
    assert At(s.r, u) + -ru == 0.0;
    assert Bump(s.r, u, -ru) == r1;
    c.g.DegreePositive(u);
    SpreadDot(n, r1, c.g.Arcs(u), mass, d, f);
  }

  /** One push changes the weighted total by the residual times the defect, for every b and f. */
  lemma PushTotal(c: Params, s: State, u: nat, b: nat -> real, f: nat -> real)
    requires c.Valid() && u < c.g.N()
    ensures Dot(c.g.N(), PushP(c, s, u), b) + Dot(c.g.N(), PushR(c, s, u), f)
         == Total(c, s, b, f) + Share(At(s.r, u), Defect(c, u, b, f))
  {
    hide Share, Ratio;
    PushPDot(c, s, u, b);
    PushRDot(c, s, u, f);
    PushAlgebra(c.alpha, At(s.r, u), b(u), NeighbourMean(c, u, f), f(u));
  }

  lemma PushAlgebra(alpha: real, ru: real, bu: real, mean: real, fu: real)
    ensures Share(Share(alpha, ru), bu) + Share(-ru, fu) + Share(Share(1.0 - alpha, ru), mean)
         == Share(ru, Share(alpha, bu) + Share(1.0 - alpha, mean) - fu)
  {
  }

  /** f solves the personalized PageRank equation for the readout b. */
  ghost predicate Solves(c: Params, b: nat -> real, f: nat -> real)
    requires c.Valid()
  {
    forall u: nat :: u < c.g.N() ==> Defect(c, u, b, f) == 0.0
  }

  /** p and r together always encode the exact answer: at every loop head, and for every
      readout b with solution f, what p has banked plus what r still promises is f(seed). */
  lemma {:induction false} ExactAnswerInvariant(c: Params, b: nat -> real, f: nat -> real, k: nat)
    requires c.Valid() && Solves(c, b, f)
    ensures Total(c, After(c, k), b, f) == f(c.seed)
  {
    hide Share, Ratio;
    if k == 0 {
      DotSingle(c.g.N(), c.seed, f);
      DotSingle(c.g.N(), c.seed, b);
    } else {
      ExactAnswerInvariant(c, b, f, k - 1);
      var s := After(c, k - 1);
      if s.queue != [] && Active(c, s.r, Head(c, s)) {
        PushTotal(c, s, Head(c, s), b, f);
        ShareZero(At(s.r, Head(c, s)));
      }
    }
  }

  // ----- queue and shadow bookkeeping -----

  /** What every loop head satisfies. */
  ghost predicate Inv(c: Params, s: State)
    requires c.Valid()
  {
    && Bounded(c, s)
    && NoDup(s.queue)
    && (forall v: nat :: v < c.g.N() && Active(c, s.r, v) ==> v in s.queue)
    && (forall v: nat :: At(s.r, v) >= 0.0 && At(s.p, v) >= 0.0)
    && InGraph(c, s.log)
    && (forall v: nat :: v in s.log <==> v in s.p)
    && (forall v: nat :: v in s.p ==> v < c.g.N() && s.p[v] >= 0.0 && (c.alpha > 0.0 ==> s.p[v] > 0.0))
  }

  /** The parameter range of the algorithm: a probability to restart, a tolerance. */
  ghost predicate Sensible(c: Params) {
    c.Valid() && 0.0 <= c.alpha <= 1.0 && c.epsilon >= 0.0
  }

  lemma {:induction false} SpreadEffect(r: map<nat, real>, arcs: seq<Arc>, mass: real, d: real)
    requires d > 0.0 && mass >= 0.0
    requires forall i :: 0 <= i < |arcs| ==> arcs[i].weight > 0.0
    requires forall v: nat :: At(r, v) >= 0.0
    ensures forall v: nat :: At(Spread(r, arcs, mass, d), v) >= 0.0
    ensures forall v: nat :: (forall i :: 0 <= i < |arcs| ==> arcs[i].to != v) ==>
      At(Spread(r, arcs, mass, d), v) == At(r, v)
  {
    hide Share, Ratio;
    if arcs != [] {
      var init, a := arcs[..|arcs| - 1], arcs[|arcs| - 1];
      SpreadEffect(r, init, mass, d);
      QuotientPositive(a.weight, d);
      ShareSign(mass, Ratio(a.weight, d));
      var r0, x := Spread(r, init, mass, d), Share(mass, Ratio(a.weight, d));
      forall v: nat ensures At(Bump(r0, a.to, x), v) >= 0.0 {
        assert At(r0, v) >= 0.0 && At(r0, a.to) >= 0.0;
      }
      forall v: nat | forall i :: 0 <= i < |arcs| ==> arcs[i].to != v
        ensures At(Spread(r, arcs, mass, d), v) == At(r, v)
      {
        assert a.to != v;
        assert forall i :: 0 <= i < |init| ==> init[i] == arcs[i];
      }
    }
  }

  lemma QuotientPositive(w: real, d: real)
    requires w > 0.0 && d > 0.0
    ensures Ratio(w, d) > 0.0
  {
  }

  lemma ShareSign(k: real, x: real)
    requires k >= 0.0 && x >= 0.0
    ensures Share(k, x) >= 0.0
    ensures k > 0.0 && x > 0.0 ==> Share(k, x) > 0.0
  {
  }

  lemma ActiveMeans(c: Params, r: map<nat, real>, v: nat)
    requires c.Valid() && v < c.g.N()
    ensures c.g.Degree(v) > 0.0
    ensures Active(c, r, v) <==> At(r, v) > Share(c.epsilon, c.g.Degree(v))
  {
    c.g.DegreePositive(v);
    RatioAbove(At(r, v), c.g.Degree(v), c.epsilon);
  }

  lemma RatioAbove(x: real, d: real, e: real)
    requires d > 0.0
    ensures Ratio(x, d) > e <==> x > Share(e, d)
  {
    var q := x / d;
    assert q * d == x;
    if q > e { ShareStrict(e, q, d); } else { ShareWeak(q, e, d); }
  }

  lemma ShareStrict(a: real, b: real, d: real)
    requires a < b && d > 0.0
    ensures Share(a, d) < Share(b, d)
  {
  }

  lemma ShareWeak(a: real, b: real, d: real)
    requires a <= b && d >= 0.0
    ensures Share(a, d) <= Share(b, d)
  {
  }

  lemma InvStep(c: Params, s: State)
    requires Sensible(c) && Inv(c, s) && s.queue != []
    ensures Inv(c, Step(c, s))
  {
    hide Share, Ratio;
    var u, t := Head(c, s), Step(c, s);
    StepBounded(c, s);
    assert s.queue == [u] + s.queue[1..];
    assert NoDup(s.queue[1..]);
    ActiveMeans(c, s.r, u);
    if Active(c, s.r, u) {
      var arcs, r1 := c.g.Arcs(u), s.r[u := 0.0];
      forall v: nat ensures At(r1, v) >= 0.0 { assert At(s.r, v) >= 0.0; }
      ShareSign(1.0 - c.alpha, At(s.r, u));
      SpreadEffect(r1, arcs, Share(1.0 - c.alpha, At(s.r, u)), c.g.Degree(u));
      EnqueueNoDup(c, t.r, s.queue[1..], arcs);
      EnqueueMembers(c, t.r, s.queue[1..], arcs);
      forall v: nat | v < c.g.N() && Active(c, t.r, v) ensures v in t.queue {
        ActiveMeans(c, t.r, v);
        if i :| 0 <= i < |arcs| && arcs[i].to == v {
        } else {
          assert At(t.r, v) == At(r1, v);
          ShareSign(c.epsilon, c.g.Degree(v));
          assert v != u;
          assert At(s.r, v) == At(t.r, v);
          ActiveMeans(c, s.r, v);
          assert v in s.queue;
        }
      }
      ShareSign(c.epsilon, c.g.Degree(u));
      ShareSign(c.alpha, At(s.r, u));
    }
  }

  lemma {:induction false} InvAfter(c: Params, k: nat)
    requires Sensible(c)
    ensures Inv(c, After(c, k))
  {
    hide Share, Ratio;
    if k == 0 {
      forall v: nat | v < c.g.N() && Active(c, Init(c).r, v) ensures v == c.seed {
        ActiveMeans(c, Init(c).r, v);
        ShareSign(c.epsilon, c.g.Degree(v));
      }
    } else {
      InvAfter(c, k - 1);
      if After(c, k - 1).queue != [] { InvStep(c, After(c, k - 1)); }
    }
  }

  /** At every loop head the queue has no duplicates and holds every vertex whose residual
      exceeds epsilon times its degree, so an empty queue means every residual is small;
      and p is positive exactly on the vertices pushed from. */
  lemma QueueHoldsEveryActiveVertex(c: Params, k: nat)
    requires Sensible(c)
    ensures var s := After(c, k);
      && NoDup(s.queue)
      && (forall v: nat :: v < c.g.N() && At(s.r, v) > Share(c.epsilon, c.g.Degree(v)) ==> v in s.queue)
      && (s.queue == [] ==> forall v: nat :: v < c.g.N() ==> 0.0 <= At(s.r, v) <= Share(c.epsilon, c.g.Degree(v)))
      && (c.alpha > 0.0 ==> forall v: nat :: At(s.p, v) > 0.0 <==> v in s.log)
  {
    InvAfter(c, k);
    var s := After(c, k);
    forall v: nat | v < c.g.N() ensures Active(c, s.r, v) <==> At(s.r, v) > Share(c.epsilon, c.g.Degree(v)) {
      ActiveMeans(c, s.r, v);
    }
  }

  // ----- mass -----

  lemma MeanOfOne(c: Params, u: nat)
    requires c.Valid() && u < c.g.N()
    ensures NeighbourMean(c, u, One) == if |c.g.Arcs(u)| > 0 then 1.0 else 0.0
  {
    c.g.DegreePositive(u);
    if |c.g.Arcs(u)| > 0 {
      var d, m := c.g.Degree(u), NeighbourMean(c, u, One);
      assert forall i :: 0 <= i < |c.g.Arcs(u)| ==> One(c.g.Arcs(u)[i].to) == 1.0;
      ArcMeanOfConstant(c.g.Arcs(u), d, One);
      CancelFactor(m, d);
    }
  }

  lemma CancelFactor(m: real, d: real)
    requires d > 0.0 && Share(m, d) == d
    ensures m == 1.0
  {
  }

  ghost function Mass(c: Params, s: State): real { Total(c, s, One, One) }

  /** A push moves mass; only from a vertex without edges does the unpushed share get lost. */
  lemma PushMass(c: Params, s: State)
    requires c.Valid() && Bounded(c, s) && s.queue != []
    ensures var u := Head(c, s);
      Mass(c, Step(c, s)) == Mass(c, s) -
        (if Active(c, s.r, u) && |c.g.Arcs(u)| == 0 then Share(1.0 - c.alpha, At(s.r, u)) else 0.0)
  {
    hide Share, Ratio;
    var u := Head(c, s);
    if Active(c, s.r, u) {
      PushTotal(c, s, u, One, One);
      MeanOfOne(c, u);
      LostShare(c.alpha, At(s.r, u));
    }
  }

  lemma LostShare(alpha: real, ru: real)
    ensures Share(ru, Share(alpha, 1.0) + Share(1.0 - alpha, 0.0) - 1.0) == -Share(1.0 - alpha, ru)
    ensures Share(ru, Share(alpha, 1.0) + Share(1.0 - alpha, 1.0) - 1.0) == 0.0
  {
  }

  lemma MassStart(c: Params)
    requires c.Valid()
    ensures Mass(c, Init(c)) == 1.0
  {
    DotSingle(c.g.N(), c.seed, One);
  }

  /** Every queued vertex has an edge once the seed has one: arcs are listed at both ends. */
  lemma {:induction false} QueuedHaveEdges(c: Params, k: nat)
    requires c.Valid() && |c.g.Arcs(c.seed)| > 0
    ensures forall v :: v in After(c, k).queue ==> |c.g.Arcs(v)| > 0
  {
    if k > 0 {
      QueuedHaveEdges(c, k - 1);
      var s, t := After(c, k - 1), After(c, k);
      if s.queue != [] {
        var u := Head(c, s);
        assert forall v :: v in s.queue[1..] ==> v in s.queue;
        if Active(c, s.r, u) {
          var arcs := c.g.Arcs(u);
          EnqueueMembers(c, t.r, s.queue[1..], arcs);
          forall v | v in t.queue ensures |c.g.Arcs(v)| > 0 {
            if v !in s.queue[1..] {
              var i :| 0 <= i < |arcs| && arcs[i].to == v;
              c.g.ReachedHasEdges(u, i);
            }
          }
        }
      }
    }
  }

  /** The documented conservation law, exactly: from a seed with an edge, sum(p) + sum(r) is
      1 at every loop head; from an isolated seed, the one push there keeps only alpha. */
  lemma {:induction false} MassConserved(c: Params, k: nat)
    requires c.Valid()
    ensures |c.g.Arcs(c.seed)| > 0 ==> Mass(c, After(c, k)) == 1.0
    ensures |c.g.Arcs(c.seed)| == 0 && k > 0 ==>
      After(c, k).queue == [] && Mass(c, After(c, k)) == if 1.0 > c.epsilon then c.alpha else 1.0
  {
    hide Share, Ratio, Mass, Step;
    if k == 0 {
      MassStart(c);
    } else {
      MassConserved(c, k - 1);
      var s := After(c, k - 1);
      if |c.g.Arcs(c.seed)| > 0 {
        QueuedHaveEdges(c, k - 1);
        if s.queue != [] {
          assert Head(c, s) in s.queue;
          PushMass(c, s);
        }
      } else if k == 1 {
        IsolatedPush(c);
      }
    }
  }

  /** The only step from a seed without edges. */
  lemma IsolatedPush(c: Params)
    requires c.Valid() && |c.g.Arcs(c.seed)| == 0
    ensures Step(c, Init(c)).queue == []
    ensures Mass(c, Step(c, Init(c))) == if 1.0 > c.epsilon then c.alpha else 1.0
  {
    hide Share, Ratio, Mass;
    MassStart(c);
    PushMass(c, Init(c));
    c.g.DegreePositive(c.seed);
    UnitRatio(1.0 - c.alpha);
  }

  lemma UnitRatio(x: real)
    ensures Ratio(1.0, 1.0) == 1.0 && Share(x, 1.0) == x
  {
  }

  lemma {:induction false} MassAtMostOne(c: Params, k: nat)
    requires Sensible(c)
    ensures Mass(c, After(c, k)) <= 1.0
  {
    MassConserved(c, k);
    if k == 0 { MassStart(c); }
  }

  // ----- work -----

  ghost predicate InGraph(c: Params, log: seq<nat>) {
    forall i :: 0 <= i < |log| ==> log[i] < c.g.N()
  }

  ghost function Work(c: Params, log: seq<nat>): real
    requires c.Valid() && InGraph(c, log)
  {
    if log == [] then 0.0
    else
      Work(c, log[..|log| - 1]) + c.g.Degree(log[|log| - 1])
  }

  /** Every push has banked more than alpha * epsilon times the degree it cost. */
  ghost predicate Banked(c: Params, s: State)
    requires c.Valid()
  {
    && InGraph(c, s.log)
    && Share(c.alpha, Share(c.epsilon, Work(c, s.log))) <= Dot(c.g.N(), s.p, One)
    && (s.log != [] ==> Share(c.alpha, Share(c.epsilon, Work(c, s.log))) < Dot(c.g.N(), s.p, One))
  }

  lemma {:induction false} WorkIsBanked(c: Params, k: nat)
    requires Sensible(c) && c.alpha > 0.0
    ensures Banked(c, After(c, k))
  {
    hide Banked, Inv;
    if k == 0 {
      WorkStart(c);
    } else {
      WorkIsBanked(c, k - 1);
      InvAfter(c, k - 1);
      if After(c, k - 1).queue != [] { WorkStep(c, After(c, k - 1)); }
    }
  }

  lemma WorkStart(c: Params)
    requires c.Valid()
    ensures Banked(c, Init(c))
  {
    hide Share;
    DotSingle(c.g.N(), c.seed, One);
    ShareZero(c.epsilon);
    ShareZero(c.alpha);
  }

  lemma WorkStep(c: Params, s: State)
    requires Sensible(c) && c.alpha > 0.0 && Inv(c, s) && s.queue != [] && Banked(c, s)
    ensures Banked(c, Step(c, s))
  {
    hide Share, Ratio;
    var u, t := Head(c, s), Step(c, s);
    if Active(c, s.r, u) {
      var ru, d, w := At(s.r, u), c.g.Degree(u), Work(c, s.log);
      PushPDot(c, s, u, One);
      assert t.log[..|t.log| - 1] == s.log && t.log[|t.log| - 1] == u;
      assert Work(c, t.log) == w + d;
      ActiveMeans(c, s.r, u);
      BankedAlgebra(c.alpha, c.epsilon, w, d, ru);
      assert One(u) == 1.0;
    }
  }

  lemma BankedAlgebra(alpha: real, epsilon: real, w: real, d: real, ru: real)
    requires alpha > 0.0 && Share(epsilon, d) < ru
    ensures Share(alpha, Share(epsilon, w + d)) < Share(alpha, Share(epsilon, w)) + Share(Share(alpha, ru), 1.0)
  {
    assert epsilon * (w + d) == epsilon * w + epsilon * d;
    ShareStrict(Share(epsilon, d), ru, alpha);
    assert alpha * (epsilon * w + epsilon * d) == alpha * (epsilon * w) + alpha * (epsilon * d);
  }

  lemma WorkBudget(c: Params, k: nat)
    requires Sensible(c) && c.alpha > 0.0
    ensures InGraph(c, After(c, k).log)
    ensures Share(c.alpha, Share(c.epsilon, Work(c, After(c, k).log))) < 1.0
  {
    hide Share, Ratio;
    var s := After(c, k);
    InvAfter(c, k);
    WorkIsBanked(c, k);
    MassAtMostOne(c, k);
    DotNonNegative(c.g.N(), s.r, One);
    ShareZero(c.epsilon);
    ShareZero(c.alpha);
  }

  /** Work is local: the weighted degrees of all pushes, repetitions included, sum to less
      than 1 / (alpha * epsilon), whatever the size of the graph. */
  lemma WorkBound(c: Params, k: nat)
    requires Sensible(c) && c.alpha > 0.0 && c.epsilon > 0.0
    ensures InGraph(c, After(c, k).log)
    ensures Work(c, After(c, k).log) < 1.0 / (c.alpha * c.epsilon)
  {
    hide After, Work;
    WorkBudget(c, k);
    BelowQuotient(Work(c, After(c, k).log), c.alpha, c.epsilon);
  }

  lemma BelowQuotient(x: real, a: real, e: real)
    requires a > 0.0 && e > 0.0
    ensures a * e > 0.0
    ensures Share(a, Share(e, x)) < 1.0 <==> x < 1.0 / (a * e)
  {
    var ae := a * e;
    var q := 1.0 / ae;
    assert q * ae == 1.0;
    assert a * (e * x) == x * ae;
    if x < q { ShareStrict(x, q, ae); } else { ShareWeak(q, x, ae); }
  }

  lemma {:induction false} WorkAtLeast(c: Params, log: seq<nat>, low: real)
    requires c.Valid() && InGraph(c, log)
    requires forall i :: 0 <= i < |log| ==> c.g.Degree(log[i]) >= low
    ensures Work(c, log) >= Share(|log| as real, low)
  {
    hide Share, Ratio;
    if log == [] {
      ShareZero(low);
    } else {
      var init := log[..|log| - 1];
      WorkAtLeast(c, init, low);
      OneMore(|init|, low);
    }
  }

  lemma OneMore(n: nat, low: real)
    ensures Share((n + 1) as real, low) == Share(n as real, low) + low
  {
    assert (n + 1) as real == n as real + 1.0;
  }

  /** The safety cap is not what ends the loop when cap * alpha * epsilon times the least pushed
      degree is at least 1: the queue is empty, fewer than cap pushes were made, and any larger cap
      gives the same result. */
  lemma CapNeverBinds(c: Params, cap: nat, low: real)
    requires Sensible(c) && c.alpha > 0.0 && c.epsilon > 0.0 && low > 0.0
    requires forall v: nat :: v in Final(c, cap).log ==> v < c.g.N() && c.g.Degree(v) >= low
    requires (cap as real) * c.alpha * c.epsilon * low >= 1.0
    ensures Final(c, cap).queue == [] && |Final(c, cap).log| < cap
    ensures forall cap': nat :: cap' >= cap ==> Final(c, cap') == Final(c, cap)
  {
    FewerThanCap(c, cap, low);
    hide Run;
    forall cap': nat | cap' >= cap ensures Final(c, cap') == Final(c, cap) {
      SlackCap(c, Init(c), cap, cap');
    }
  }

  lemma FewerThanCap(c: Params, cap: nat, low: real)
    requires Sensible(c) && c.alpha > 0.0 && c.epsilon > 0.0 && low > 0.0
    requires forall v: nat :: v in Final(c, cap).log ==> v < c.g.N() && c.g.Degree(v) >= low
    requires (cap as real) * c.alpha * c.epsilon * low >= 1.0
    ensures |Final(c, cap).log| < cap
  {
    FourFactors(cap as real, c.alpha, c.epsilon, low);
    hide Share, Ratio, Work, Run, After;
    var log := Final(c, cap).log;
    FinalWork(c, cap);
    WorkAtLeast(c, log, low);
    CapAlgebra(cap, |log|, c.alpha, c.epsilon, low, Work(c, log));
  }

  /** The work budget at the end of the capped loop. */
  lemma FinalWork(c: Params, cap: nat)
    requires Sensible(c) && c.alpha > 0.0
    ensures InGraph(c, Final(c, cap).log)
    ensures Share(c.alpha, Share(c.epsilon, Work(c, Final(c, cap).log))) < 1.0
  {
    var k := RunIsAfter(c, 0, cap);
    assert After(c, 0) == Init(c);
    hide Share, Work, Run, After;
    WorkBudget(c, k);
  }

  lemma FourFactors(cap: real, a: real, e: real, low: real)
    ensures cap * a * e * low == Share(a, Share(e, Share(cap, low)))
  {
    assert e * (cap * low) == (cap * e) * low;
    assert a * ((cap * e) * low) == (a * (cap * e)) * low;
    assert a * (cap * e) == cap * a * e;
  }

  /** At least cap pushes of degree at least low would have used up the budget. */
  lemma CapAlgebra(cap: nat, n: nat, a: real, e: real, low: real, work: real)
    requires a > 0.0 && e > 0.0 && low > 0.0 && Share(n as real, low) <= work
    requires Share(a, Share(e, Share(cap as real, low))) >= 1.0
    ensures cap <= n ==> Share(a, Share(e, work)) >= 1.0
  {
    hide Share;
    if cap <= n {
      ShareWeak(cap as real, n as real, low);
      ShareWeakRight(e, Share(cap as real, low), work);
      ShareWeakRight(a, Share(e, Share(cap as real, low)), Share(e, work));
    }
  }

  lemma ShareWeakRight(k: real, a: real, b: real)
    requires a <= b && k >= 0.0
    ensures Share(k, a) <= Share(k, b)
  {
  }

  /** Every vertex of the graph has at least this degree. */
  ghost predicate DegreeFloor(g: Graph, low: real)
    requires g.Valid()
  {
    low > 0.0 && forall v: nat :: v < g.N() ==> g.Degree(v) >= low
  }

  /** What a caller can see beforehand: with a floor on the graph's degrees the cap is out of reach. */
  lemma CapOutOfReach(c: Params, cap: nat, low: real)
    requires Sensible(c) && c.alpha > 0.0 && c.epsilon > 0.0 && DegreeFloor(c.g, low)
    requires (cap as real) * c.alpha * c.epsilon * low >= 1.0
    ensures Final(c, cap).queue == [] && |Final(c, cap).log| < cap
    ensures forall cap': nat :: cap' >= cap ==> Final(c, cap') == Final(c, cap)
  {
    FinalWork(c, cap);
    forall v: nat | v in Final(c, cap).log ensures v < c.g.N() && c.g.Degree(v) >= low {
      var i :| 0 <= i < |Final(c, cap).log| && Final(c, cap).log[i] == v;
    }
    CapNeverBinds(c, cap, low);
  }

  lemma {:induction false} LeastDegree(g: Graph, n: nat) returns (low: real)
    requires g.Valid() && n <= g.N()
    ensures low > 0.0 && forall v: nat :: v < n ==> g.Degree(v) >= low
  {
    if n == 0 {
      low := 1.0;
    } else {
      low := LeastDegree(g, n - 1);
      g.DegreePositive(n - 1);
      if g.Degree(n - 1) < low { low := g.Degree(n - 1); }
    }
  }

  /** A cap large enough for given parameters. */
  lemma LargeEnough(a: real, e: real, low: real) returns (cap: nat)
    requires a > 0.0 && e > 0.0 && low > 0.0
    ensures (cap as real) * a * e * low >= 1.0
  {
    FourFactors(1.0, a, e, low);
    ShareSign(1.0, low);
    ShareSign(e, low);
    ShareSign(a, Share(e, low));
    var ael := Share(a, Share(e, low));
    var x := Ratio(1.0, ael);
    assert x * ael == 1.0;
    RatioAbove(1.0, ael, 0.0);
    ShareZero(ael);
    cap := x.Floor + 1;
    ShareWeak(x, cap as real, ael);
    assert (cap as real) * (a * (e * low)) == (cap as real) * a * e * low;
  }

  /** Without any cap the loop still ends, on every graph. */
  lemma LoopEnds(c: Params) returns (k: nat)
    requires Sensible(c) && c.alpha > 0.0 && c.epsilon > 0.0
    ensures After(c, k).queue == []
  {
    var low := LeastDegree(c.g, c.g.N());
    var cap := LargeEnough(c.alpha, c.epsilon, low);
    CapOutOfReach(c, cap, low);
    k := RunIsAfter(c, 0, cap);
    assert After(c, 0) == Init(c);
  }

  /** A run that ends with an empty queue is unchanged by a larger cap. */
  lemma {:induction false} SlackCap(c: Params, s: State, cap: nat, cap': nat)
    requires c.Valid() && Bounded(c, s) && cap <= cap'
    requires Run(c, s, cap).queue == []
    ensures Run(c, s, cap') == Run(c, s, cap)
    decreases if |s.log| < cap' then cap' - |s.log| else 0, |s.queue|
  {
    if s.queue != [] && |s.log| < cap {
      StepBounded(c, s);
      SlackCap(c, Step(c, s), cap, cap');
    }
  }

  // ----- accuracy -----

  /** Total degree of the vertices that still hold a residual. */
  ghost function SupportDegree(c: Params, s: State): real
    requires c.Valid()
  {
    Sum(c.g.N(), SupportTerm(c, s))
  }

  ghost function SupportTerm(c: Params, s: State): nat -> real
    requires c.Valid()
  {
    (v: nat) => if v < c.g.N() && At(s.r, v) > 0.0 then c.g.Degree(v) else 0.0
  }

  /** Once the queue is empty, the estimate is below the exact answer by at most
      epsilon * M * (total degree of the residual's support), and never above it. */
  lemma EstimateError(c: Params, k: nat, b: nat -> real, f: nat -> real, M: real)
    requires Sensible(c) && Solves(c, b, f)
    requires forall v: nat :: v < c.g.N() ==> 0.0 <= f(v) <= M
    requires After(c, k).queue == []
    ensures var s := After(c, k);
      0.0 <= f(c.seed) - Dot(c.g.N(), s.p, b) <= Share(Share(c.epsilon, M), SupportDegree(c, s))
  {
    hide Share, Ratio;
    var s, n := After(c, k), c.g.N();
    ExactAnswerInvariant(c, b, f, k);
    QueueHoldsEveryActiveVertex(c, k);
    DotNonNegative(n, s.r, f);
    var e := Share(c.epsilon, M);
    var g := (v: nat) => Share(e, SupportTerm(c, s)(v));
    forall v: nat | v < n ensures Weighted(s.r, f)(v) <= g(v) {
      ResidualTerm(At(s.r, v), f(v), M, c.epsilon, c.g.Degree(v));
      assert g(v) == Share(e, SupportTerm(c, s)(v));
    }
    SumMonotone(n, Weighted(s.r, f), g);
    SumScaled(n, e, SupportTerm(c, s), g);
  }

  /** The same for what the capped loop returns, from a floor on the degrees of the graph. */
  lemma FinalEstimate(c: Params, cap: nat, low: real, b: nat -> real, f: nat -> real, M: real)
    requires Sensible(c) && c.alpha > 0.0 && c.epsilon > 0.0 && DegreeFloor(c.g, low)
    requires (cap as real) * c.alpha * c.epsilon * low >= 1.0
    requires Solves(c, b, f) && forall v: nat :: v < c.g.N() ==> 0.0 <= f(v) <= M
    ensures Final(c, cap).queue == []
    ensures var t := Final(c, cap);
      0.0 <= f(c.seed) - Dot(c.g.N(), t.p, b) <= Share(Share(c.epsilon, M), SupportDegree(c, t))
  {
    CapOutOfReach(c, cap, low);
    var k := RunIsAfter(c, 0, cap);
    assert After(c, 0) == Init(c);
    hide Solves, DegreeFloor;
    EstimateError(c, k, b, f, M);
  }

  lemma ResidualTerm(r: real, f: real, M: real, epsilon: real, d: real)
    requires 0.0 <= r <= Share(epsilon, d) && 0.0 <= f <= M
    ensures Share(r, f) <= Share(Share(epsilon, M), if r > 0.0 then d else 0.0)
  {
    ShareWeak(r, Share(epsilon, d), f);
    ShareWeak(f, M, Share(epsilon, d));
    assert (epsilon * d) * M == (epsilon * M) * d;
  }
}
