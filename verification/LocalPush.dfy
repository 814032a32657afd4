/** The push loop in its own imperative form: dictionaries, a queue with a shadow set, a degree
    cache and a push counter, all updated in place (scoring/app/local_push.py:20-97). */
module LocalPush {
  import opened RealSums
  import opened WeightedGraph
  import opened LocalPushSpec

  const MAX_PUSHES: nat := 200_000
  const DEFAULT_ALPHA: real := 0.15
  const DEFAULT_EPSILON: real := 0.00001

  /** The dictionaries and the queue of one run. */
  class Pusher {
    const c: Params
    var p: map<nat, real>
    var r: map<nat, real>
    var degreeCache: map<nat, real>
    var queue: seq<nat>
    var inQueue: set<nat>
    var pushedFrom: set<nat>
    var pushes: nat
    ghost var log: seq<nat>

    ghost function Abs(): State
      reads this
    {
      State(p, r, queue, log)
    }

    /** The cache holds true degrees, the shadow set is the queue's contents, the pushed set
        and the counter describe the pushes made. */
    ghost predicate Valid()
      reads this
    {
      && c.Valid()
      && Bounded(c, Abs())
      && CacheValid()
      && NoDup(queue)
      && inQueue == (set v | v in queue)
      && pushedFrom == (set v | v in log)
      && pushes == |log|
    }

    ghost predicate CacheValid()
      reads `degreeCache
    {
      c.Valid() && forall v :: v in degreeCache ==> v < c.g.N() && degreeCache[v] == c.g.Degree(v)
    }

    constructor (params: Params)
      requires params.Valid()
      ensures c == params && Valid() && Abs() == Init(params)
    {
      c := params;
      p, r, degreeCache := map[], map[params.seed := 1.0], map[];
      queue, inQueue := [params.seed], {params.seed};
      pushedFrom, pushes, log := {}, 0, [];
    }

    method WeightedDegree(v: nat) returns (d: real)
      requires CacheValid() && v < c.g.N()
      modifies `degreeCache
      ensures CacheValid() && d == c.g.Degree(v) > 0.0
    {
      c.g.DegreePositive(v);
      if v !in degreeCache {
        ghost var arcs := c.g.Arcs(v);
        var total, i := 0.0, 0;
        while i < |c.g.incident[v]|
          invariant 0 <= i <= |arcs|
          invariant total == TotalWeight(arcs[..i])
        {
          assert c.g.ValidAt(v, c.g.incident[v][i]);
          assert arcs[..i + 1][..i] == arcs[..i];
          total := total + c.g.es[c.g.incident[v][i]].weight;
          i := i + 1;
        }
        assert arcs[..i] == arcs;
        degreeCache := degreeCache[v := if total > 0.0 then total else 1.0];
      }
      d := degreeCache[v];
    }

    /** Banks alpha of u's residual and hands the rest to its neighbours by edge weight. */
    method Push(u: nat) returns (newlyActive: seq<nat>)
      requires CacheValid() && u < c.g.N()
      modifies `p, `r, `degreeCache
      ensures CacheValid()
      ensures p == PushP(c, old(Abs()), u)
      ensures r == PushR(c, old(Abs()), u)
      ensures |newlyActive| == |c.g.Arcs(u)|
      ensures forall i :: 0 <= i < |newlyActive| ==> newlyActive[i] == c.g.Arcs(u)[i].to
    {
      hide Share, Ratio, TotalWeight, Spread;
      var du := WeightedDegree(u);
      var ru := At(r, u);
      p := p[u := At(p, u) + Share(c.alpha, ru)];
      var mass := Share(1.0 - c.alpha, ru);
      r := r[u := 0.0];
      newlyActive := HandOut(u, mass, du);
    }

    /** The loop of a push: each incident edge carries its share of the mass to its other end. */
    method HandOut(u: nat, mass: real, du: real) returns (newlyActive: seq<nat>)
      requires c.Valid() && u < c.g.N() && du != 0.0
      modifies `r
      ensures r == Spread(old(r), c.g.Arcs(u), mass, du)
      ensures |newlyActive| == |c.g.Arcs(u)|
      ensures forall i :: 0 <= i < |newlyActive| ==> newlyActive[i] == c.g.Arcs(u)[i].to
    {
      hide Share, Ratio, Graph.Valid, Graph.Arcs;
      newlyActive := [];
      ghost var arcs := c.g.Arcs(u);
      var i := 0;
      while i < |c.g.incident[u]|
        invariant 0 <= i <= |arcs| && |newlyActive| == i
        invariant r == Spread(old(r), arcs[..i], mass, du)
        invariant forall j :: 0 <= j < i ==> newlyActive[j] == arcs[j].to
      {
        var eid := c.g.incident[u][i];
        c.g.ArcAt(u, i);
        SpreadNext(old(r), arcs, i, mass, du);
        hide Spread;
        var edge := c.g.es[eid];
        var v := if edge.source == u then edge.target else edge.source;
        var share := Share(mass, Ratio(edge.weight, du));
        r := r[v := At(r, v) + share];
        newlyActive := newlyActive + [v];
        i := i + 1;
      }
      assert arcs[..i] == arcs;
    }

    /** Queues the neighbours that became active, as the loop at the end of an iteration does. */
    method EnqueueActive(vs: seq<nat>, ghost arcs: seq<Arc>)
      requires CacheValid() && |vs| == |arcs|
      requires forall i :: 0 <= i < |arcs| ==> arcs[i].to == vs[i] < c.g.N()
      requires inQueue == (set v | v in queue)
      modifies `queue, `inQueue, `degreeCache
      ensures CacheValid()
      ensures queue == Enqueue(c, r, old(queue), arcs)
      ensures inQueue == (set v | v in queue)
    {
      var i := 0;
      while i < |vs|
        invariant 0 <= i <= |vs|
        invariant CacheValid()
        invariant queue == Enqueue(c, r, old(queue), arcs[..i])
        invariant inQueue == (set v | v in queue)
      {
        assert arcs[..i + 1][..i] == arcs[..i];
        var dv := WeightedDegree(vs[i]);
        if Ratio(At(r, vs[i]), dv) > c.epsilon && vs[i] !in inQueue {
          queue := queue + [vs[i]];
          inQueue := inQueue + {vs[i]};
        }
        i := i + 1;
      }
      assert arcs[..i] == arcs;
    }

    /** One iteration of the loop. */
    method Iterate()
      requires Valid() && queue != []
      modifies this
      ensures Valid()
      ensures Abs() == Step(c, old(Abs()))
    {
      hide Spread, Enqueue, Graph.Valid, Graph.Arcs, Graph.Degree;
      StepBounded(c, Abs());
      var u := queue[0];
      assert u == Head(c, Abs()) && queue == [u] + queue[1..];
      queue := queue[1..];
      inQueue := inQueue - {u};
      var du := WeightedDegree(u);
      if Ratio(At(r, u), du) > c.epsilon {
        pushes := pushes + 1;
        var newlyActive := Push(u);
        pushedFrom, log := pushedFrom + {u}, log + [u];
        EnqueueNoDup(c, r, queue, c.g.Arcs(u));
        EnqueueActive(newlyActive, c.g.Arcs(u));
      }
    }

    /** The loop: it ends in the state the specification's run from here ends in. */
    method Loop(cap: nat)
      requires Valid()
      modifies this
      ensures Valid()
      ensures Abs() == Run(c, old(Abs()), cap)
    {
      while queue != [] && pushes < cap
        invariant Valid()
        invariant Run(c, Abs(), cap) == Run(c, old(Abs()), cap)
        decreases if pushes < cap then cap - pushes else 0, |queue|
      {
        Iterate();
      }
    }
  }

  /** The entry point: the sparse estimate and the set of vertices pushed from. */
  method LocalPushPpr(g: Graph, seed: nat, alpha: real := DEFAULT_ALPHA, epsilon: real := DEFAULT_EPSILON)
    returns (p: map<nat, real>, pushedFrom: set<nat>)
    requires g.Valid() && seed < g.N()
    ensures var t := Final(Params(g, seed, alpha, epsilon), MAX_PUSHES);
      p == t.p && pushedFrom == set v | v in t.log
  {
    var pusher := new Pusher(Params(g, seed, alpha, epsilon));
    pusher.Loop(MAX_PUSHES);
    return pusher.p, pusher.pushedFrom;
  }
}
