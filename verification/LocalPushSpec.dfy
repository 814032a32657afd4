/** The local-push loop as a function on states: one step pops a vertex and either
    drops it (its residual is small enough) or pushes it
    (scoring/app/local_push.py:38-54, 69-97). */
module LocalPushSpec {
  import opened RealSums
  import opened WeightedGraph

  /** p and r as in the source, the queue, and the vertices pushed so far in order. */
  datatype State = State(p: map<nat, real>, r: map<nat, real>, queue: seq<nat>, log: seq<nat>)

  /** The inputs of one run. */
  datatype Params = Params(g: Graph, seed: nat, alpha: real, epsilon: real) {
    ghost predicate Valid() { g.Valid() && seed < g.N() }
  }

  function Init(c: Params): State {
    State(map[], map[c.seed := 1.0], [c.seed], [])
  }

  /** Hands mass * (w / d) to the far end of every arc, in order. */
  function Spread(r: map<nat, real>, arcs: seq<Arc>, mass: real, d: real): map<nat, real>
    requires d != 0.0
  {
    if arcs == [] then r
    else
      var a := arcs[|arcs| - 1];
      Bump(Spread(r, arcs[..|arcs| - 1], mass, d), a.to, Share(mass, Ratio(a.weight, d)))
  }

  lemma SpreadNext(r: map<nat, real>, arcs: seq<Arc>, i: nat, mass: real, d: real)
    requires d != 0.0 && i < |arcs|
    ensures Spread(r, arcs[..i + 1], mass, d)
      == Bump(Spread(r, arcs[..i], mass, d), arcs[i].to, Share(mass, Ratio(arcs[i].weight, d)))
  {
    assert arcs[..i + 1][..i] == arcs[..i];
  }

  predicate Active(c: Params, r: map<nat, real>, v: nat)
    requires c.Valid() && v < c.g.N()
  {
    c.g.DegreePositive(v);
    Ratio(At(r, v), c.g.Degree(v)) > c.epsilon
  }

  /** Appends to the queue the far ends that became active and are not queued yet. */
  function Enqueue(c: Params, r: map<nat, real>, queue: seq<nat>, arcs: seq<Arc>): seq<nat>
    requires c.Valid()
    requires forall i :: 0 <= i < |arcs| ==> arcs[i].to < c.g.N()
  {
    if arcs == [] then queue
    else
      var v := arcs[|arcs| - 1].to;
      var q := Enqueue(c, r, queue, arcs[..|arcs| - 1]);
      if Active(c, r, v) && v !in q then q + [v] else q
  }

  function PushP(c: Params, s: State, u: nat): map<nat, real> {
    Bump(s.p, u, Share(c.alpha, At(s.r, u)))
  }

  function PushR(c: Params, s: State, u: nat): map<nat, real>
    requires c.Valid() && u < c.g.N()
  {
    c.g.DegreePositive(u);
    Spread(s.r[u := 0.0], c.g.Arcs(u), Share(1.0 - c.alpha, At(s.r, u)), c.g.Degree(u))
  }

  predicate Bounded(c: Params, s: State) {
    forall v :: v in s.queue ==> v < c.g.N()
  }

  /** The vertex popped next. */
  function Head(c: Params, s: State): (u: nat)
    requires c.Valid() && Bounded(c, s) && s.queue != []
    ensures u < c.g.N()
  {
    assert s.queue[0] in s.queue;
    s.queue[0]
  }

  function Step(c: Params, s: State): State
    requires c.Valid() && Bounded(c, s) && s.queue != []
  {
    var u := Head(c, s);
    if !Active(c, s.r, u) then s.(queue := s.queue[1..])
    else
      var r' := PushR(c, s, u);
      State(PushP(c, s, u), r', Enqueue(c, r', s.queue[1..], c.g.Arcs(u)), s.log + [u])
  }

  lemma {:induction false} EnqueueMembers(c: Params, r: map<nat, real>, queue: seq<nat>, arcs: seq<Arc>)
    requires c.Valid()
    requires forall i :: 0 <= i < |arcs| ==> arcs[i].to < c.g.N()
    ensures forall v :: v in queue ==> v in Enqueue(c, r, queue, arcs)
    ensures forall v :: v in Enqueue(c, r, queue, arcs) && v !in queue ==>
      exists i :: 0 <= i < |arcs| && arcs[i].to == v
    ensures forall i :: 0 <= i < |arcs| && Active(c, r, arcs[i].to) ==> arcs[i].to in Enqueue(c, r, queue, arcs)
  {
    if arcs != [] {
      var init := arcs[..|arcs| - 1];
      EnqueueMembers(c, r, queue, init);
      forall v | v in Enqueue(c, r, queue, arcs) && v !in queue
        ensures exists i :: 0 <= i < |arcs| && arcs[i].to == v
      {
        if v in Enqueue(c, r, queue, init) {
          var i :| 0 <= i < |init| && init[i].to == v;
          assert arcs[i].to == v;
        } else {
          assert arcs[|arcs| - 1].to == v;
        }
      }
      forall i | 0 <= i < |arcs| && Active(c, r, arcs[i].to)
        ensures arcs[i].to in Enqueue(c, r, queue, arcs)
      {
        if i < |init| { assert init[i].to in Enqueue(c, r, queue, init); }
      }
    }
  }

  ghost predicate NoDup(q: seq<nat>) {
    forall i, j :: 0 <= i < j < |q| ==> q[i] != q[j]
  }

  lemma {:induction false} EnqueueNoDup(c: Params, r: map<nat, real>, queue: seq<nat>, arcs: seq<Arc>)
    requires c.Valid() && NoDup(queue)
    requires forall i :: 0 <= i < |arcs| ==> arcs[i].to < c.g.N()
    ensures NoDup(Enqueue(c, r, queue, arcs))
  {
    if arcs != [] { EnqueueNoDup(c, r, queue, arcs[..|arcs| - 1]); }
  }

  lemma StepBounded(c: Params, s: State)
    requires c.Valid() && Bounded(c, s) && s.queue != []
    ensures Bounded(c, Step(c, s))
  {
    var u := Head(c, s);
    assert forall v :: v in s.queue[1..] ==> v in s.queue;
    if Active(c, s.r, u) {
      var arcs := c.g.Arcs(u);
      EnqueueMembers(c, PushR(c, s, u), s.queue[1..], arcs);
      forall v | v in Step(c, s).queue ensures v < c.g.N() {
        if v !in s.queue[1..] {
          var i :| 0 <= i < |arcs| && arcs[i].to == v;
        }
      }
    }
  }

  /** The loop: step until the queue is empty or `cap` pushes have been made. */
  function Run(c: Params, s: State, cap: nat): (t: State)
    requires c.Valid() && Bounded(c, s)
    ensures t.queue == [] || |t.log| >= cap
    ensures Bounded(c, t)
    decreases if |s.log| < cap then cap - |s.log| else 0, |s.queue|
  {
    if s.queue == [] || |s.log| >= cap then s
    else StepBounded(c, s); Run(c, Step(c, s), cap)
  }

  /** The state in which the loop ends. */
  function Final(c: Params, cap: nat): (t: State)
    requires c.Valid()
    ensures t.queue == [] || |t.log| >= cap
  {
    Run(c, Init(c), cap)
  }

  /** The state at the loop head after k iterations (the last one once the queue is empty). */
  function After(c: Params, k: nat): (s: State)
    requires c.Valid()
    ensures Bounded(c, s)
  {
    if k == 0 then Init(c)
    else
      var s := After(c, k - 1);
      if s.queue == [] then s else StepBounded(c, s); Step(c, s)
  }

  /** The capped loop ends in one of these states. */
  lemma {:induction false} RunIsAfter(c: Params, k: nat, cap: nat) returns (j: nat)
    requires c.Valid()
    ensures Run(c, After(c, k), cap) == After(c, j)
    decreases if |After(c, k).log| < cap then cap - |After(c, k).log| else 0, |After(c, k).queue|
  {
    var s := After(c, k);
    if s.queue == [] || |s.log| >= cap {
      j := k;
    } else {
      assert After(c, k + 1) == Step(c, s);
      j := RunIsAfter(c, k + 1, cap);
    }
  }
}
