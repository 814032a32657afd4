/** The push loop only ever looks at the edges of the vertices it pushes and at the degrees
    of their neighbours, so the rest of the graph cannot influence its result
    (scoring/app/local_push.py:38-54, 69-97). */
module LocalPushLocality {
  import opened RealSums
  import opened WeightedGraph
  import opened LocalPushSpec

  /** The two runs see the same edges at u and the same degrees at the far ends. */
  ghost predicate AgreeAt(c1: Params, c2: Params, u: nat)
    requires c1.Valid() && c2.Valid()
  {
    && u < c1.g.N() && u < c2.g.N()
    && c1.g.Arcs(u) == c2.g.Arcs(u)
    && forall i :: 0 <= i < |c1.g.Arcs(u)| ==> SameDegree(c1, c2, c1.g.Arcs(u)[i].to)
  }

  ghost predicate SameDegree(c1: Params, c2: Params, v: nat)
    requires c1.Valid() && c2.Valid()
  {
    v < c1.g.N() && v < c2.g.N() && c1.g.Degree(v) == c2.g.Degree(v)
  }

  ghost predicate SameInputs(c1: Params, c2: Params) {
    && c1.Valid() && c2.Valid()
    && c1.seed == c2.seed && c1.alpha == c2.alpha && c1.epsilon == c2.epsilon
  }

  ghost predicate QueueAgrees(c1: Params, c2: Params, s: State)
    requires c1.Valid() && c2.Valid()
  {
    forall v :: v in s.queue ==> SameDegree(c1, c2, v)
  }

  lemma {:induction false} EnqueueSame(c1: Params, c2: Params, r: map<nat, real>, queue: seq<nat>, arcs: seq<Arc>)
    requires SameInputs(c1, c2)
    requires forall i :: 0 <= i < |arcs| ==> arcs[i].to < c1.g.N() && arcs[i].to < c2.g.N()
    requires forall i :: 0 <= i < |arcs| ==> SameDegree(c1, c2, arcs[i].to)
    ensures Enqueue(c1, r, queue, arcs) == Enqueue(c2, r, queue, arcs)
  {
    if arcs != [] {
      var init := arcs[..|arcs| - 1];
      assert forall i :: 0 <= i < |init| ==> init[i] == arcs[i];
      assert SameDegree(c1, c2, arcs[|arcs| - 1].to);
      EnqueueSame(c1, c2, r, queue, init);
    }
  }

  lemma StepSame(c1: Params, c2: Params, s: State)
    requires SameInputs(c1, c2) && Bounded(c1, s) && Bounded(c2, s) && s.queue != []
    requires QueueAgrees(c1, c2, s)
    requires Active(c1, s.r, Head(c1, s)) ==> AgreeAt(c1, c2, Head(c1, s))
    ensures Step(c1, s) == Step(c2, s)
    ensures QueueAgrees(c1, c2, Step(c1, s))
  {
    var u := Head(c1, s);
    assert u in s.queue && SameDegree(c1, c2, u);
    assert Active(c1, s.r, u) == Active(c2, s.r, u);
    assert forall v :: v in s.queue[1..] ==> v in s.queue;
    if Active(c1, s.r, u) { PushSame(c1, c2, s, u); }
  }

  lemma PushSame(c1: Params, c2: Params, s: State, u: nat)
    requires SameInputs(c1, c2) && AgreeAt(c1, c2, u) && SameDegree(c1, c2, u)
    requires s.queue != [] && forall v :: v in s.queue[1..] ==> SameDegree(c1, c2, v)
    ensures PushR(c1, s, u) == PushR(c2, s, u)
    ensures forall r ::
      Enqueue(c1, r, s.queue[1..], c1.g.Arcs(u)) == Enqueue(c2, r, s.queue[1..], c2.g.Arcs(u))
    ensures forall r, v :: v in Enqueue(c1, r, s.queue[1..], c1.g.Arcs(u)) ==> SameDegree(c1, c2, v)
  {
    hide Share, Ratio;
    var arcs, rest := c1.g.Arcs(u), s.queue[1..];
    c1.g.DegreePositive(u);
    forall r ensures Enqueue(c1, r, rest, arcs) == Enqueue(c2, r, rest, arcs) {
      EnqueueSame(c1, c2, r, rest, arcs);
    }
    forall r, v | v in Enqueue(c1, r, rest, arcs) ensures SameDegree(c1, c2, v) {
      EnqueueMembers(c1, r, rest, arcs);
      if v !in rest {
        var i :| 0 <= i < |arcs| && arcs[i].to == v;
      }
    }
  }

  /** Once pushed, always in the log. */
  lemma {:induction false} LogGrows(c: Params, s: State, cap: nat)
    requires c.Valid() && Bounded(c, s)
    ensures s.log <= Run(c, s, cap).log
    decreases if |s.log| < cap then cap - |s.log| else 0, |s.queue|
  {
    if s.queue != [] && |s.log| < cap {
      StepBounded(c, s);
      LogGrows(c, Step(c, s), cap);
      assert s.log <= Step(c, s).log;
    }
  }

  lemma {:induction false} RunSame(c1: Params, c2: Params, s: State, cap: nat)
    requires SameInputs(c1, c2) && Bounded(c1, s) && QueueAgrees(c1, c2, s)
    requires forall u :: u in Run(c1, s, cap).log ==> AgreeAt(c1, c2, u)
    ensures Bounded(c2, s)
    ensures Run(c1, s, cap) == Run(c2, s, cap)
    decreases if |s.log| < cap then cap - |s.log| else 0, |s.queue|
  {
    forall v | v in s.queue ensures v < c2.g.N() { assert SameDegree(c1, c2, v); }
    if s.queue != [] && |s.log| < cap {
      StepBounded(c1, s);
      var t := Step(c1, s);
      LogGrows(c1, t, cap);
      if Active(c1, s.r, Head(c1, s)) {
        assert t.log[|t.log| - 1] == Head(c1, s);
        assert Run(c1, t, cap).log[|t.log| - 1] == Head(c1, s);
        assert Head(c1, s) in Run(c1, s, cap).log;
      }
      StepSame(c1, c2, s);
      RunSame(c1, c2, t, cap);
    }
  }

  /** Locality: two graphs of any size that agree on the edges of every vertex pushed in the
      first run, on the degrees of those vertices' neighbours and on the degree of the seed,
      give the same estimate, the same residuals and the same pushes. */
  lemma Locality(c1: Params, c2: Params, cap: nat)
    requires SameInputs(c1, c2) && c1.g.Degree(c1.seed) == c2.g.Degree(c2.seed)
    requires forall u :: u in Final(c1, cap).log ==> AgreeAt(c1, c2, u)
    ensures Final(c1, cap) == Final(c2, cap)
  {
    RunSame(c1, c2, Init(c1), cap);
  }
}
