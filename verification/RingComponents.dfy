/** The components the detector works on: walks make an equivalence of the pruned graph's vertices,
    and so every graph has its components (scoring/app/detector.py:50-74). */
module RingComponents {
  import opened RingGraph
  import opened RingDetector

  lemma WalkToItself(g: Graph, limits: Thresholds, v: Vertex)
    requires Remains(g, limits, v)
    ensures Connected(g, limits, v, v)
  {
    assert Walk(g, limits, [v]);
  }

  lemma WalkBack(g: Graph, limits: Thresholds, u: Vertex, v: Vertex)
    requires Connected(g, limits, u, v)
    ensures Connected(g, limits, v, u)
  {
    hide Remains;
    var path :| Walk(g, limits, path) && path[0] == u && path[|path| - 1] == v;
    var n := |path|;
    var back := seq(n, i requires 0 <= i < n => path[n - 1 - i]);
    forall k | 0 <= k < n - 1 ensures Adjacent(g, limits, back[k], back[k + 1]) {
      assert Adjacent(g, limits, path[n - 2 - k], path[n - 2 - k + 1]);
    }
    WalkEnd(g, limits, path);
    assert Walk(g, limits, back);
  }

  lemma WalkEnd(g: Graph, limits: Thresholds, path: seq<Vertex>)
    requires Walk(g, limits, path)
    ensures Remains(g, limits, path[|path| - 1])
  {
    if |path| > 1 { assert Adjacent(g, limits, path[|path| - 2], path[|path| - 2 + 1]); }
  }

  lemma WalkOn(g: Graph, limits: Thresholds, u: Vertex, v: Vertex, w: Vertex)
    requires Connected(g, limits, u, v) && Connected(g, limits, v, w)
    ensures Connected(g, limits, u, w)
  {
    hide Adjacent, Remains;
    var first :| Walk(g, limits, first) && first[0] == u && first[|first| - 1] == v;
    var second :| Walk(g, limits, second) && second[0] == v && second[|second| - 1] == w;
    var path := first + second[1..];
    forall k | 0 <= k < |path| - 1 ensures Adjacent(g, limits, path[k], path[k + 1]) {
      if k < |first| - 1 {
        assert path[k] == first[k] && path[k + 1] == first[k + 1];
      } else {
        var m := k - (|first| - 1);
        assert path[k] == second[m] && path[k + 1] == second[m + 1];
      }
    }
    assert Walk(g, limits, path) && path[|path| - 1] == w;
  }

  /** The vertices of the pruned graph. */
  function Vertices(g: Graph, limits: Thresholds): set<Vertex> {
    (set c | c in g.claims :: ClaimVertex(c)) + set e | e in g.entities && !Pruned(g, limits, e) :: EntityVertex(e)
  }

  /** Connection closes the set. */
  ghost predicate Closed(g: Graph, limits: Thresholds, todo: set<Vertex>) {
    && (forall v :: v in todo ==> Remains(g, limits, v))
    && (forall u, v :: u in todo && Remains(g, limits, v) && Connected(g, limits, u, v) ==> v in todo)
  }

  /** Components of a closed set of vertices. */
  ghost predicate Split(g: Graph, limits: Thresholds, todo: set<Vertex>, components: seq<set<Vertex>>) {
    && (forall v :: v in todo <==> exists i: nat :: In(components, i, v))
    && (forall i: nat, j: nat, v :: In(components, i, v) && In(components, j, v) ==> i == j)
    && (forall i: nat, u, v :: In(components, i, u) && Remains(g, limits, v) ==>
          (In(components, i, v) <==> Connected(g, limits, u, v)))
  }

  lemma {:induction false} SplitExists(g: Graph, limits: Thresholds, todo: set<Vertex>)
      returns (components: seq<set<Vertex>>)
    requires Closed(g, limits, todo)
    ensures Split(g, limits, todo, components)
    decreases |todo|
  {
    hide Connected, Remains;
    if todo == {} {
      components := [];
    } else {
      var v :| v in todo;
      var own := ComponentIn(g, limits, todo, v);
      WalkToItself(g, limits, v);
      assert v in own;
      RestIsClosed(g, limits, todo, v);
      var others := SplitExists(g, limits, todo - own);
      components := [own] + others;
      OneMore(g, limits, todo, v, others);
    }
  }

  ghost function ComponentIn(g: Graph, limits: Thresholds, todo: set<Vertex>, v: Vertex): set<Vertex> {
    set u | u in todo && Connected(g, limits, v, u)
  }

  lemma RestIsClosed(g: Graph, limits: Thresholds, todo: set<Vertex>, v: Vertex)
    requires Closed(g, limits, todo)
    ensures Closed(g, limits, todo - ComponentIn(g, limits, todo, v))
  {
    hide Connected, Remains;
    var own := ComponentIn(g, limits, todo, v);
    forall u, w | u in todo - own && Remains(g, limits, w) && Connected(g, limits, u, w) ensures w in todo - own {
      if w in own {
        WalkBack(g, limits, u, w);
        WalkOn(g, limits, v, w, u);
      }
    }
  }

  lemma OneMore(g: Graph, limits: Thresholds, todo: set<Vertex>, v: Vertex, others: seq<set<Vertex>>)
    requires Closed(g, limits, todo) && v in todo
    requires Split(g, limits, todo - ComponentIn(g, limits, todo, v), others)
    ensures Split(g, limits, todo, [ComponentIn(g, limits, todo, v)] + others)
  {
    hide Connected, Remains;
    var own := ComponentIn(g, limits, todo, v);
    var all := [own] + others;
    forall i: nat, u ensures In(all, i, u) <==> if i == 0 then u in own else In(others, i - 1, u) {}
    forall u | u in todo ensures exists i: nat :: In(all, i, u) {
      if u in own {
        assert In(all, 0, u);
      } else {
        assert u in todo - own;
        var i: nat :| In(others, i, u);
        assert In(all, i + 1, u);
      }
    }
    forall i: nat, u | In(all, i, u) ensures u in todo {
      if i > 0 {
        assert In(others, i - 1, u);
        assert u in todo - own;
      } else {
        assert u in own;
      }
    }
    forall i: nat, j: nat, u | In(all, i, u) && In(all, j, u) ensures i == j {
      if i > 0 { assert In(others, i - 1, u); }
      if j > 0 { assert In(others, j - 1, u); }
    }
    forall i: nat, u, w | In(all, i, u) && Remains(g, limits, w) ensures In(all, i, w) <==> Connected(g, limits, u, w) {
      if i > 0 {
        assert In(others, i - 1, u);
      } else {
        WalkFrom(g, limits, v, u, w);
      }
    }
  }

  lemma WalkFrom(g: Graph, limits: Thresholds, v: Vertex, u: Vertex, w: Vertex)
    requires Connected(g, limits, v, u)
    ensures Connected(g, limits, v, w) <==> Connected(g, limits, u, w)
  {
    hide Connected;
    WalkBack(g, limits, v, u);
    if Connected(g, limits, v, w) { WalkOn(g, limits, u, v, w); }
    if Connected(g, limits, u, w) { WalkOn(g, limits, v, u, w); }
  }

  /** Every graph has its components, whatever the thresholds. */
  lemma ComponentsExist(g: Graph, limits: Thresholds) returns (components: seq<set<Vertex>>)
    ensures IsComponents(g, limits, components)
  {
    hide Connected, EdgeCount;
    var todo := Vertices(g, limits);
    forall v ensures v in todo <==> Remains(g, limits, v) {}
    components := SplitExists(g, limits, todo);
    hide Remains;
    forall i: nat, v | In(components, i, v) ensures Remains(g, limits, v) { assert v in todo; }
  }

  /** And they are the only ones: two lists of components have the same members. */
  lemma ComponentsUnique(g: Graph, limits: Thresholds, a: seq<set<Vertex>>, b: seq<set<Vertex>>,
      i: nat, j: nat, v: Vertex)
    requires IsComponents(g, limits, a) && IsComponents(g, limits, b) && In(a, i, v) && In(b, j, v)
    ensures a[i] == b[j]
  {
    hide Connected, Remains;
    forall u ensures u in a[i] <==> u in b[j] {
      assert u in a[i] <==> In(a, i, u);
      assert u in b[j] <==> In(b, j, u);
    }
  }
}
