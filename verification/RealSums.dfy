/** Finite sums of real-valued functions over the vertices 0, 1, ..., n-1, and
    weighted sums of sparse real maps (a missing key counts as 0.0). */
module RealSums {

  ghost function Sum(n: nat, f: nat -> real): real {
    if n == 0 then 0.0 else Sum(n - 1, f) + f(n - 1)
  }

  /** k of x. Products of two variables are written this way throughout, so that equal
      products are equal terms and only the lemmas below need non-linear arithmetic. */
  function Share(k: real, x: real): real { k * x }

  lemma ShareZero(x: real)
    ensures Share(0.0, x) == 0.0 && Share(x, 0.0) == 0.0
  {
  }

  function Ratio(w: real, d: real): real
    requires d != 0.0
  {
    w / d
  }

  /** A dictionary read with default zero, as `m.get(v, 0.0)`. */
  function At(m: map<nat, real>, v: nat): real {
    if v in m then m[v] else 0.0
  }

  /** `m[v] = m.get(v, 0.0) + x`. */
  function Bump(m: map<nat, real>, v: nat, x: real): map<nat, real> {
    m[v := At(m, v) + x]
  }

  /** The weighted total of a sparse vector against a vertex function. */
  ghost function Dot(n: nat, m: map<nat, real>, b: nat -> real): real {
    Sum(n, Weighted(m, b))
  }

  ghost function Weighted(m: map<nat, real>, b: nat -> real): nat -> real {
    (v: nat) => Share(At(m, v), b(v))
  }

  function One(v: nat): real { 1.0 }

  function Zero(v: nat): real { 0.0 }

  lemma SumCongruent(n: nat, f: nat -> real, g: nat -> real)
    requires forall v: nat :: v < n ==> f(v) == g(v)
    ensures Sum(n, f) == Sum(n, g)
  {
  }

  lemma {:induction false} SumMonotone(n: nat, f: nat -> real, g: nat -> real)
    requires forall v: nat :: v < n ==> f(v) <= g(v)
    ensures Sum(n, f) <= Sum(n, g)
  {
    if n > 0 { SumMonotone(n - 1, f, g); }
  }

  lemma {:induction false} SumZero(n: nat, f: nat -> real)
    requires forall v: nat :: v < n ==> f(v) == 0.0
    ensures Sum(n, f) == 0.0
  {
    if n > 0 { SumZero(n - 1, f); }
  }

  lemma {:induction false} SumScaled(n: nat, k: real, f: nat -> real, g: nat -> real)
    requires forall v: nat :: v < n ==> g(v) == Share(k, f(v))
    ensures Sum(n, g) == Share(k, Sum(n, f))
  {
    if n > 0 { SumScaled(n - 1, k, f, g); }
  }

  /** Changing one summand changes the sum by exactly that difference. */
  lemma {:induction false} SumPoint(n: nat, f: nat -> real, g: nat -> real, u: nat)
    requires u < n
    requires forall v: nat :: v < n && v != u ==> f(v) == g(v)
    ensures Sum(n, f) == Sum(n, g) + f(u) - g(u)
  {
    if u == n - 1 {
      SumCongruent(n - 1, f, g);
    } else {
      SumPoint(n - 1, f, g, u);
    }
  }

  /** Raising one entry of a sparse vector by x raises its weighted total by x * b(u). */
  lemma DotBump(n: nat, m: map<nat, real>, u: nat, x: real, b: nat -> real)
    requires u < n
    ensures Dot(n, Bump(m, u, x), b) == Dot(n, m, b) + Share(x, b(u))
  {
    var m' := Bump(m, u, x);
    forall v: nat | v < n && v != u ensures Weighted(m', b)(v) == Weighted(m, b)(v) {
      assert At(m', v) == At(m, v);
    }
    SumPoint(n, Weighted(m', b), Weighted(m, b), u);
    assert (At(m, u) + x) * b(u) == At(m, u) * b(u) + x * b(u);
  }

  lemma DotNonNegative(n: nat, m: map<nat, real>, b: nat -> real)
    requires forall v: nat :: v < n ==> At(m, v) >= 0.0 && b(v) >= 0.0
    ensures Dot(n, m, b) >= 0.0
  {
    forall v: nat | v < n ensures 0.0 <= Share(At(m, v), b(v)) {}
    SumMonotone(n, Zero, Weighted(m, b));
    SumZero(n, Zero);
  }

  /** A vector with the single entry u carries all its weight there. */
  lemma DotSingle(n: nat, u: nat, b: nat -> real)
    requires u < n
    ensures Dot(n, map[u := 1.0], b) == b(u)
    ensures Dot(n, map[], b) == 0.0
  {
    var empty: map<nat, real> := map[];
    forall v: nat | v < n ensures Weighted(empty, b)(v) == 0.0 {
      assert At(empty, v) == 0.0;
      ShareZero(b(v));
    }
    SumZero(n, Weighted(empty, b));
    DotBump(n, empty, u, 1.0, b);
    assert Bump(empty, u, 1.0) == map[u := 1.0];
  }
}
