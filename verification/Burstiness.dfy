/** How tightly clustered in time a community's claims are (scoring/app/detector.py:86-97). */
module Burstiness {
  import opened Options

  const WINDOW_DAYS: int := 14

  /** The known dates, as day numbers. */
  function Known(dates: seq<Option<int>>): seq<int> {
    if dates == [] then []
    else
      var last := dates[|dates| - 1];
      Known(dates[..|dates| - 1]) + (if last.Some? then [last.value] else [])
  }

  lemma KnownSnoc(dates: seq<Option<int>>, d: int)
    requires dates != []
    ensures multiset(Known(dates))[d] ==
      multiset(Known(dates[..|dates| - 1]))[d] + (if dates[|dates| - 1] == Some(d) then 1 else 0)
  {
    var rest, last := Known(dates[..|dates| - 1]), dates[|dates| - 1];
    if last.Some? {
      assert multiset(rest + [last.value]) == multiset(rest) + multiset{last.value};
    } else {
      assert Known(dates) == rest;
    }
  }

  function Positions(dates: seq<Option<int>>, d: int): set<int> {
    set k | 0 <= k < |dates| && dates[k] == Some(d)
  }

  lemma PositionsSnoc(dates: seq<Option<int>>, d: int)
    requires dates != []
    ensures var n := |dates| - 1;
      |Positions(dates, d)| == |Positions(dates[..n], d)| + (if dates[n] == Some(d) then 1 else 0)
  {
    var n := |dates| - 1;
    var before := Positions(dates[..n], d);
    forall k ensures k in before <==> k in Positions(dates, d) && k != n {}
    assert Positions(dates, d) == if dates[n] == Some(d) then before + {n} else before;
  }

  /** Each known date appears as often as it is listed, the unknown ones not at all. */
  lemma {:induction false} KnownExactly(dates: seq<Option<int>>, d: int)
    ensures multiset(Known(dates))[d] == |set k | 0 <= k < |dates| && dates[k] == Some(d)|
  {
    assert Positions(dates, d) == set k | 0 <= k < |dates| && dates[k] == Some(d);
    if dates != [] {
      KnownSnoc(dates, d);
      PositionsSnoc(dates, d);
      hide Known, Positions;
      KnownExactly(dates[..|dates| - 1], d);
    }
  }

  predicate InWindow(start: int, d: int) { 0 <= d - start <= WINDOW_DAYS }

  /** How many of the days lie in the window from `start` on. */
  function CountIn(days: seq<int>, start: int): (n: nat)
    ensures n <= |days|
  {
    if days == [] then 0
    else CountIn(days[..|days| - 1], start) + (if InWindow(start, days[|days| - 1]) then 1 else 0)
  }

  function Fraction(count: nat, total: nat): real
    requires total > 0
  {
    count as real / total as real
  }

  method Count(days: seq<int>, start: int) returns (count: nat)
    ensures count == CountIn(days, start)
  {
    count := 0;
    for k := 0 to |days|
      invariant count == CountIn(days[..k], start)
    {
      assert days[..k + 1][..k] == days[..k];
      if InWindow(start, days[k]) { count := count + 1; }
    }
    assert days[..|days|] == days;
  }

  /** With fewer than two known dates 0. Otherwise the largest fraction of the known dates that any
      window of fourteen days holds, wherever it starts, and 1 exactly when they all lie within
      fourteen days of each other. */
  method Measure(dates: seq<Option<int>>) returns (r: real)
    ensures |Known(dates)| < 2 ==> r == 0.0
    ensures |Known(dates)| >= 2 ==>
      && (forall start :: CountIn(Known(dates), start) as real / |Known(dates)| as real <= r)
      && (exists start :: CountIn(Known(dates), start) as real / |Known(dates)| as real == r)
    ensures |Known(dates)| >= 2 ==>
      (r == 1.0 <==> forall i, j :: 0 <= i < |Known(dates)| && 0 <= j < |Known(dates)| ==>
                       Known(dates)[j] - Known(dates)[i] <= 14)
    ensures 0.0 <= r <= 1.0
  {
    hide Fraction;
    var days := Known(dates);
    if |days| < 2 { return 0.0; }
    var best := 1;
    ghost var at := days[0];
    OwnWindow(days, 0);
    for k := 0 to |days|
      invariant 1 <= best <= |days|
      invariant best == 1 || best == CountIn(days, at)
      invariant forall j :: 0 <= j < k ==> CountIn(days, days[j]) <= best
    {
      var count := Count(days, days[k]);
      if count > best { best, at := count, days[k]; }
    }
    if best == 1 { at := days[0]; }
    assert best == CountIn(days, at);
    forall start ensures CountIn(days, start) <= best {
      BestStart(days, start);
    }
    r := Fraction(best, |days|);
    forall start ensures CountIn(days, start) as real / |days| as real <= r {
      FractionOrder(CountIn(days, start), best, |days|);
    }
    FractionOrder(best, best, |days|);
    assert CountIn(days, at) as real / |days| as real == r;
    FractionOrder(0, best, |days|);
    FractionOrder(best, |days|, |days|);
    WholeSpan(days, best, at);
  }

  lemma FractionOrder(a: nat, b: nat, total: nat)
    requires total > 0 && a <= b
    ensures Fraction(a, total) <= Fraction(b, total)
    ensures a < b ==> Fraction(a, total) < Fraction(b, total)
    ensures Fraction(a, total) == a as real / total as real
    ensures Fraction(0, total) == 0.0 && Fraction(total, total) == 1.0
  {
  }

  /** The count is that of the days from `start` to fourteen days later, both included. */
  lemma {:induction false} CountInExactly(days: seq<int>, start: int)
    ensures CountIn(days, start) == |set k | 0 <= k < |days| && start <= days[k] <= start + 14|
  {
    var inside := set k | 0 <= k < |days| && start <= days[k] <= start + 14;
    if days == [] {
      assert inside == {};
    } else {
      var n := |days| - 1;
      CountInExactly(days[..n], start);
      var before := set k | 0 <= k < n && start <= days[..n][k] <= start + 14;
      assert inside == before + (if start <= days[n] <= start + 14 then {n} else {});
    }
  }

  /** A listed day is in the window that starts at it. */
  lemma {:induction false} OwnWindow(days: seq<int>, k: nat)
    requires k < |days|
    ensures CountIn(days, days[k]) >= 1
  {
    if k < |days| - 1 { OwnWindow(days[..|days| - 1], k); }
  }

  lemma {:induction false} CountMonotone(days: seq<int>, s: int, t: int)
    requires forall k :: 0 <= k < |days| && InWindow(s, days[k]) ==> InWindow(t, days[k])
    ensures CountIn(days, s) <= CountIn(days, t)
  {
    if days != [] { CountMonotone(days[..|days| - 1], s, t); }
  }

  lemma {:induction false} EarliestIn(days: seq<int>, s: int) returns (k: nat)
    requires exists j :: 0 <= j < |days| && InWindow(s, days[j])
    ensures k < |days| && InWindow(s, days[k])
    ensures forall j :: 0 <= j < |days| && InWindow(s, days[j]) ==> days[k] <= days[j]
  {
    var last := |days| - 1;
    if exists j :: 0 <= j < last && InWindow(s, days[j]) {
      var j :| 0 <= j < last && InWindow(s, days[j]);
      assert days[..last][j] == days[j];
      k := EarliestIn(days[..last], s);
      if InWindow(s, days[last]) && days[last] < days[k] { k := last; }
      forall m | 0 <= m < |days| && InWindow(s, days[m]) ensures days[k] <= days[m] {
        if m < last { assert days[..last][m] == days[m]; }
      }
    } else {
      k := last;
    }
  }

  lemma {:induction false} CountNone(days: seq<int>, s: int)
    requires forall j :: 0 <= j < |days| ==> !InWindow(s, days[j])
    ensures CountIn(days, s) == 0
  {
    if days != [] { CountNone(days[..|days| - 1], s); }
  }

  /** No window holds more days than one that starts at a listed day. */
  lemma BestStart(days: seq<int>, s: int)
    ensures CountIn(days, s) == 0 || exists k :: 0 <= k < |days| && CountIn(days, s) <= CountIn(days, days[k])
  {
    if exists j :: 0 <= j < |days| && InWindow(s, days[j]) {
      var k := EarliestIn(days, s);
      CountMonotone(days, s, days[k]);
    } else {
      CountNone(days, s);
    }
  }

  lemma {:induction false} CountAll(days: seq<int>, s: int)
    ensures CountIn(days, s) == |days| <==> forall k :: 0 <= k < |days| ==> InWindow(s, days[k])
  {
    if days != [] {
      var init := days[..|days| - 1];
      CountAll(init, s);
      assert forall k :: 0 <= k < |init| ==> init[k] == days[k];
    }
  }

  /** The best window holds every day exactly when the whole span fits one. */
  lemma WholeSpan(days: seq<int>, best: nat, at: int)
    requires days != [] && best == CountIn(days, at)
    requires forall start :: CountIn(days, start) <= best
    ensures best == |days| <==> forall i, j :: 0 <= i < |days| && 0 <= j < |days| ==> days[j] - days[i] <= WINDOW_DAYS
  {
    CountAll(days, at);
    if best == |days| {
      forall i, j | 0 <= i < |days| && 0 <= j < |days| ensures days[j] - days[i] <= WINDOW_DAYS {
        assert InWindow(at, days[i]) && InWindow(at, days[j]);
      }
    }
    if forall i, j :: 0 <= i < |days| && 0 <= j < |days| ==> days[j] - days[i] <= WINDOW_DAYS {
      var k := Least(days);
      CountAll(days, days[k]);
    }
  }

  lemma {:induction false} Least(days: seq<int>) returns (k: nat)
    requires days != []
    ensures k < |days| && forall j :: 0 <= j < |days| ==> days[k] <= days[j]
  {
    k := |days| - 1;
    if |days| > 1 {
      var m := Least(days[..|days| - 1]);
      if days[m] < days[k] { k := m; }
    }
  }
}
