/** At-least-once delivery of scores, in the middle of everything else that happens to the claims:
    which deliveries of a (claim, model version) matter
    (backend/src/main/java/com/claimguard/service/ClaimService.java:134-172,
    backend/src/main/resources/db/migration/V3__audit.sql:18,
    backend/src/main/resources/db/migration/V5__outbox.sql:20-30). */
module ScoreDeliveries {
  import opened Options
  import opened Numerals
  import opened Transitions
  import opened AuditRows
  import opened AuditChain
  import opened ClaimLedger
  import opened WorkflowSafety

  predicate SameKey(a: Request, b: Request) {
    a.Score? && b.Score? && a.id == b.id && a.model == b.model
  }

  /** A score the column can hold. */
  predicate Storable(m: Request) { m.Score? && FitsColumn(m.fraudScore) }

  predicate SeenKey(qs: seq<Request>, m: Request) {
    exists i :: 0 <= i < |qs| && SameKey(qs[i], m)
  }

  /** The requests without the redelivered scores: of each (claim, model version) only the first
      delivery is left, and everything else stays. */
  function FirstDeliveries(qs: seq<Request>): seq<Request> {
    if qs == [] then []
    else
      var init, last := qs[..|qs| - 1], qs[|qs| - 1];
      FirstDeliveries(init) + (if SeenKey(init, last) then [] else [last])
  }

  /** A request that makes a claim exist. */
  predicate Brings(q: Request, id: ClaimId) {
    q.id == id && (q.Load? || (q.Create? && q.resolves))
  }

  /** The claim exists once these requests have run. */
  predicate Known(db: Db, qs: seq<Request>, id: ClaimId) {
    id in db.claims || exists i :: 0 <= i < |qs| && Brings(qs[i], id)
  }

  /** Delivery i finds its claim and fits the column. */
  predicate Takes(db: Db, qs: seq<Request>, i: nat)
    requires i < |qs|
  {
    Storable(qs[i]) && Known(db, qs[..i], qs[i].id)
  }

  ghost predicate FirstOf(qs: seq<Request>, i: nat, m: Request)
    requires i < |qs|
  {
    SameKey(qs[i], m) && !SeenKey(qs[..i], m)
  }

  ghost predicate FirstTakes(db: Db, qs: seq<Request>, m: Request) {
    exists i :: 0 <= i < |qs| && FirstOf(qs, i, m) && Takes(db, qs, i)
  }

  ghost predicate SomeTakes(db: Db, qs: seq<Request>, m: Request) {
    exists i :: 0 <= i < |qs| && SameKey(qs[i], m) && Takes(db, qs, i)
  }

  /** No model's first score for a claim it has not scored comes too early or is refused by the
      column while a later delivery of it is accepted. */
  ghost predicate NoLateAcceptance(db: Db, qs: seq<Request>) {
    forall k :: 0 <= k < |qs| && qs[k].Score? && !Scored(Log(db, qs[k].id), qs[k].model) ==>
      (SomeTakes(db, qs, qs[k]) ==> FirstTakes(db, qs, qs[k]))
  }

  // ----- one request -----

  /** A delivery is recorded exactly when the claim exists, the column can hold the score and the
      model has not scored the claim yet; otherwise nothing changes. */
  lemma OneDelivery(env: Env, db: Db, m: Request)
    requires Sound(env) && Inv(env, db) && m.Score?
    ensures var db' := Apply(env, db, m).0;
      if m.id in db.claims && Storable(m) && !Scored(Log(db, m.id), m.model)
      then Scored(Log(db', m.id), m.model) && db' != db
      else db' == db
  {
    hide Chain, Persisted, NextRow, IsAllowed, FitsColumn;
    if m.id in db.claims && !Scored(Log(db, m.id), m.model) {
      var rows, e := Log(db, m.id), Decide(m, db.claims[m.id]).event;
      assert LogInv(env, db, m.id);
      NextSeqFresh(env, m.id, rows, e, m.now);
      var r := NextRow(env, m.id, rows, e, m.now);
      PersistedEvent(env, r);
      if Storable(m) {
        ScoredAppend(rows, Persisted(env, r), m.model);
      }
    }
  }

  /** Appending a score row adds exactly its own model to the scored ones. */
  lemma ScoredAppend(rows: seq<Row>, p: Row, model: string)
    requires IsScoreOf(p, model)
    ensures forall other :: Scored(rows + [p], other) <==> Scored(rows, other) || other == model
  {
    var rows' := rows + [p];
    forall other ensures Scored(rows', other) <==> Scored(rows, other) || other == model {
      if Scored(rows, other) {
        var i :| 0 <= i < |rows| && IsScoreOf(rows[i], other);
        assert rows'[i] == rows[i];
      }
      assert rows'[|rows|] == p;
      if Scored(rows', other) && other != model {
        var i :| 0 <= i < |rows'| && IsScoreOf(rows'[i], other);
        assert rows[i] == rows'[i];
      }
    }
  }

  /** Appending a row that is no score changes nothing about the scored models. */
  lemma OtherAppend(rows: seq<Row>, p: Row, model: string)
    requires !IsScoreOf(p, model)
    ensures Scored(rows + [p], model) <==> Scored(rows, model)
  {
    var rows' := rows + [p];
    if Scored(rows, model) {
      var i :| 0 <= i < |rows| && IsScoreOf(rows[i], model);
      assert rows'[i] == rows[i];
    }
    if Scored(rows', model) {
      var i :| 0 <= i < |rows'| && IsScoreOf(rows'[i], model);
      assert i < |rows| && rows[i] == rows'[i];
    }
  }

  /** What one request does to which claims exist. */
  lemma RequestBrings(env: Env, db: Db, q: Request, id: ClaimId)
    requires Inv(env, db)
    ensures id in Apply(env, db, q).0.claims <==> id in db.claims || Brings(q, id)
  {
    hide Decide, NextRow, Persisted, Chain;
    assert LogInv(env, db, q.id);
    Interleaving.NextRowEvent(env, q.id, [], CreatedEvent(), if q.Load? then 0 else q.now);
  }

  /** What one request does to which models have scored a claim. */
  lemma RequestScores(env: Env, db: Db, q: Request, m: Request)
    requires Sound(env) && Inv(env, db) && m.Score?
    ensures Scored(Log(Apply(env, db, q).0, m.id), m.model)
      <==> Scored(Log(db, m.id), m.model) || (SameKey(q, m) && Storable(q) && q.id in db.claims)
  {
    hide Chain, Storable, Scored;
    if q.id != m.id {
      Interleaving.ApplyFrame(env, db, q, m.id);
    } else if q.Score? && q.model == m.model {
      OneDelivery(env, db, q);
    } else {
      OtherRequest(env, db, q, m);
    }
  }

  lemma OtherRequest(env: Env, db: Db, q: Request, m: Request)
    requires Inv(env, db) && m.Score? && q.id == m.id && !SameKey(q, m)
    ensures Scored(Log(Apply(env, db, q).0, m.id), m.model) <==> Scored(Log(db, m.id), m.model)
  {
    hide Chain, Decide, Admits, Scored, NextRow, Persisted;
    var e := if Interleaving.Locking(q) && q.id in db.claims && Decide(q, db.claims[q.id]).Accept?
             then Decide(q, db.claims[q.id]).event else CreatedEvent();
    Interleaving.UnchangedUnlessDone(env, db, q);
    if Apply(env, db, q).1 == Done && !q.Load? {
      if Interleaving.Locking(q) { Interleaving.RejectionIsNotDone(q, db.claims[q.id]); }
      var r := NextRow(env, q.id, Log(db, q.id), e, q.now);
      Interleaving.NextRowEvent(env, q.id, Log(db, q.id), e, q.now);
      PersistedEvent(env, r);
      NotThatScore(q, m, if Interleaving.Locking(q) then db.claims[q.id] else Submitted);
      OtherAppend(Log(db, q.id), Persisted(env, r), m.model);
    }
  }

  lemma NotThatScore(q: Request, m: Request, from: Status)
    requires m.Score? && q.id == m.id && !SameKey(q, m)
    ensures Interleaving.Locking(q) && Decide(q, from).Accept? ==>
      Decide(q, from).event.eventType != FraudScored || Decide(q, from).event.modelVersion != Some(m.model)
  {
  }

  // ----- any requests -----

  lemma {:induction false} RequestsKeepInv(env: Env, db: Db, qs: seq<Request>)
    requires Sound(env) && Inv(env, db)
    ensures Inv(env, ApplyAll(env, db, qs))
  {
    hide Inv;
    if qs != [] {
      RequestsKeepInv(env, db, qs[..|qs| - 1]);
      ApplyKeepsInv(env, ApplyAll(env, db, qs[..|qs| - 1]), qs[|qs| - 1]);
    }
  }

  lemma KnownStep(db: Db, init: seq<Request>, last: Request, id: ClaimId)
    ensures Known(db, init + [last], id) <==> Known(db, init, id) || Brings(last, id)
  {
    var qs := init + [last];
    if i :| 0 <= i < |init| && Brings(init[i], id) { assert qs[i] == init[i]; }
    assert qs[|init|] == last;
    if i :| 0 <= i < |qs| && Brings(qs[i], id) { assert i < |init| ==> init[i] == qs[i]; }
  }

  /** Which claims exist after any requests. */
  lemma {:induction false} KnownAfter(env: Env, db: Db, qs: seq<Request>, id: ClaimId)
    requires Sound(env) && Inv(env, db)
    ensures id in ApplyAll(env, db, qs).claims <==> Known(db, qs, id)
  {
    hide Inv, Apply, Brings;
    if qs != [] {
      var init, last := qs[..|qs| - 1], qs[|qs| - 1];
      KnownAfter(env, db, init, id);
      RequestsKeepInv(env, db, init);
      RequestBrings(env, ApplyAll(env, db, init), last, id);
      KnownStep(db, init, last, id);
      assert qs == init + [last];
    }
  }

  lemma SomeTakesStep(db: Db, init: seq<Request>, last: Request, m: Request)
    ensures SomeTakes(db, init + [last], m) <==>
      SomeTakes(db, init, m) || (SameKey(last, m) && Storable(last) && Known(db, init, last.id))
  {
    hide Storable, Known;
    var qs := init + [last];
    assert qs[..|init|] == init && qs[|init|] == last;
    assert forall i :: 0 <= i < |init| ==> qs[i] == init[i] && qs[..i] == init[..i];
    if SomeTakes(db, init, m) {
      var i :| 0 <= i < |init| && SameKey(init[i], m) && Takes(db, init, i);
      assert Takes(db, qs, i);
    }
    if SomeTakes(db, qs, m) {
      var i :| 0 <= i < |qs| && SameKey(qs[i], m) && Takes(db, qs, i);
      if i < |init| { assert Takes(db, init, i); }
    }
    if SameKey(last, m) && Storable(last) && Known(db, init, last.id) { assert Takes(db, qs, |init|); }
  }

  lemma FirstTakesStep(db: Db, init: seq<Request>, last: Request, m: Request)
    ensures FirstTakes(db, init + [last], m) <==>
      FirstTakes(db, init, m) || (!SeenKey(init, m) && SameKey(last, m) && Storable(last) && Known(db, init, last.id))
  {
    hide Storable, Known, SeenKey;
    var qs := init + [last];
    assert qs[..|init|] == init && qs[|init|] == last;
    assert forall i :: 0 <= i < |init| ==> qs[i] == init[i] && qs[..i] == init[..i];
    if FirstTakes(db, init, m) {
      var i :| 0 <= i < |init| && FirstOf(init, i, m) && Takes(db, init, i);
      assert FirstOf(qs, i, m) && Takes(db, qs, i);
    }
    if FirstTakes(db, qs, m) {
      var i :| 0 <= i < |qs| && FirstOf(qs, i, m) && Takes(db, qs, i);
      if i < |init| { assert FirstOf(init, i, m) && Takes(db, init, i); }
    }
    if !SeenKey(init, m) && SameKey(last, m) && Storable(last) && Known(db, init, last.id) {
      assert FirstOf(qs, |init|, m) && Takes(db, qs, |init|);
    }
  }

  /** After any requests a model has scored a claim exactly when it had before or some delivery of
      its score found the claim and fitted the column. */
  lemma {:induction false} ScoredAfter(env: Env, db: Db, qs: seq<Request>, m: Request)
    requires Sound(env) && Inv(env, db) && m.Score?
    ensures Scored(Log(ApplyAll(env, db, qs), m.id), m.model)
      <==> Scored(Log(db, m.id), m.model) || SomeTakes(db, qs, m)
  {
    hide Inv, Storable, Scored, Apply, Known, SomeTakes, Log;
    if qs == [] {
      NoneTakes(db, m);
    } else {
      var init, last := qs[..|qs| - 1], qs[|qs| - 1];
      ScoredAfter(env, db, init, m);
      RequestsKeepInv(env, db, init);
      RequestScores(env, ApplyAll(env, db, init), last, m);
      KnownAfter(env, db, init, last.id);
      SomeTakesStep(db, init, last, m);
      assert qs == init + [last];
    }
  }

  lemma NoneTakes(db: Db, m: Request)
    ensures !SomeTakes(db, [], m) && !FirstTakes(db, [], m)
  {
  }

  // ----- dropping redeliveries -----

  lemma {:induction false} KnownWithout(db: Db, qs: seq<Request>, id: ClaimId)
    ensures Known(db, FirstDeliveries(qs), id) <==> Known(db, qs, id)
  {
    if qs != [] {
      var init, last := qs[..|qs| - 1], qs[|qs| - 1];
      KnownWithout(db, init, id);
      KnownStep(db, init, last, id);
      KnownStep(db, FirstDeliveries(init), last, id);
      assert qs == init + [last];
      assert FirstDeliveries(init) + [] == FirstDeliveries(init);
    }
  }

  /** Without the redeliveries a key is taken exactly when its first delivery is. */
  lemma {:induction false} KeptTakes(db: Db, qs: seq<Request>, m: Request)
    requires m.Score?
    ensures SomeTakes(db, FirstDeliveries(qs), m) <==> FirstTakes(db, qs, m)
  {
    hide Storable, Known, SomeTakes, FirstTakes, SeenKey;
    if qs == [] {
      NoneTakes(db, m);
    } else {
      var init, last := qs[..|qs| - 1], qs[|qs| - 1];
      KeptTakes(db, init, m);
      SomeTakesStep(db, FirstDeliveries(init), last, m);
      FirstTakesStep(db, init, last, m);
      KnownWithout(db, init, last.id);
      SeenTransfers(init, last, m);
      assert qs == init + [last];
      assert FirstDeliveries(init) + [] == FirstDeliveries(init);
    }
  }

  lemma SeenTransfers(ms: seq<Request>, a: Request, b: Request)
    ensures SameKey(a, b) ==> (SeenKey(ms, a) <==> SeenKey(ms, b))
  {
    if SameKey(a, b) {
      if SeenKey(ms, a) { var i :| 0 <= i < |ms| && SameKey(ms[i], a); assert SameKey(ms[i], b); }
      if SeenKey(ms, b) { var i :| 0 <= i < |ms| && SameKey(ms[i], b); assert SameKey(ms[i], a); }
    }
  }

  lemma NoLateAcceptanceShrinks(db: Db, qs: seq<Request>)
    requires qs != [] && NoLateAcceptance(db, qs)
    ensures NoLateAcceptance(db, qs[..|qs| - 1])
  {
    hide Storable, Scored, Known, SomeTakes, FirstTakes, Log;
    var init, last := qs[..|qs| - 1], qs[|qs| - 1];
    assert qs == init + [last];
    forall k | 0 <= k < |init| && init[k].Score? && !Scored(Log(db, init[k].id), init[k].model)
      && SomeTakes(db, init, init[k])
      ensures FirstTakes(db, init, init[k])
    {
      assert qs[k] == init[k];
      SomeTakesStep(db, init, last, init[k]);
      FirstTakesStep(db, init, last, init[k]);
      assert SameKey(init[k], init[k]) && SeenKey(init, init[k]);
    }
  }

  /** Redelivery is harmless, with the exact reach of the claim. Take any requests, creations,
      human moves and narratives included, and drop every score whose (claim, model version) was
      delivered before: the tables come out the same if and only if no first delivery that finds
      no claim, or does not fit the column, is followed by one that is accepted. */
  lemma FirstDeliveriesSuffice(env: Env, db: Db, qs: seq<Request>)
    requires Sound(env) && Inv(env, db)
    ensures ApplyAll(env, db, FirstDeliveries(qs)) == ApplyAll(env, db, qs) <==> NoLateAcceptance(db, qs)
  {
    hide Inv, Scored, Apply, FirstTakes, SomeTakes, Log;
    if NoLateAcceptance(db, qs) {
      FirstDeliveriesEnough(env, db, qs);
    } else {
      var k :| 0 <= k < |qs| && qs[k].Score? && !Scored(Log(db, qs[k].id), qs[k].model)
        && SomeTakes(db, qs, qs[k]) && !FirstTakes(db, qs, qs[k]);
      KeptTakes(db, qs, qs[k]);
      ScoredAfter(env, db, qs, qs[k]);
      ScoredAfter(env, db, FirstDeliveries(qs), qs[k]);
    }
  }

  lemma {:induction false} FirstDeliveriesEnough(env: Env, db: Db, qs: seq<Request>)
    requires Sound(env) && Inv(env, db) && NoLateAcceptance(db, qs)
    ensures ApplyAll(env, db, FirstDeliveries(qs)) == ApplyAll(env, db, qs)
  {
    hide Inv, Apply, NoLateAcceptance, SeenKey;
    if qs != [] {
      var init, last := qs[..|qs| - 1], qs[|qs| - 1];
      NoLateAcceptanceShrinks(db, qs);
      FirstDeliveriesEnough(env, db, init);
      var kept := FirstDeliveries(init);
      assert qs == init + [last];
      if SeenKey(init, last) {
        assert FirstDeliveries(qs) == kept + [] == kept;
        RedeliveryIgnored(env, db, init, last);
      } else {
        assert (kept + [last])[..|kept| + 1 - 1] == kept;
      }
    }
  }

  lemma SeenIsScore(qs: seq<Request>, m: Request)
    requires SeenKey(qs, m)
    ensures m.Score?
  {
  }

  /** A further delivery of a seen key changes nothing. */
  lemma RedeliveryIgnored(env: Env, db: Db, init: seq<Request>, last: Request)
    requires Sound(env) && Inv(env, db) && SeenKey(init, last)
    requires NoLateAcceptance(db, init + [last])
    ensures Apply(env, ApplyAll(env, db, init), last).0 == ApplyAll(env, db, init)
  {
    SeenIsScore(init, last);
    hide Inv, Storable, Scored, Apply, FirstTakes, SomeTakes, Known, Log;
    RequestsKeepInv(env, db, init);
    OneDelivery(env, ApplyAll(env, db, init), last);
    ScoredAfter(env, db, init, last);
    KnownAfter(env, db, init, last.id);
    SomeTakesStep(db, init, last, last);
    FirstTakesStep(db, init, last, last);
    FirstIsSome(db, init, last);
    assert (init + [last])[|init|] == last;
  }

  lemma FirstIsSome(db: Db, qs: seq<Request>, m: Request)
    ensures FirstTakes(db, qs, m) ==> SomeTakes(db, qs, m)
  {
  }

  /** The exception is real, whatever happens in between: a first delivery that finds no claim or
      does not fit the column, and a later one of the same key that does both. */
  lemma LateAcceptance(env: Env, db: Db, first: Request, between: seq<Request>, second: Request)
    requires Sound(env) && Inv(env, db) && SameKey(first, second) && !Scored(Log(db, first.id), first.model)
    requires !(Storable(first) && first.id in db.claims)
    requires Storable(second) && Known(db, [first] + between, second.id)
    ensures var qs := [first] + between + [second];
      ApplyAll(env, db, FirstDeliveries(qs)) != ApplyAll(env, db, qs)
  {
    hide Inv, Scored, Storable, Apply, Log;
    var qs := [first] + between + [second];
    HeadIsFirst(qs, first);
    assert qs[0] == first && qs[..0] == [] && !Takes(db, qs, 0);
    hide Known;
    SomeTakesStep(db, [first] + between, second, first);
    assert SomeTakes(db, qs, qs[0]) && !FirstTakes(db, qs, qs[0]);
    FirstDeliveriesSuffice(env, db, qs);
  }

  /** A concrete case: a score of 10 followed by one of 0.5. */
  lemma LateAcceptanceHappens(env: Env)
    requires Sound(env)
    ensures var db := ApplyAll(env, EMPTY, [Create("c1", true, 0)]);
      var qs := [Score("c1", 10.0, "FLAG", None, None, "m", 1), Score("c1", 0.5, "FLAG", None, None, "m", 2)];
      ApplyAll(env, db, FirstDeliveries(qs)) != ApplyAll(env, db, qs)
  {
    var create := [Create("c1", true, 0)];
    var db := ApplyAll(env, EMPTY, create);
    var a, b := Score("c1", 10.0, "FLAG", None, None, "m", 1), Score("c1", 0.5, "FLAG", None, None, "m", 2);
    RunKeepsInv(env, create);
    assert create[..0] == [] && ApplyAll(env, EMPTY, []) == EMPTY;
    assert db == Apply(env, EMPTY, create[0]).0;
    CreatedAndUnscored(env);
    assert Round4(10.0) == 100000 && Round4(0.5) == 5000;
    LateAcceptance(env, db, a, [], b);
    assert [a] + [] + [b] == [a, b];
  }

  /** Deliveries under one key are copies of one message: they carry the same score. */
  ghost predicate Copies(qs: seq<Request>) {
    forall i, j :: 0 <= i < j < |qs| && SameKey(qs[i], qs[j]) ==> qs[i].fraudScore == qs[j].fraudScore
  }

  /** Every delivery comes after its claim. */
  ghost predicate AfterTheirClaims(db: Db, qs: seq<Request>) {
    forall i :: 0 <= i < |qs| && qs[i].Score? ==> Known(db, qs[..i], qs[i].id)
  }

  /** True redeliveries are harmless without exception: when deliveries under one key carry one
      score, and each comes after its claim, dropping the repeated ones changes nothing. */
  lemma CopiesAreHarmless(env: Env, db: Db, qs: seq<Request>)
    requires Sound(env) && Inv(env, db) && Copies(qs) && AfterTheirClaims(db, qs)
    ensures ApplyAll(env, db, FirstDeliveries(qs)) == ApplyAll(env, db, qs)
  {
    hide Inv, Known, Scored, FitsColumn;
    forall k | 0 <= k < |qs| && qs[k].Score? && SomeTakes(db, qs, qs[k]) ensures FirstTakes(db, qs, qs[k]) {
      var i :| 0 <= i < |qs| && SameKey(qs[i], qs[k]) && Takes(db, qs, i);
      var f := FirstIndex(qs, i, qs[k]);
      assert f < i ==> SameKey(qs[f], qs[i]);
      assert FirstOf(qs, f, qs[k]) && Takes(db, qs, f);
    }
    hide SomeTakes, FirstTakes;
    FirstDeliveriesSuffice(env, db, qs);
  }

  lemma {:induction false} FirstIndex(qs: seq<Request>, i: nat, m: Request) returns (f: nat)
    requires i < |qs| && SameKey(qs[i], m)
    ensures f <= i && FirstOf(qs, f, m)
  {
    if SeenKey(qs[..i], m) {
      var j :| 0 <= j < i && SameKey(qs[..i][j], m);
      f := FirstIndex(qs, j, m);
    } else {
      f := i;
    }
  }

  lemma HeadIsFirst(qs: seq<Request>, m: Request)
    requires qs != [] && SameKey(qs[0], m)
    ensures forall i: nat :: i < |qs| && FirstOf(qs, i, m) ==> i == 0
  {
    forall i: nat | 0 < i < |qs| ensures !FirstOf(qs, i, m) {
      assert SameKey(qs[..i][0], m);
    }
  }

  lemma CreatedAndUnscored(env: Env)
    ensures var db := Apply(env, EMPTY, Create("c1", true, 0)).0;
      "c1" in db.claims && !Scored(Log(db, "c1"), "m")
  {
    hide NextRow, Persisted;
    var r := NextRow(env, "c1", [], CreatedEvent(), 0);
    NextSeqFresh(env, "c1", [], CreatedEvent(), 0);
    PersistedEvent(env, r);
    assert [] + [Persisted(env, r)] == [Persisted(env, r)];
  }
}
