/** What each request leaves in the tables, field by field, and when it is refused
    (backend/src/main/java/com/claimguard/service/ClaimService.java:36-206,
    backend/src/main/java/com/claimguard/service/AuditService.java:66-93). */
module RecordedRows {
  import opened Options
  import opened Json
  import opened JsonText
  import opened Numerals
  import opened Transitions
  import opened AuditRows
  import opened AuditChain
  import opened ClaimLedger
  import opened WorkflowSafety

  /** Exactly one row is added, to this claim's log, and no other claim changes. */
  ghost predicate AddsRow(db: Db, db': Db, id: ClaimId, p: Row) {
    && Log(db', id) == Log(db, id) + [p]
    && (forall other :: other != id ==> Log(db', other) == Log(db, other))
    && db'.claims.Keys == db.claims.Keys + {id}
    && (forall other :: other in db.claims && other != id ==> db'.claims[other] == db.claims[other])
  }

  /** The row says this of the move, and was stamped with this clock reading. */
  predicate Says(p: Row, t: EventType, from: Option<Status>, to: Status, actorId: string, role: Role, now: int) {
    && p.event.eventType == t && p.event.fromStatus == from && p.event.toStatus == Some(to)
    && p.event.actorId == actorId && p.event.actorRole == role
    && p.occurredAt <= now < p.occurredAt + 1_000_000
  }

  /** No score, ring, explanation or model is on the row. */
  predicate NoScore(e: Event) {
    e.fraudScore == None && e.ringId == None && e.explanation == None && e.modelVersion == None
  }

  function Last(db: Db, id: ClaimId): Row
    requires Log(db, id) != []
  {
    Log(db, id)[|Log(db, id)| - 1]
  }

  lemma CommitAdds(env: Env, db: Db, id: ClaimId, status: Status, e: Event, now: int)
    requires Commit(env, db, id, status, e, now).1 == Done
    ensures var db' := Commit(env, db, id, status, e, now).0;
      && db'.outbox == db.outbox && id in db'.claims && db'.claims[id] == status && Log(db', id) != []
      && AddsRow(db, db', id, Last(db', id))
      && Last(db', id) == Persisted(env, NextRow(env, id, Log(db, id), e, now))
  {
    hide NextRow, Persisted, Admits;
  }

  /** What storing keeps of an event. */
  lemma StoredEvent(env: Env, id: ClaimId, rows: seq<Row>, e: Event, now: int)
    requires Sound(env) && e.toStatus.Some?
    ensures var p := Persisted(env, NextRow(env, id, rows, e, now));
      && Says(p, e.eventType, e.fromStatus, e.toStatus.value, e.actorId, e.actorRole, now)
      && p.event.reason == e.reason && p.event.ringId == e.ringId && p.event.modelVersion == e.modelVersion
      && p.event.fraudScore.Some? == e.fraudScore.Some?
      && (e.fraudScore.Some? ==> -0.00005 <= p.event.fraudScore.value - e.fraudScore.value <= 0.00005)
      && p.event.explanation.Some? == e.explanation.Some?
      && (e.explanation.Some? ==> Same(e.explanation.value, p.event.explanation.value))
  {
    RowTime(env, id, rows, e, now);
    Interleaving.NextRowEvent(env, id, rows, e, now);
    hide NextRow, Same, WellFormed, Round4;
    if e.fraudScore.Some? { RoundingIsNearest(e.fraudScore.value); }
  }

  lemma AcceptedCommits(env: Env, db: Db, q: Request)
    requires Interleaving.Locking(q) && Apply(env, db, q).1 == Done
    ensures q.id in db.claims && Decide(q, db.claims[q.id]).Accept?
    ensures var d := Decide(q, db.claims[q.id]);
      Commit(env, db, q.id, d.status, d.event, q.now) == Apply(env, db, q)
  {
    hide Decide, Commit, Scored;
    if q.id in db.claims { Interleaving.RejectionIsNotDone(q, db.claims[q.id]); }
  }

  /** A score that is recorded: a submitted claim is flagged when the hint is FLAG and goes under
      review otherwise, a claim in any other status keeps it, and the row carries the delivery. */
  lemma ScoreRecorded(env: Env, db: Db, q: Request)
    requires Sound(env) && q.Score? && Apply(env, db, q).1 == Done
    ensures q.id in db.claims && q.id in Apply(env, db, q).0.claims && Log(Apply(env, db, q).0, q.id) != []
    ensures var db' := Apply(env, db, q).0;
      var from, to, p := db.claims[q.id], db'.claims[q.id], Last(db', q.id);
      && (from == Submitted ==> to == if q.hint == "FLAG" then Flagged else UnderReview)
      && (from != Submitted ==> to == from)
      && AddsRow(db, db', q.id, p) && db'.outbox == db.outbox
      && Says(p, FraudScored, Some(from), to, "scoring-service", System, q.now) && p.event.reason == None
      && p.event.fraudScore.Some? && -0.00005 <= p.event.fraudScore.value - q.fraudScore <= 0.00005
      && p.event.ringId == q.ringId && p.event.modelVersion == Some(q.model)
      && p.event.explanation.Some? == q.explanation.Some?
      && (q.explanation.Some? ==> Same(q.explanation.value, p.event.explanation.value))
  {
    AcceptedCommits(env, db, q);
    hide Apply, Commit, NextRow, Persisted, AddsRow, Same, WellFormed, IsAllowed;
    var from := db.claims[q.id];
    MovesByRole(from, if q.hint == "FLAG" then Flagged else UnderReview);
    var d := Decide(q, from);
    CommitAdds(env, db, q.id, d.status, d.event, q.now);
    StoredEvent(env, q.id, Log(db, q.id), d.event, q.now);
  }

  /** A narrative that is recorded: the status stays, and the row carries text and verdict. */
  lemma NarrativeRecorded(env: Env, db: Db, q: Request)
    requires Sound(env) && q.Narrate? && Apply(env, db, q).1 == Done
    ensures q.id in db.claims && Log(Apply(env, db, q).0, q.id) != []
    ensures var db' := Apply(env, db, q).0;
      var from, p := db.claims[q.id], Last(db', q.id);
      && AddsRow(db, db', q.id, p) && db'.claims == db.claims && db'.outbox == db.outbox
      && Says(p, NarrativeGenerated, Some(from), from, q.actorId, q.role, q.now)
      && p.event.reason == None && p.event.fraudScore == None && p.event.ringId == None
      && p.event.modelVersion == Some(q.model) && p.event.explanation.Some?
      && Same(Object([Field("narrative", Text(q.narrative)), Field("grounded", Bool(q.grounded))]),
              p.event.explanation.value)
  {
    AcceptedCommits(env, db, q);
    hide Apply, Commit, NextRow, Persisted, AddsRow, Same, WellFormed;
    var d := Decide(q, db.claims[q.id]);
    CommitAdds(env, db, q.id, d.status, d.event, q.now);
    StoredEvent(env, q.id, Log(db, q.id), d.event, q.now);
    hide Decide;
    assert Apply(env, db, q).0.claims == db.claims;
  }

  /** Some role may make this move. */
  ghost predicate Possible(from: Status, to: Status) { exists role :: IsAllowed(from, to, role) }

  /** How a human move ends, in the order of the checks: no such claim, no such move for anybody, not
      for this role, no reason for lifting a flag by approval; otherwise it is made and recorded. */
  lemma MoveOutcome(env: Env, db: Db, q: Request)
    requires Sound(env) && Inv(env, db) && q.Move?
    ensures Apply(env, db, q).1 ==
      if q.id !in db.claims then NotFound
      else if !Possible(db.claims[q.id], q.to) then Conflict
      else if !IsAllowed(db.claims[q.id], q.to, q.role) then Forbidden
      else if db.claims[q.id] == Flagged && q.to == Approved && Blank(q.reason) then BadRequest
      else Done
    ensures Apply(env, db, q).1 != Done ==> Apply(env, db, q).0 == db
  {
    Interleaving.UnchangedUnlessDone(env, db, q);
    if q.id in db.claims {
      var from, rows := db.claims[q.id], Log(db, q.id);
      MovesByRole(from, q.to);
      TransitionShape(from, q.to, q.role);
      assert LogInv(env, db, q.id);
      hide Chain, NextRow, Persisted, IsAllowed, IsDefined, RequiresReason, Blank, Replays;
      if Decide(q, from).Accept? { NextSeqFresh(env, q.id, rows, Decide(q, from).event, q.now); }
    }
  }

  /** A human move that is made. */
  lemma MoveRecorded(env: Env, db: Db, q: Request)
    requires Sound(env) && q.Move? && Apply(env, db, q).1 == Done
    ensures q.id in db.claims && q.id in Apply(env, db, q).0.claims && Log(Apply(env, db, q).0, q.id) != []
    ensures var db' := Apply(env, db, q).0;
      var from, p := db.claims[q.id], Last(db', q.id);
      && db'.claims[q.id] == q.to && AddsRow(db, db', q.id, p) && db'.outbox == db.outbox
      && Says(p, if from == Flagged && q.to == Approved then HumanOverride else StatusChanged,
              Some(from), q.to, q.actorId, q.role, q.now)
      && p.event.reason == q.reason && NoScore(p.event)
  {
    AcceptedCommits(env, db, q);
    hide Apply, Commit, NextRow, Persisted, AddsRow, IsAllowed, IsDefined, RequiresReason, Blank;
    var from := db.claims[q.id];
    TransitionShape(from, q.to, q.role);
    var d := Decide(q, from);
    CommitAdds(env, db, q.id, d.status, d.event, q.now);
    StoredEvent(env, q.id, Log(db, q.id), d.event, q.now);
  }

  /** A claim that is created, with its first row and its message. */
  lemma CreationRecorded(env: Env, db: Db, q: Request)
    requires Sound(env) && q.Create? && Apply(env, db, q).1 == Done
    ensures q.id !in db.claims && q.resolves
    ensures q.id in Apply(env, db, q).0.claims && Log(Apply(env, db, q).0, q.id) != []
    ensures var db' := Apply(env, db, q).0;
      var p, n := Last(db', q.id), |db.outbox|;
      && db'.claims[q.id] == Submitted && AddsRow(db, db', q.id, p)
      && Says(p, ClaimCreated, None, Submitted, "intake-system", System, q.now)
      && p.event.reason == None && NoScore(p.event)
      && |db'.outbox| == n + 1 && db'.outbox[..n] == db.outbox
      && db'.outbox[n].aggregate == q.id && db'.outbox[n].topic == "claim.submitted"
      && db'.outbox[n].payload == "{\"claim_id\":" + Quote(q.id) + "}"
      && db'.outbox[n].createdAt == q.now && db'.outbox[n].sentAt == None
  {
    hide NextRow, Persisted, Admits, FreshId, Quote;
    CommitAdds(env, db, q.id, Submitted, CreatedEvent(), q.now);
    StoredEvent(env, q.id, Log(db, q.id), CreatedEvent(), q.now);
    SubmittedText(q.id);
  }

  lemma SubmittedText(id: ClaimId)
    ensures SubmittedPayload(id) == "{\"claim_id\":" + Quote(id) + "}"
  {
    hide EscapeAll;
    var f := Field("claim_id", Text(id));
    assert [f][1..] == [] && MoreFields([]) == "}";
    PlainEscape("claim_id");
    assert Quote("claim_id") == "\"claim_id\"";
    hide Quote;
    assert WriteField(f) == Quote("claim_id") + ":" + Quote(id);
    assert WriteFields([f]) == WriteField(f) + "}";
    assert Write(Object([f])) == "{" + WriteFields([f]);
    assert "{" + "\"claim_id\"" + ":" == "{\"claim_id\":";
  }

  /** How a score delivery ends: skipped when the model has scored the claim, not found without the
      claim, rolled back when the score does not fit, and otherwise recorded. */
  lemma ScoreOutcome(env: Env, db: Db, q: Request)
    requires Inv(env, db) && q.Score?
    ensures Apply(env, db, q).1 ==
      if Scored(Log(db, q.id), q.model) then Skipped
      else if q.id !in db.claims then NotFound
      else if -9.99995 < q.fraudScore < 9.99995 then Done
      else RolledBack
  {
    FitsColumnExactly(q.fraudScore);
    if q.id in db.claims {
      assert LogInv(env, db, q.id);
      var e := Decide(q, db.claims[q.id]).event;
      hide Chain, Persisted, IsAllowed, FitsColumn, Scored, Replays;
      NextSeqFresh(env, q.id, Log(db, q.id), e, q.now);
    }
  }

  /** A narrative is recorded for every claim there is; a claim is created once. */
  lemma OtherOutcomes(env: Env, db: Db, q: Request)
    requires Inv(env, db)
    ensures q.Narrate? ==> Apply(env, db, q).1 == if q.id in db.claims then Done else NotFound
    ensures q.Create? ==> Apply(env, db, q).1 == if q.id !in db.claims && q.resolves then Done else RolledBack
  {
    assert LogInv(env, db, q.id);
    if q.Narrate? && q.id in db.claims {
      NextSeqFresh(env, q.id, Log(db, q.id), Decide(q, db.claims[q.id]).event, q.now);
    }
    if q.Create? { Interleaving.NextRowEvent(env, q.id, [], CreatedEvent(), q.now); }
    hide Chain, Persisted, NextRow, Replays;
  }

  /** Which characters a blank reason may consist of. */
  lemma SpacesExactly(c: char)
    ensures IsSpace(c) <==> c as int in {
      9, 10, 11, 12, 13, 28, 29, 30, 31, 32, 0x1680, 0x2000, 0x2001, 0x2002, 0x2003, 0x2004, 0x2005, 0x2006,
      0x2008, 0x2009, 0x200A, 0x2028, 0x2029, 0x205F, 0x3000}
  {
  }

  /** A reason is blank unless it is given and has a character that is no space. */
  lemma BlankExactly(reason: Option<string>)
    ensures !Blank(reason) <==>
      reason.Some? && exists i :: 0 <= i < |reason.value| && !IsSpace(reason.value[i])
  {
  }

  // ----- the clock -----

  /** The clock readings of the requests never go back. */
  ghost predicate ClocksRise(qs: seq<Request>) {
    forall i, j :: 0 <= i < j < |qs| && !qs[i].Load? && !qs[j].Load? ==> qs[i].now <= qs[j].now
  }

  ghost predicate ClocksWithin(qs: seq<Request>, latest: int) {
    forall i :: 0 <= i < |qs| && !qs[i].Load? ==> qs[i].now <= latest
  }

  /** Whole milliseconds, none after `latest`, in the order of the rows. */
  ghost predicate Stamped(rows: seq<Row>, latest: int) {
    && (forall i :: 0 <= i < |rows| ==> rows[i].occurredAt <= latest && rows[i].occurredAt % 1_000_000 == 0)
    && (forall i, j :: 0 <= i < j < |rows| ==> rows[i].occurredAt <= rows[j].occurredAt)
  }

  /** A log stays as it is or gains one row, stamped with the request's own clock reading. */
  lemma LogStep(env: Env, db: Db, q: Request, id: ClaimId)
    ensures var rows, rows' := Log(db, id), Log(Apply(env, db, q).0, id);
      || rows' == rows
      || (!q.Load? && |rows'| == |rows| + 1 && rows'[..|rows|] == rows
          && var p := rows'[|rows|];
             p.occurredAt <= q.now < p.occurredAt + 1_000_000 && p.occurredAt % 1_000_000 == 0)
  {
    hide NextRow, Persisted, Admits, Decide;
    if id != q.id {
      Interleaving.ApplyFrame(env, db, q, id);
    } else if q.Create? {
      RowTime(env, id, Log(db, id), CreatedEvent(), q.now);
    } else if Interleaving.Locking(q) && Apply(env, db, q).1 == Done {
      AcceptedCommits(env, db, q);
      RowTime(env, id, Log(db, id), Decide(q, db.claims[q.id]).event, q.now);
    } else {
      Interleaving.UnchangedUnlessDone(env, db, q);
    }
  }

  lemma StampMore(rows: seq<Row>, p: Row, now: int)
    requires Stamped(rows, now)
    requires p.occurredAt <= now < p.occurredAt + 1_000_000 && p.occurredAt % 1_000_000 == 0
    ensures Stamped(rows + [p], now)
  {
    forall i | 0 <= i < |rows| ensures rows[i].occurredAt <= p.occurredAt {
      assert rows[i].occurredAt % 1_000_000 == 0;
    }
  }

  lemma StampStep(env: Env, db: Db, q: Request, id: ClaimId, latest: int)
    requires Stamped(Log(db, id), if q.Load? then latest else q.now) && (!q.Load? ==> q.now <= latest)
    ensures Stamped(Log(Apply(env, db, q).0, id), latest)
  {
    LogStep(env, db, q, id);
    hide Apply;
    var rows, rows' := Log(db, id), Log(Apply(env, db, q).0, id);
    if rows' != rows {
      assert rows' == rows + [rows'[|rows|]];
      StampMore(rows, rows'[|rows|], q.now);
    }
  }

  lemma {:induction false} LogTimes(env: Env, qs: seq<Request>, id: ClaimId, latest: int)
    requires ClocksRise(qs) && ClocksWithin(qs, latest)
    ensures Stamped(Log(ApplyAll(env, EMPTY, qs), id), latest)
  {
    if qs != [] {
      var init, last := qs[..|qs| - 1], qs[|qs| - 1];
      var now := if last.Load? then latest else last.now;
      LogTimes(env, init, id, now);
      StampStep(env, ApplyAll(env, EMPTY, init), last, id, latest);
    }
  }

  /** When the committed requests' clocks never go back, the times along every log do not either,
      under every interleaving. */
  lemma TimesNeverGoBack(env: Env, schedule: seq<Interleaving.Step>, id: ClaimId, i: nat, j: nat)
    requires ClocksRise(Interleaving.Exec(env, schedule).history)
    requires i <= j < |Log(Interleaving.Exec(env, schedule).db, id)|
    ensures var rows := Log(Interleaving.Exec(env, schedule).db, id);
      rows[i].occurredAt <= rows[j].occurredAt
  {
    var history := Interleaving.Exec(env, schedule).history;
    Interleaving.Serializable(env, schedule);
    hide Interleaving.Exec, Interleaving.Inv;
    var latest := LatestClock(history);
    LogTimes(env, history, id, latest);
  }

  lemma {:induction false} LatestClock(qs: seq<Request>) returns (latest: int)
    ensures ClocksWithin(qs, latest)
  {
    latest := 0;
    if qs != [] {
      latest := LatestClock(qs[..|qs| - 1]);
      var last := qs[|qs| - 1];
      if !last.Load? && last.now > latest { latest := last.now; }
    }
  }
}
