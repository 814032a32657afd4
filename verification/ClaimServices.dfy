/** The services in their own imperative form, each proved against what the request does to the
    tables (backend/src/main/java/com/claimguard/service/ClaimService.java:67-206,
    backend/src/main/java/com/claimguard/service/AuditService.java:53-172,
    backend/src/main/java/com/claimguard/service/OutboxService.java:34-49). */
module ClaimServices {
  import opened Options
  import opened Json
  import opened Numerals
  import opened Transitions
  import opened AuditRows
  import opened AuditChain
  import opened ClaimLedger

  class AuditService {
    const env: Env
    var rows: map<ClaimId, seq<Row>>

    constructor (env: Env)
      ensures this.env == env && rows == map[]
    {
      this.env := env;
      rows := map[];
    }

    function History(id: ClaimId): seq<Row>
      reads this
    {
      if id in rows then rows[id] else []
    }

    /** Builds the hashed field map by successive puts. */
    method FieldsFor(r: Row) returns (fields: seq<Field>)
      ensures fields == HashedFields(r)
    {
      hide IntText, EventName, StatusName, RoleName, Fixed4, Round4, Nullable;
      fields := [Field("claimId", Text(r.claimId))];
      fields := fields + [Field("seq", Number(IntText(r.seqNo)))];
      fields := fields + [Field("eventType", Text(EventName(r.event.eventType)))];
      fields := fields + [Field("fromStatus",
        if r.event.fromStatus == None then Null else Text(StatusName(r.event.fromStatus.value)))];
      fields := fields + [Field("toStatus",
        if r.event.toStatus == None then Null else Text(StatusName(r.event.toStatus.value)))];
      fields := fields + [Field("actorId", Text(r.event.actorId))];
      fields := fields + [Field("actorRole", Text(RoleName(r.event.actorRole)))];
      fields := fields + [Field("reason", Nullable(r.event.reason))];
      fields := fields + [Field("fraudScore",
        if r.event.fraudScore == None then Null else Text(Fixed4(Round4(r.event.fraudScore.value))))];
      fields := fields + [Field("ringId", Nullable(r.event.ringId))];
      fields := fields + [Field("explanationJson",
        if r.event.explanation.None? then Null else r.event.explanation.value)];
      fields := fields + [Field("modelVersion", Nullable(r.event.modelVersion))];
      fields := fields + [Field("occurredAt", Number(IntText(r.occurredAt)))];
      fields := fields + [Field("prevHash", Text(r.prevHash))];
    }

    /** Appends the next row of the claim's chain, unless the table refuses it. */
    method Append(id: ClaimId, e: Event, now: int) returns (ok: bool)
      modifies this
      ensures var r := NextRow(env, id, old(History(id)), e, now);
        && ok == Admits(old(History(id)), r)
        && rows == if ok then old(rows)[id := old(History(id)) + [Persisted(env, r)]] else old(rows)
    {
      hide HashedFields, Canonicalize, Persisted, Admits;
      var history := History(id);
      var seqNo, prevHash := 1, GenesisHash();
      if history != [] {
        var previous := history[|history| - 1];
        seqNo, prevHash := previous.seqNo + 1, previous.hash;
      }
      var occurredAt := now - now % 1_000_000;
      var r := Row(id, seqNo, e, occurredAt, prevHash, "");
      var fields := FieldsFor(r);
      r := r.(hash := env.sha(prevHash + Canonicalize(Object(fields))));
      assert r == NextRow(env, id, history, e, now);
      ok := Admits(history, r);
      if ok {
        rows := rows[id := history + [Persisted(env, r)]];
      }
    }

    /** Recomputes the chain from scratch. */
    method Verify(id: ClaimId) returns (valid: bool)
      ensures valid == Verifies(env, History(id))
    {
      var events := History(id);
      var expectedPrevHash := GenesisHash();
      var i := 0;
      while i < |events|
        invariant 0 <= i <= |events|
        invariant Verifies(env, events[..i]) && expectedPrevHash == LastHash(events[..i])
      {
        hide HashedFields, Canonicalize;
        var event := events[i];
        assert events[..i + 1][..i] == events[..i];
        if expectedPrevHash != event.prevHash {
          NoRepair(env, events, i + 1);
          return false;
        }
        var fields := FieldsFor(event);
        var recomputedHash := env.sha(event.prevHash + Canonicalize(Object(fields)));
        if recomputedHash != event.hash {
          NoRepair(env, events, i + 1);
          return false;
        }
        expectedPrevHash := event.hash;
        i := i + 1;
      }
      assert events[..i] == events;
      return true;
    }
  }

  /** Once an initial piece fails, the whole log fails. */
  lemma NoRepair(env: Env, events: seq<Row>, n: nat)
    requires n <= |events| && !Verifies(env, events[..n])
    ensures !Verifies(env, events)
  {
    if Verifies(env, events) { PrefixVerifies(env, events, n); }
  }

  class OutboxService {
    var rows: seq<OutboxRow>

    constructor ()
      ensures rows == []
    {
      rows := [];
    }

    /** Queues one message under an id no other row has. */
    method Enqueue(aggregate: ClaimId, topic: string, payload: string, now: int)
      modifies this
      ensures rows == old(rows) + [OutboxRow(FreshId(old(rows)), aggregate, topic, payload, now, None)]
      ensures forall i :: 0 <= i < |old(rows)| ==> rows[i].id != rows[|old(rows)|].id
    {
      rows := rows + [OutboxRow(FreshId(rows), aggregate, topic, payload, now, None)];
    }
  }

  /** Each method is one transaction: on failure it puts back what it had written. */
  class ClaimService {
    var claims: map<ClaimId, Status>
    const audit: AuditService
    const outbox: OutboxService

    constructor (env: Env)
      ensures audit.env == env && Tables() == EMPTY && fresh(audit) && fresh(outbox)
    {
      claims := map[];
      audit := new AuditService(env);
      outbox := new OutboxService();
    }

    function Tables(): Db
      reads this, audit, outbox
    {
      Db(claims, audit.rows, outbox.rows)
    }

    method CreateClaim(id: ClaimId, resolves: bool, now: int) returns (o: Outcome)
      modifies this, audit, outbox
      ensures (Tables(), o) == Apply(audit.env, old(Tables()), Create(id, resolves, now))
    {
      if id in claims {
        return RolledBack;
      }
      var claimsBefore, rowsBefore := claims, audit.rows;
      claims := claims[id := Submitted];
      if !resolves {
        claims := claimsBefore;
        return RolledBack;
      }
      var appended := audit.Append(id, CreatedEvent(), now);
      if appended {
        outbox.Enqueue(id, CLAIM_SUBMITTED_TOPIC, SubmittedPayload(id), now);
        return Done;
      }
      claims, audit.rows := claimsBefore, rowsBefore;
      return RolledBack;
    }

    method TransitionStatus(id: ClaimId, toStatus: Status, reason: Option<string>, actorId: string, role: Role,
                            now: int)
      returns (o: Outcome)
      modifies this, audit
      ensures (Tables(), o) == Apply(audit.env, old(Tables()), Move(id, toStatus, reason, actorId, role, now))
    {
      hide NextRow, Persisted, Admits, IsDefined, IsAllowed, RequiresReason, Blank;
      if id !in claims {
        return NotFound;
      }
      var fromStatus := claims[id];
      if !IsDefined(fromStatus, toStatus) {
        return Conflict;
      }
      if !IsAllowed(fromStatus, toStatus, role) {
        return Forbidden;
      }
      var isOverride := RequiresReason(fromStatus, toStatus);
      if isOverride && Blank(reason) {
        return BadRequest;
      }
      claims := claims[id := toStatus];
      var eventType := if isOverride then HumanOverride else StatusChanged;
      var appended := audit.Append(id,
        Event(eventType, Some(fromStatus), Some(toStatus), actorId, role, reason, None, None, None, None), now);
      if !appended {
        claims := claims[id := fromStatus];
        assert claims == old(claims);
        return RolledBack;
      }
      return Done;
    }

    method ApplyScore(id: ClaimId, fraudScore: real, decisionHint: string, ringId: Option<string>,
                      explanation: Option<Doc>, modelVersion: string, now: int)
      returns (o: Outcome)
      modifies this, audit
      ensures (Tables(), o)
        == Apply(audit.env, old(Tables()), Score(id, fraudScore, decisionHint, ringId, explanation, modelVersion, now))
    {
      hide NextRow, Persisted, Admits, IsDefined, IsAllowed, RequiresReason, Blank;
      if Scored(audit.History(id), modelVersion) {
        return Skipped;
      }
      if id !in claims {
        return NotFound;
      }
      var fromStatus := claims[id];
      var targetStatus := if decisionHint == "FLAG" then Flagged else UnderReview;
      var toStatus := fromStatus;
      if IsAllowed(fromStatus, targetStatus, System) {
        claims := claims[id := targetStatus];
        toStatus := targetStatus;
      }
      var appended := audit.Append(id,
        Event(FraudScored, Some(fromStatus), Some(toStatus), SCORING_ACTOR_ID, System, None,
              Some(fraudScore), ringId, explanation, Some(modelVersion)), now);
      assert claims == old(claims)[id := toStatus];
      if !appended {
        claims := claims[id := fromStatus];
        assert claims == old(claims);
        return RolledBack;
      }
      return Done;
    }

    method RecordNarrative(id: ClaimId, narrative: string, grounded: bool, modelVersion: string,
                           actorId: string, role: Role, now: int)
      returns (o: Outcome)
      modifies this, audit
      ensures (Tables(), o)
        == Apply(audit.env, old(Tables()), Narrate(id, narrative, grounded, modelVersion, actorId, role, now))
    {
      hide NextRow, Persisted, Admits, IsDefined, IsAllowed, RequiresReason, Blank;
      if id !in claims {
        return NotFound;
      }
      var status := claims[id];
      var appended := audit.Append(id,
        Event(NarrativeGenerated, Some(status), Some(status), actorId, role, None,
              None, None, Some(NarrativeDoc(narrative, grounded)), Some(modelVersion)), now);
      assert claims == old(claims)[id := status];
      return if appended then Done else RolledBack;
    }
  }
}
