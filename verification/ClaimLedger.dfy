/** The tables a claim's life is recorded in, and what each request does to them when it runs
    alone (backend/src/main/java/com/claimguard/service/ClaimService.java:67-206,
    backend/src/main/resources/db/migration/V3__audit.sql:8-25,
    backend/src/main/resources/db/migration/V5__outbox.sql:10-30). */
module ClaimLedger {
  import opened Options
  import opened Json
  import opened Numerals
  import opened Transitions
  import opened AuditRows
  import opened AuditChain

  const INTAKE_ACTOR_ID := "intake-system"
  const SCORING_ACTOR_ID := "scoring-service"
  const CLAIM_SUBMITTED_TOPIC := "claim.submitted"

  datatype OutboxRow = OutboxRow(
    id: nat, aggregate: ClaimId, topic: string, payload: string, createdAt: int, sentAt: Option<int>)

  datatype Db = Db(claims: map<ClaimId, Status>, audit: map<ClaimId, seq<Row>>, outbox: seq<OutboxRow>)

  const EMPTY := Db(map[], map[], [])

  function Log(db: Db, id: ClaimId): seq<Row> {
    if id in db.audit then db.audit[id] else []
  }

  /** Load is the bulk COPY, which writes a claim and no audit row; `resolves` tells whether the
      claim's contact fields can be turned into entities; `now` is the clock reading. */
  datatype Request =
    | Load(id: ClaimId)
    | Create(id: ClaimId, resolves: bool, now: int)
    | Move(id: ClaimId, to: Status, reason: Option<string>, actorId: string, role: Role, now: int)
    | Score(id: ClaimId, fraudScore: real, hint: string, ringId: Option<string>, explanation: Option<Doc>,
            model: string, now: int)
    | Narrate(id: ClaimId, narrative: string, grounded: bool, model: string, actorId: string, role: Role, now: int)

  datatype Outcome = Done | Skipped | NotFound | Conflict | Forbidden | BadRequest | RolledBack

  /** What a transaction holding the claim's row lock decides from the status it read. */
  datatype Decision = Reject(why: Outcome) | Accept(status: Status, event: Event)

  predicate IsSpace(c: char) {
    var n := c as int;
    9 <= n <= 13 || 28 <= n <= 32 || n == 0x1680 || (0x2000 <= n <= 0x200A && n != 0x2007)
    || n == 0x2028 || n == 0x2029 || n == 0x205F || n == 0x3000
  }

  predicate Blank(reason: Option<string>) {
    reason.None? || forall i :: 0 <= i < |reason.value| ==> IsSpace(reason.value[i])
  }

  function StatusEvent(t: EventType, from: Status, to: Status, actorId: string, role: Role,
                       reason: Option<string>): Event
  {
    Event(t, Some(from), Some(to), actorId, role, reason, None, None, None, None)
  }

  function CreatedEvent(): Event {
    Event(ClaimCreated, None, Some(Submitted), INTAKE_ACTOR_ID, System, None, None, None, None, None)
  }

  function NarrativeDoc(narrative: string, grounded: bool): Doc {
    var j := Object([Field("narrative", Text(narrative)), Field("grounded", Bool(grounded))]);
    assert j.fields[0].key[0] != j.fields[1].key[0];
    assert DistinctKeys(j.fields) && WellFormed(j);
    j
  }

  function Decide(q: Request, from: Status): Decision
    requires q.Move? || q.Score? || q.Narrate?
  {
    match q
    case Move(_, to, reason, actorId, role, _) =>
      if !IsDefined(from, to) then Reject(Conflict)
      else if !IsAllowed(from, to, role) then Reject(Forbidden)
      else if RequiresReason(from, to) && Blank(reason) then Reject(BadRequest)
      else Accept(to, StatusEvent(if RequiresReason(from, to) then HumanOverride else StatusChanged,
                                  from, to, actorId, role, reason))
    case Score(_, score, hint, ringId, explanation, model, _) =>
      var target := if hint == "FLAG" then Flagged else UnderReview;
      var to := if IsAllowed(from, target, System) then target else from;
      Accept(to, Event(FraudScored, Some(from), Some(to), SCORING_ACTOR_ID, System, None,
                       Some(score), ringId, explanation, Some(model)))
    case Narrate(_, narrative, grounded, model, actorId, role, _) =>
      Accept(from, Event(NarrativeGenerated, Some(from), Some(from), actorId, role, None,
                         None, None, Some(NarrativeDoc(narrative, grounded)), Some(model)))
  }

  predicate IsScoreOf(r: Row, model: string) {
    r.event.eventType == FraudScored && r.event.modelVersion == Some(model)
  }

  predicate Scored(rows: seq<Row>, model: string) {
    exists i :: 0 <= i < |rows| && IsScoreOf(rows[i], model)
  }

  /** What the table accepts: the score fits NUMERIC(5, 4), (claim_id, seq) is unique, and so is
      (claim_id, model_version) among the FRAUD_SCORED rows. */
  predicate Admits(rows: seq<Row>, r: Row) {
    && (r.event.fraudScore.Some? ==> FitsColumn(r.event.fraudScore.value))
    && (forall i :: 0 <= i < |rows| ==> rows[i].seqNo != r.seqNo)
    && (r.event.eventType == FraudScored && r.event.modelVersion.Some? ==> !Scored(rows, r.event.modelVersion.value))
  }

  /** Commits a decision with its audit row, or rolls both back. */
  function Commit(env: Env, db: Db, id: ClaimId, status: Status, e: Event, now: int): (Db, Outcome) {
    var rows := Log(db, id);
    var r := NextRow(env, id, rows, e, now);
    if Admits(rows, r)
    then (db.(claims := db.claims[id := status], audit := db.audit[id := rows + [Persisted(env, r)]]), Done)
    else (db, RolledBack)
  }

  function SubmittedPayload(id: ClaimId): string {
    Write(Object([Field("claim_id", Text(id))]))
  }

  /** The id of a new row: one that no row has, standing in for a random one. */
  function FreshId(outbox: seq<OutboxRow>): (id: nat)
    ensures forall i :: 0 <= i < |outbox| ==> outbox[i].id < id
  {
    if outbox == [] then 0
    else
      var before, last := FreshId(outbox[..|outbox| - 1]), outbox[|outbox| - 1].id;
      if last < before then before else last + 1
  }

  /** One request running alone. */
  function Apply(env: Env, db: Db, q: Request): (Db, Outcome) {
    match q
    case Load(id) =>
      if id in db.claims then (db, Skipped) else (db.(claims := db.claims[id := Submitted]), Done)
    case Create(id, resolves, now) =>
      if id in db.claims || !resolves then (db, RolledBack)
      else
        var (db', o) := Commit(env, db, id, Submitted, CreatedEvent(), now);
        if o != Done then (db, RolledBack)
        else (db'.(outbox := db.outbox
                   + [OutboxRow(FreshId(db.outbox), id, CLAIM_SUBMITTED_TOPIC, SubmittedPayload(id), now, None)]), Done)
    case _ =>
      if q.Score? && Scored(Log(db, q.id), q.model) then (db, Skipped)
      else if q.id !in db.claims then (db, NotFound)
      else
        match Decide(q, db.claims[q.id])
        case Reject(why) => (db, why)
        case Accept(status, e) => Commit(env, db, q.id, status, e, q.now)
  }

  /** Requests running one after the other. */
  function ApplyAll(env: Env, db: Db, qs: seq<Request>): Db {
    if qs == [] then db else Apply(env, ApplyAll(env, db, qs[..|qs| - 1]), qs[|qs| - 1]).0
  }
}
