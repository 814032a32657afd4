/** What every run of the workflow guarantees about a claim and its audit log: the chain never
    forks, the log replays to the status, and the rules of the transition table hold over whole
    histories (backend/src/main/java/com/claimguard/service/ClaimService.java:67-206,
    backend/src/main/java/com/claimguard/workflow/ClaimTransitions.java:10-43). */
module WorkflowSafety {
  import opened Numerals
  import opened Options
  import opened Transitions
  import opened AuditRows
  import opened AuditChain
  import opened ClaimLedger
  import Interleaving

  /** The status the log has led to before row i; every claim starts out submitted. */
  function StatusAt(rows: seq<Row>, i: nat): Status
    requires i <= |rows|
  {
    if i == 0 || rows[i - 1].event.toStatus.None? then Submitted else rows[i - 1].event.toStatus.value
  }

  /** Why a row may move a claim from one status to another. */
  ghost predicate Permitted(e: Event, from: Status, to: Status) {
    match e.eventType
    case ClaimCreated => from == to == Submitted
    case StatusChanged => IsAllowed(from, to, e.actorRole) && !RequiresReason(from, to)
    case HumanOverride => IsAllowed(from, to, e.actorRole) && RequiresReason(from, to) && !Blank(e.reason)
    case FraudScored =>
      && e.actorRole == System && e.modelVersion.Some? && e.fraudScore.Some?
      && (to == from || IsAllowed(from, to, System))
    case NarrativeGenerated => to == from
  }

  /** Row i starts where the log had led, and makes a permitted move; only a first row may be the
      creation of the claim, and it has no previous status. */
  ghost predicate Replays(rows: seq<Row>, i: nat)
    requires i < |rows|
  {
    var e := rows[i].event;
    && e.toStatus.Some?
    && (if e.eventType == ClaimCreated then i == 0 && e.fromStatus == None && e.actorRole == System
        else e.fromStatus == Some(StatusAt(rows, i)))
    && Permitted(e, StatusAt(rows, i), e.toStatus.value)
  }

  ghost predicate ScoredOnce(rows: seq<Row>, i: nat, j: nat)
    requires i < |rows| && j < |rows|
  {
    rows[i].event.eventType == FraudScored && rows[j].event.eventType == FraudScored ==>
      rows[i].event.modelVersion != rows[j].event.modelVersion
  }

  ghost predicate LogInv(env: Env, db: Db, id: ClaimId) {
    var rows := Log(db, id);
    && Chain(env, id, rows)
    && (forall i :: 0 <= i < |rows| ==> Replays(rows, i))
    && (forall i, j :: 0 <= i < j < |rows| ==> ScoredOnce(rows, i, j))
    && (id in db.claims ==> db.claims[id] == StatusAt(rows, |rows|))
    && (id !in db.claims ==> rows == [])
  }

  ghost predicate Inv(env: Env, db: Db) {
    forall id :: LogInv(env, db, id)
  }

  // ----- every request keeps the invariant -----

  /** In a chain the next sequence number is new. */
  lemma NextSeqFresh(env: Env, id: ClaimId, rows: seq<Row>, e: Event, now: int)
    requires Chain(env, id, rows)
    ensures NextRow(env, id, rows, e, now).seqNo == |rows| + 1
    ensures forall i :: 0 <= i < |rows| ==> rows[i].seqNo != |rows| + 1
    ensures NextRow(env, id, rows, e, now).event == e
  {
    hide RowHash;
    if rows != [] { assert Linked(env, id, rows, |rows| - 1); }
    forall i | 0 <= i < |rows| ensures rows[i].seqNo != |rows| + 1 {
      assert Linked(env, id, rows, i);
    }
  }

  lemma PersistedEvent(env: Env, r: Row)
    ensures var p := Persisted(env, r);
      && p.event.eventType == r.event.eventType && p.event.fromStatus == r.event.fromStatus
      && p.event.toStatus == r.event.toStatus && p.event.actorRole == r.event.actorRole
      && p.event.reason == r.event.reason && p.event.modelVersion == r.event.modelVersion
      && p.event.fraudScore.Some? == r.event.fraudScore.Some?
  {
  }

  /** A row whose event makes a permitted move from where the log stands extends a good log. */
  lemma CommitKeepsLog(env: Env, db: Db, id: ClaimId, status: Status, e: Event, now: int)
    requires Sound(env) && LogInv(env, db, id)
    requires e.toStatus == Some(status)
    requires var rows := Log(db, id);
      && (if e.eventType == ClaimCreated then rows == [] && e.fromStatus == None && e.actorRole == System
          else e.fromStatus == Some(StatusAt(rows, |rows|)))
      && Permitted(e, StatusAt(rows, |rows|), status)
    requires Commit(env, db, id, status, e, now).1 == Done
    ensures LogInv(env, Commit(env, db, id, status, e, now).0, id)
  {
    hide Permitted, Persisted, NextRow, Chain;
    var rows, r := Log(db, id), NextRow(env, id, Log(db, id), e, now);
    var p := Persisted(env, r);
    var rows' := rows + [p];
    AppendKeepsChain(env, id, rows, e, now);
    NextSeqFresh(env, id, rows, e, now);
    PersistedEvent(env, r);
    PermittedDependsOn(e, p.event);
    assert Log(Commit(env, db, id, status, e, now).0, id) == rows';
    forall i | 0 <= i < |rows'| ensures Replays(rows', i) {
      if i < |rows| { assert Replays(rows, i); }
    }
    forall i, j | 0 <= i < j < |rows'| ensures ScoredOnce(rows', i, j) {
      if j < |rows| {
        assert ScoredOnce(rows, i, j);
      } else if e.eventType == FraudScored && rows[i].event.eventType == FraudScored {
        PermittedScore(e, StatusAt(rows, |rows|), status);
        assert !IsScoreOf(rows[i], e.modelVersion.value);
      }
    }
  }

  lemma PermittedDependsOn(e: Event, p: Event)
    requires p.eventType == e.eventType && p.actorRole == e.actorRole && p.reason == e.reason
    requires p.modelVersion == e.modelVersion && p.fraudScore.Some? == e.fraudScore.Some?
    ensures forall from, to :: Permitted(e, from, to) <==> Permitted(p, from, to)
  {
  }

  lemma PermittedScore(e: Event, from: Status, to: Status)
    requires Permitted(e, from, to) && e.eventType == FraudScored
    ensures e.modelVersion.Some?
  {
  }

  /** What a request decides under the lock is a permitted move from the status it read. */
  lemma DecisionsPermitted(q: Request, from: Status)
    requires Interleaving.Locking(q)
    ensures Decide(q, from).Accept? ==>
      var e, status := Decide(q, from).event, Decide(q, from).status;
      && e.eventType != ClaimCreated && e.fromStatus == Some(from) && e.toStatus == Some(status)
      && Permitted(e, from, status)
  {
    hide IsAllowed, IsDefined, Blank, RequiresReason;
  }

  lemma ApplyKeepsInv(env: Env, db: Db, q: Request)
    requires Sound(env) && Inv(env, db)
    ensures Inv(env, Apply(env, db, q).0)
  {
    hide Chain;
    var (db', o) := Apply(env, db, q);
    forall id ensures LogInv(env, db', id) {
      assert LogInv(env, db, id);
      if id != q.id {
        Interleaving.ApplyFrame(env, db, q, id);
      } else {
        ApplyKeepsOwnLog(env, db, q);
      }
    }
  }

  lemma ApplyKeepsOwnLog(env: Env, db: Db, q: Request)
    requires Sound(env) && LogInv(env, db, q.id)
    ensures LogInv(env, Apply(env, db, q).0, q.id)
  {
    hide Chain, Replays, ScoredOnce, Permitted, Decide, Admits, NextRow, Persisted;
    Interleaving.UnchangedUnlessDone(env, db, q);
    var (db', o) := Apply(env, db, q);
    if o == Done {
      if q.Create? {
        CreationPermitted();
        CommitKeepsLog(env, db, q.id, Submitted, CreatedEvent(), q.now);
      } else if Interleaving.Locking(q) {
        DecisionsPermitted(q, db.claims[q.id]);
        Interleaving.RejectionIsNotDone(q, db.claims[q.id]);
        var d := Decide(q, db.claims[q.id]);
        CommitKeepsLog(env, db, q.id, d.status, d.event, q.now);
      }
    }
  }

  lemma CreationPermitted()
    ensures Permitted(CreatedEvent(), Submitted, Submitted)
  {
  }

  lemma EmptyInv(env: Env)
    ensures Inv(env, EMPTY)
  {
  }

  lemma {:induction false} RunKeepsInv(env: Env, qs: seq<Request>)
    requires Sound(env)
    ensures Inv(env, ApplyAll(env, EMPTY, qs))
  {
    hide Chain;
    EmptyInv(env);
    if qs != [] {
      RunKeepsInv(env, qs[..|qs| - 1]);
      ApplyKeepsInv(env, ApplyAll(env, EMPTY, qs[..|qs| - 1]), qs[|qs| - 1]);
    }
  }

  /** Under every schedule of interleaved transactions every claim's log is an unforked,
      verifying chain with rows 1..n, it replays to the claim's status by permitted moves only,
      and no model version is scored twice. */
  lemma InterleavedLogs(env: Env, schedule: seq<Interleaving.Step>, id: ClaimId)
    requires Sound(env)
    ensures var db := Interleaving.Exec(env, schedule).db;
      LogInv(env, db, id) && Verifies(env, Log(db, id))
  {
    hide Chain;
    Interleaving.Serializable(env, schedule);
    RunKeepsInv(env, Interleaving.Exec(env, schedule).history);
    assert LogInv(env, Interleaving.Exec(env, schedule).db, id);
    ChainVerifies(env, id, Log(Interleaving.Exec(env, schedule).db, id));
  }

  // ----- what the invariant means for whole histories -----

  /** The status before and after row i. */
  predicate Moves(rows: seq<Row>, i: nat, from: Status, to: Status)
    requires i < |rows|
  {
    StatusAt(rows, i) == from && rows[i].event.toStatus == Some(to)
  }

  /** Safety of every single row: who may lift a flag, when a reason is on record, and that
      auditors, narratives and rows after a decision move nothing. */
  lemma RowSafety(env: Env, db: Db, id: ClaimId, i: nat, from: Status, to: Status)
    requires LogInv(env, db, id) && i < |Log(db, id)| && Moves(Log(db, id), i, from, to)
    ensures var e := Log(db, id)[i].event;
      && (from == Flagged && to != Flagged ==> e.actorRole == Investigator)
      && (from == Flagged && to == Approved <==> e.eventType == HumanOverride)
      && (e.eventType == HumanOverride ==> !Blank(e.reason))
      && (e.actorRole == Auditor || e.eventType == NarrativeGenerated ==> from == to)
      && (Terminal(from) ==> to == from)
      && (to == Approved && from != to ==> from == UnderReview || from == Flagged)
      && (to == Submitted ==> from == Submitted)
  {
    hide Chain, Blank;
    assert Replays(Log(db, id), i);
    var e := Log(db, id)[i].event;
    TransitionShape(from, to, e.actorRole);
    TransitionShape(from, to, System);
  }

  /** Approved and denied are absorbing: later rows may still record scores and narratives, but
      every one of them leaves the decision in place. */
  lemma {:induction false} DecisionsStand(env: Env, db: Db, id: ClaimId, i: nat, j: nat)
    requires LogInv(env, db, id) && i <= j <= |Log(db, id)| && Terminal(StatusAt(Log(db, id), i))
    ensures StatusAt(Log(db, id), j) == StatusAt(Log(db, id), i)
  {
    hide Chain;
    if i < j {
      DecisionsStand(env, db, id, i, j - 1);
      var rows := Log(db, id);
      assert Replays(rows, j - 1);
      RowSafety(env, db, id, j - 1, StatusAt(rows, j - 1), rows[j - 1].event.toStatus.value);
    }
  }

  /** What can still happen to a decided claim: a human move is a conflict; a narrative, and the first
      storable score of a model, add one row each and leave every status as it is. */
  lemma DecidedClaimsStillRecord(env: Env, db: Db, q: Request)
    requires Sound(env) && Inv(env, db) && q.id in db.claims && Terminal(db.claims[q.id]) && Interleaving.Locking(q)
    ensures var (db', o) := Apply(env, db, q);
      && (q.Move? ==> o == Conflict)
      && (q.Narrate? ==> o == Done)
      && (q.Score? ==> (o == Done <==> FitsColumn(q.fraudScore) && !Scored(Log(db, q.id), q.model)))
      && (o != Done ==> db' == db)
      && (o == Done ==> db'.claims == db.claims && |Log(db', q.id)| == |Log(db, q.id)| + 1
                        && Log(db, q.id) <= Log(db', q.id))
  {
    hide Chain, NextRow, Persisted, FitsColumn, Scored;
    var from, rows := db.claims[q.id], Log(db, q.id);
    assert LogInv(env, db, q.id);
    DecidedDecision(q, from);
    Interleaving.UnchangedUnlessDone(env, db, q);
    if !q.Move? {
      NextSeqFresh(env, q.id, rows, Decide(q, from).event, q.now);
    }
  }

  lemma DecidedDecision(q: Request, from: Status)
    requires Terminal(from) && Interleaving.Locking(q)
    ensures q.Move? ==> Decide(q, from) == Reject(Conflict)
    ensures !q.Move? ==>
      && Decide(q, from).Accept? && Decide(q, from).status == from
      && Decide(q, from).event.fraudScore == (if q.Score? then Some(q.fraudScore) else None)
      && Decide(q, from).event.modelVersion == Some(q.model)
      && Decide(q, from).event.eventType == (if q.Score? then FraudScored else NarrativeGenerated)
  {
    if q.Move? { TransitionShape(from, q.to, q.role); }
  }

  /** An approved claim was under review or flagged just before its approval, and some earlier row
      had put it there. */
  lemma {:induction false} ApprovalFollowsReview(env: Env, db: Db, id: ClaimId, n: nat) returns (j: nat, k: nat)
    requires LogInv(env, db, id) && n <= |Log(db, id)| && StatusAt(Log(db, id), n) == Approved
    ensures j < k < n
    ensures var rows := Log(db, id);
      && rows[j].event.toStatus == Some(StatusAt(rows, k)) && StatusAt(rows, k) in {UnderReview, Flagged}
      && Moves(rows, k, StatusAt(rows, k), Approved)
      && forall i :: k < i <= n ==> StatusAt(rows, i) == Approved
    decreases n
  {
    hide Chain;
    var rows := Log(db, id);
    assert n > 0;
    assert Replays(rows, n - 1);
    RowSafety(env, db, id, n - 1, StatusAt(rows, n - 1), Approved);
    if StatusAt(rows, n - 1) == Approved {
      j, k := ApprovalFollowsReview(env, db, id, n - 1);
    } else {
      k := n - 1;
      j := n - 2;
      assert Replays(rows, j);
    }
  }
}
