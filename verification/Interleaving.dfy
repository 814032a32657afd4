/** Transactions on the same tables, interleaved step by step: the duplicate check before the row
    lock, the lock, the decision, the read of the latest audit row, the draft of a new claim's first
    row, the commit
    (backend/src/main/java/com/claimguard/service/ClaimService.java:103-206,
    backend/src/main/java/com/claimguard/repository/ClaimRepository.java:38-40,
    backend/src/main/java/com/claimguard/service/AuditService.java:66-93). */
module Interleaving {
  import opened Options
  import opened Transitions
  import opened AuditRows
  import opened AuditChain
  import opened ClaimLedger

  datatype Pc =
    | Started
    | Drafted(row: Row)
    | Checked
    | Locked(from: Status)
    | Decided(status: Status, event: Event)
    | Prepared(status: Status, event: Event, row: Row)
    | Finished(outcome: Outcome)

  datatype Tx = Tx(q: Request, pc: Pc)

  /** The committed tables, the transactions, who holds which row lock, and the requests
      committed so far, in the order of their commits. */
  datatype Sys = Sys(db: Db, txs: map<nat, Tx>, locks: map<ClaimId, nat>, history: seq<Request>)

  const INITIAL := Sys(EMPTY, map[], map[], [])

  datatype Step =
    | Begin(t: nat, q: Request)
    | Insert(t: nat)
    | PreCheck(t: nat)
    | Lock(t: nat)
    | Decision(t: nat)
    | ReadLatest(t: nat)
    | CommitTx(t: nat)
    | Crash(t: nat)

  predicate Locking(q: Request) { q.Move? || q.Score? || q.Narrate? }

  predicate Holds(s: Sys, t: nat, id: ClaimId) { id in s.locks && s.locks[id] == t }

  function To(s: Sys, t: nat, pc: Pc): Sys
    requires t in s.txs
  {
    s.(txs := s.txs[t := s.txs[t].(pc := pc)])
  }

  /** Ends a transaction and releases the lock it holds. */
  function Finish(s: Sys, t: nat, o: Outcome): Sys
    requires t in s.txs
  {
    var id := s.txs[t].q.id;
    To(s, t, Finished(o)).(locks := if Holds(s, t, id) then s.locks - {id} else s.locks)
  }

  /** One step; a step that cannot be taken now, such as taking a held lock, changes nothing. */
  function Next(env: Env, s: Sys, step: Step): Sys {
    if step.Begin? then
      if step.t in s.txs then s else s.(txs := s.txs[step.t := Tx(step.q, Started)])
    else if step.t !in s.txs then s
    else
      var t, q, pc := step.t, s.txs[step.t].q, s.txs[step.t].pc;
      match step
      case Insert(_) =>
        if pc != Started || Locking(q) then s
        else if q.Create? then
          if !q.resolves then Finish(s, t, RolledBack)
          else To(s, t, Drafted(NextRow(env, q.id, Log(s.db, q.id), CreatedEvent(), q.now)))
        else
          var (db', o) := Apply(env, s.db, q);
          Finish(s, t, o).(db := db', history := if o == Done then s.history + [q] else s.history)
      case PreCheck(_) =>
        if pc != Started || !Locking(q) then s
        else if q.Score? && Scored(Log(s.db, q.id), q.model) then Finish(s, t, Skipped)
        else To(s, t, Checked)
      case Lock(_) =>
        if pc != Checked then s
        else if q.id !in s.db.claims then Finish(s, t, NotFound)
        else if q.id in s.locks then s
        else To(s, t, Locked(s.db.claims[q.id])).(locks := s.locks[q.id := t])
      case Decision(_) =>
        if !pc.Locked? || !Locking(q) then s
        else
          (match Decide(q, pc.from)
           case Reject(why) => Finish(s, t, why)
           case Accept(status, e) => To(s, t, Decided(status, e)))
      case ReadLatest(_) =>
        if !pc.Decided? || q.Load? then s
        else To(s, t, Prepared(pc.status, pc.event, NextRow(env, q.id, Log(s.db, q.id), pc.event, q.now)))
      case CommitTx(_) =>
        if pc.Drafted? && q.Create? then
          if q.id in s.db.claims || !Admits(Log(s.db, q.id), pc.row) then Finish(s, t, RolledBack)
          else Finish(s, t, Done).(
            db := Db(s.db.claims[q.id := Submitted],
                     s.db.audit[q.id := Log(s.db, q.id) + [Persisted(env, pc.row)]],
                     s.db.outbox + [OutboxRow(FreshId(s.db.outbox), q.id, CLAIM_SUBMITTED_TOPIC,
                                              SubmittedPayload(q.id), q.now, None)]),
            history := s.history + [q])
        else if !pc.Prepared? then s
        else
          var rows := Log(s.db, q.id);
          if !Admits(rows, pc.row) then Finish(s, t, RolledBack)
          else Finish(s, t, Done).(
            db := s.db.(claims := s.db.claims[q.id := pc.status],
                        audit := s.db.audit[q.id := rows + [Persisted(env, pc.row)]]),
            history := s.history + [q])
      case Crash(_) =>
        if pc.Finished? then s else Finish(s, t, RolledBack)
      case _ => s
  }

  /** The state after a schedule. */
  function Exec(env: Env, schedule: seq<Step>): Sys {
    if schedule == [] then INITIAL
    else Next(env, Exec(env, schedule[..|schedule| - 1]), schedule[|schedule| - 1])
  }

  /** What a transaction knows about the tables at each point. */
  ghost predicate TxInv(env: Env, s: Sys, t: nat)
    requires t in s.txs
  {
    var q, pc := s.txs[t].q, s.txs[t].pc;
    match pc
    case Started => true
    case Finished(_) => true
    case Drafted(row) =>
      && q.Create? && q.resolves
      && (q.id !in s.db.claims ==> row == NextRow(env, q.id, [], CreatedEvent(), q.now))
    case Checked => Locking(q)
    case Locked(from) => Locking(q) && Holds(s, t, q.id) && q.id in s.db.claims && from == s.db.claims[q.id]
    case Decided(status, e) =>
      && Locking(q) && Holds(s, t, q.id) && q.id in s.db.claims
      && Decide(q, s.db.claims[q.id]) == Accept(status, e)
    case Prepared(status, e, row) =>
      && Locking(q) && Holds(s, t, q.id) && q.id in s.db.claims
      && Decide(q, s.db.claims[q.id]) == Accept(status, e)
      && row == NextRow(env, q.id, Log(s.db, q.id), e, q.now)
  }

  /** No audit row without its claim: the table's foreign key. */
  ghost predicate ForeignKey(db: Db) {
    forall id :: id in db.audit ==> id in db.claims
  }

  ghost predicate Inv(env: Env, s: Sys) {
    ForeignKey(s.db) && forall t :: t in s.txs ==> TxInv(env, s, t)
  }

  predicate Critical(pc: Pc) { pc.Locked? || pc.Decided? || pc.Prepared? }

  /** A change to the tables that leaves the rows of a locked claim alone does not disturb the
      transaction holding that lock. */
  lemma OthersUndisturbed(env: Env, s: Sys, s': Sys, t: nat)
    requires t in s.txs && t in s'.txs && s'.txs[t] == s.txs[t] && TxInv(env, s, t)
    requires s.db.claims.Keys <= s'.db.claims.Keys
    requires Critical(s.txs[t].pc) ==>
      var id := s.txs[t].q.id;
      && Holds(s', t, id) && id in s'.db.claims
      && s'.db.claims[id] == s.db.claims[id] && Log(s'.db, id) == Log(s.db, id)
    ensures TxInv(env, s', t)
  {
    hide Decide, NextRow;
  }

  /** Apply touches the rows of its own claim only. */
  lemma ApplyFrame(env: Env, db: Db, q: Request, id: ClaimId)
    requires id != q.id
    ensures var db' := Apply(env, db, q).0;
      && (id in db'.claims <==> id in db.claims)
      && (id in db.claims ==> db'.claims[id] == db.claims[id])
      && Log(db', id) == Log(db, id)
  {
    hide Decide, NextRow, Persisted, Admits;
  }

  /** No request makes a claim disappear. */
  lemma ClaimsStay(env: Env, db: Db, q: Request)
    ensures db.claims.Keys <= Apply(env, db, q).0.claims.Keys
  {
    hide Decide, NextRow, Persisted, Admits;
  }

  lemma ApplyForeignKey(env: Env, db: Db, q: Request)
    requires ForeignKey(db)
    ensures ForeignKey(Apply(env, db, q).0)
  {
    hide Decide, NextRow, Persisted, Admits;
  }

  /** Writing a decision taken under the lock is exactly what the request does when run alone. */
  lemma CommitIsApply(env: Env, s: Sys, t: nat)
    requires t in s.txs && TxInv(env, s, t) && s.txs[t].pc.Prepared?
    ensures var s' := Next(env, s, CommitTx(t));
      && (s'.history == s.history ==> s'.db == s.db)
      && (s'.history != s.history ==>
            s'.history == s.history + [s.txs[t].q] && Apply(env, s.db, s.txs[t].q) == (s'.db, Done))
  {
    hide Decide, NextRow, Persisted;
    var q, pc := s.txs[t].q, s.txs[t].pc;
    if Admits(Log(s.db, q.id), pc.row) && q.Score? {
      ScoreEvent(q, s.db.claims[q.id]);
      NextRowEvent(env, q.id, Log(s.db, q.id), pc.event, q.now);
    }
  }

  /** Committing a draft is exactly what creating the claim does when run alone: whatever was
      committed meanwhile, the claim was not visible to anyone. */
  lemma DraftIsApply(env: Env, s: Sys, t: nat)
    requires ForeignKey(s.db) && t in s.txs && TxInv(env, s, t) && s.txs[t].pc.Drafted?
    ensures var s' := Next(env, s, CommitTx(t));
      && (s'.history == s.history ==> s'.db == s.db)
      && (s'.history != s.history ==>
            s'.history == s.history + [s.txs[t].q] && Apply(env, s.db, s.txs[t].q) == (s'.db, Done))
  {
    hide NextRow, Persisted, SubmittedPayload;
  }

  lemma ScoreEvent(q: Request, from: Status)
    requires q.Score?
    ensures Decide(q, from).Accept?
    ensures Decide(q, from).event.eventType == FraudScored && Decide(q, from).event.modelVersion == Some(q.model)
  {
  }

  lemma NextRowEvent(env: Env, id: ClaimId, rows: seq<Row>, e: Event, now: int)
    ensures NextRow(env, id, rows, e, now).event == e
  {
  }

  /** From s to s' the committed tables change not at all, or as t's request does when run alone. */
  ghost predicate Serial(env: Env, s: Sys, t: nat, s': Sys) {
    || (s'.db == s.db && s'.history == s.history)
    || (t in s.txs && s'.history == s.history + [s.txs[t].q] && Apply(env, s.db, s.txs[t].q) == (s'.db, Done))
  }

  /** If t ends here, and not by a rollback, its outcome is the one its request has alone. */
  ghost predicate OutcomeAlone(env: Env, s: Sys, t: nat, s': Sys) {
    t in s.txs && t in s'.txs && s.txs[t].pc != s'.txs[t].pc && s'.txs[t].pc.Finished?
    && s'.txs[t].pc.outcome != RolledBack
    ==> Apply(env, s.db, s.txs[t].q) == (s'.db, s'.txs[t].pc.outcome)
  }

  /** Each step changes the committed tables either not at all or as the request does when it
      runs alone, and an outcome other than a rollback is the one the request has alone. */
  lemma StepSerializes(env: Env, s: Sys, step: Step)
    requires Inv(env, s)
    ensures Inv(env, Next(env, s, step))
    ensures Serial(env, s, step.t, Next(env, s, step)) && OutcomeAlone(env, s, step.t, Next(env, s, step))
  {
    hide Next, TxInv, Apply;
    var s' := Next(env, s, step);
    assert step.t in s.txs ==> TxInv(env, s, step.t);
    StepOutcome(env, s, step);
    if s'.db != s.db { ApplyForeignKey(env, s.db, s.txs[step.t].q); }
    SameTransactions(env, s, step);
    forall t | t in s'.txs ensures TxInv(env, s', t) {
      if t == step.t { StepKeepsOwn(env, s, step); } else { StepKeepsOther(env, s, step, t); }
    }
  }

  lemma SameTransactions(env: Env, s: Sys, step: Step)
    ensures Next(env, s, step).txs.Keys == s.txs.Keys + (if step.Begin? then {step.t} else {})
  {
    hide Apply, NextRow, Decide, Admits, Persisted, SubmittedPayload;
  }

  lemma StepOutcome(env: Env, s: Sys, step: Step)
    requires ForeignKey(s.db)
    requires step.t in s.txs ==> TxInv(env, s, step.t)
    ensures Serial(env, s, step.t, Next(env, s, step)) && OutcomeAlone(env, s, step.t, Next(env, s, step))
  {
    hide Decide, NextRow, Persisted, Admits;
    if step.t in s.txs && step.CommitTx? && s.txs[step.t].pc.Prepared? {
      CommitIsApply(env, s, step.t);
    } else if step.t in s.txs && step.CommitTx? && s.txs[step.t].pc.Drafted? {
      DraftIsApply(env, s, step.t);
    } else if step.t in s.txs && step.Insert? {
      UnchangedUnlessDone(env, s.db, s.txs[step.t].q);
    } else if step.t in s.txs && step.Decision? && s.txs[step.t].pc.Locked? && s.txs[step.t].q.Score? {
      ScoreEvent(s.txs[step.t].q, s.txs[step.t].pc.from);
    }
  }

  lemma UnchangedUnlessDone(env: Env, db: Db, q: Request)
    ensures Apply(env, db, q).1 != Done ==> Apply(env, db, q).0 == db
  {
    hide NextRow, Persisted, Admits, Decide;
    if Locking(q) && q.id in db.claims && Decide(q, db.claims[q.id]).Reject? {
      RejectionIsNotDone(q, db.claims[q.id]);
    }
  }

  lemma RejectionIsNotDone(q: Request, from: Status)
    requires Locking(q)
    ensures Decide(q, from).Reject? ==> Decide(q, from).why in {Conflict, Forbidden, BadRequest}
  {
  }

  lemma StepKeepsOwn(env: Env, s: Sys, step: Step)
    requires ForeignKey(s.db) && (step.t in s.txs ==> TxInv(env, s, step.t))
    ensures step.t in Next(env, s, step).txs ==> TxInv(env, Next(env, s, step), step.t)
  {
    hide Decide, NextRow, Persisted, Admits, Apply;
  }

  lemma StepKeepsOther(env: Env, s: Sys, step: Step, t: nat)
    requires t != step.t && t in s.txs && TxInv(env, s, t)
    requires step.t in s.txs ==> TxInv(env, s, step.t)
    ensures var s' := Next(env, s, step);
      t in s'.txs && s'.txs[t] == s.txs[t] && TxInv(env, s', t)
  {
    hide Decide, NextRow, Persisted, Admits, Apply, SubmittedPayload;
    OtherStays(env, s, step, t);
    if Critical(s.txs[t].pc) { LockedRowsStay(env, s, step, t); }
    hide Next;
    OthersUndisturbed(env, s, Next(env, s, step), t);
  }

  lemma OtherStays(env: Env, s: Sys, step: Step, t: nat)
    requires t != step.t && t in s.txs
    ensures var s' := Next(env, s, step);
      && t in s'.txs && s'.txs[t] == s.txs[t] && s.db.claims.Keys <= s'.db.claims.Keys
      && forall id :: Holds(s, t, id) ==> Holds(s', t, id)
  {
    hide Decide, NextRow, Persisted, Admits, Apply, SubmittedPayload;
    if step.t in s.txs { ClaimsStay(env, s.db, s.txs[step.t].q); }
  }

  /** While t holds a claim's lock, nobody else changes that claim's rows. */
  lemma LockedRowsStay(env: Env, s: Sys, step: Step, t: nat)
    requires t != step.t && t in s.txs && TxInv(env, s, t) && Critical(s.txs[t].pc)
    requires step.t in s.txs ==> TxInv(env, s, step.t)
    ensures var s', id := Next(env, s, step), s.txs[t].q.id;
      && id in s'.db.claims && s'.db.claims[id] == s.db.claims[id] && Log(s'.db, id) == Log(s.db, id)
  {
    hide Decide, NextRow, Persisted, Admits, Apply, SubmittedPayload;
    if step.t in s.txs && step.Insert? && !Locking(s.txs[step.t].q) {
      var q, id := s.txs[step.t].q, s.txs[t].q.id;
      if id != q.id { ApplyFrame(env, s.db, q, id); } else { InsertFrame(env, s.db, q); }
    }
  }

  /** Creating or loading leaves a claim that exists as it is. */
  lemma InsertFrame(env: Env, db: Db, q: Request)
    requires !Locking(q) && q.id in db.claims
    ensures Apply(env, db, q).0 == db
  {
  }

  /** Serializability: under every schedule, crashes and blocked steps included, the committed
      tables are those of running the committed requests one after the other. */
  lemma {:induction false} Serializable(env: Env, schedule: seq<Step>)
    ensures Inv(env, Exec(env, schedule))
    ensures Exec(env, schedule).db == ApplyAll(env, EMPTY, Exec(env, schedule).history)
  {
    if schedule != [] {
      var n := |schedule| - 1;
      Serializable(env, schedule[..n]);
      var s, s' := Exec(env, schedule[..n]), Exec(env, schedule);
      StepSerializes(env, s, schedule[n]);
      if s'.history != s.history {
        assert s'.history[..|s'.history| - 1] == s.history;
      }
    }
  }
}
