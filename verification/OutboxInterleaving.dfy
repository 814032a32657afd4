/** Transactions and the publisher together on the same tables: every step of every transaction
    can come between any two of the publisher's
    (backend/src/main/java/com/claimguard/service/ClaimService.java:67-206,
    backend/src/main/java/com/claimguard/service/OutboxPublisher.java:48-62). */
module OutboxInterleaving {
  import opened Options
  import opened AuditChain
  import opened ClaimLedger
  import opened OutboxDelivery
  import Interleaving
  import WorkflowSafety

  /** The transactions with the tables they share with the publisher, and the publisher's own part. */
  datatype Joint = Joint(txs: Interleaving.Sys, topic: seq<Message>, snapshot: seq<OutboxRow>,
                         pending: seq<OutboxRow>, acked: Option<OutboxRow>, clean: bool)

  const START := Joint(Interleaving.INITIAL, [], [], [], None, false)

  datatype Turn = Transaction(step: Interleaving.Step) | Publisher(action: Action)

  /** What the publisher sees. */
  function Seen(j: Joint): Sys {
    Sys(j.txs.db, j.topic, j.snapshot, j.pending, j.acked, j.clean)
  }

  /** One turn; requests are taken by transactions only. */
  function Take(env: Env, j: Joint, turn: Turn): Joint {
    match turn
    case Transaction(step) => j.(txs := Interleaving.Next(env, j.txs, step))
    case Publisher(action) =>
      if action.Handle? then j
      else
        var s := Next(env, Seen(j), action);
        Joint(j.txs.(db := s.db), s.topic, s.snapshot, s.pending, s.acked, s.clean)
  }

  function Play(env: Env, turns: seq<Turn>): Joint {
    if turns == [] then START else Take(env, Play(env, turns[..|turns| - 1]), turns[|turns| - 1])
  }

  /** No transaction depends on the outbox rows that are there. */
  lemma OutboxIsFree(env: Env, s: Interleaving.Sys, db: Db)
    requires Interleaving.Inv(env, s) && db.claims == s.db.claims && db.audit == s.db.audit
    ensures Interleaving.Inv(env, s.(db := db))
  {
    hide Decide, NextRow;
    var s' := s.(db := db);
    forall t | t in s'.txs ensures Interleaving.TxInv(env, s', t) {
      assert Interleaving.TxInv(env, s, t);
    }
  }

  lemma PublisherWritesOutboxOnly(env: Env, s: Sys, a: Action)
    requires !a.Handle?
    ensures Next(env, s, a).db.claims == s.db.claims && Next(env, s, a).db.audit == s.db.audit
  {
  }

  lemma LogsIgnoreOutbox(env: Env, db: Db, db': Db)
    requires WorkflowSafety.Inv(env, db) && db'.claims == db.claims && db'.audit == db.audit
    ensures WorkflowSafety.Inv(env, db')
  {
    hide Chain;
    forall id ensures WorkflowSafety.LogInv(env, db', id) { assert WorkflowSafety.LogInv(env, db, id); }
  }

  /** Every joint run looks, to the publisher, like a run in which whole requests come one by one. */
  lemma {:induction false} JointRunsAreRuns(env: Env, turns: seq<Turn>) returns (actions: seq<Action>)
    ensures Interleaving.Inv(env, Play(env, turns).txs)
    ensures Seen(Play(env, turns)) == ExecFrom(env, INITIAL, actions)
    ensures Sound(env) ==> WorkflowSafety.Inv(env, Play(env, turns).txs.db)
  {
    if turns == [] {
      actions := [];
      WorkflowSafety.EmptyInv(env);
    } else {
      var j, turn := Play(env, turns[..|turns| - 1]), turns[|turns| - 1];
      hide Interleaving.Next, Interleaving.Inv, WorkflowSafety.Inv, Next, Apply;
      actions := JointRunsAreRuns(env, turns[..|turns| - 1]);
      match turn
      case Transaction(step) =>
        var handled := TransactionTurn(env, j, step);
        if handled.Some? {
          OneMoreAction(env, actions, Handle(handled.value));
          actions := actions + [Handle(handled.value)];
        }
      case Publisher(action) =>
        if !action.Handle? {
          PublisherTurn(env, j, action);
          OneMoreAction(env, actions, action);
          actions := actions + [action];
        }
    }
  }

  lemma OneMoreAction(env: Env, actions: seq<Action>, a: Action)
    ensures ExecFrom(env, INITIAL, actions + [a]) == Next(env, ExecFrom(env, INITIAL, actions), a)
  {
    assert (actions + [a])[..|actions + [a]| - 1] == actions;
  }

  /** A transaction's step is nothing to the publisher, or one whole request. */
  lemma TransactionTurn(env: Env, j: Joint, step: Interleaving.Step) returns (handled: Option<Request>)
    requires Interleaving.Inv(env, j.txs)
    ensures var j' := Take(env, j, Transaction(step));
      && Interleaving.Inv(env, j'.txs)
      && Seen(j') == (if handled.Some? then Next(env, Seen(j), Handle(handled.value)) else Seen(j))
      && (Sound(env) && WorkflowSafety.Inv(env, j.txs.db) ==> WorkflowSafety.Inv(env, j'.txs.db))
  {
    hide Interleaving.Next, Interleaving.Inv, WorkflowSafety.Inv, Apply;
    Interleaving.StepSerializes(env, j.txs, step);
    var s' := Interleaving.Next(env, j.txs, step);
    if s'.db == j.txs.db && s'.history == j.txs.history {
      handled := None;
    } else {
      handled := Some(j.txs.txs[step.t].q);
      if Sound(env) && WorkflowSafety.Inv(env, j.txs.db) {
        WorkflowSafety.ApplyKeepsInv(env, j.txs.db, handled.value);
      }
    }
  }

  lemma PublisherTurn(env: Env, j: Joint, action: Action)
    requires Interleaving.Inv(env, j.txs) && !action.Handle?
    ensures var j' := Take(env, j, Publisher(action));
      && Interleaving.Inv(env, j'.txs)
      && Seen(j') == Next(env, Seen(j), action)
      && (WorkflowSafety.Inv(env, j.txs.db) ==> WorkflowSafety.Inv(env, j'.txs.db))
  {
    PublisherWritesOutboxOnly(env, Seen(j), action);
    hide Interleaving.Inv, WorkflowSafety.Inv, Next;
    var db := Next(env, Seen(j), action).db;
    OutboxIsFree(env, j.txs, db);
    if WorkflowSafety.Inv(env, j.txs.db) { LogsIgnoreOutbox(env, j.txs.db, db); }
  }

  /** Safety of the whole: under every interleaving of transaction steps, sends, marks and crashes
      the outbox and the topic are safe, and every claim's log is a verifying chain that replays to
      its status. */
  lemma JointSafety(env: Env, turns: seq<Turn>)
    ensures Safe(Seen(Play(env, turns)))
    ensures var db := Play(env, turns).txs.db;
      Sound(env) ==> forall id :: WorkflowSafety.LogInv(env, db, id) && Verifies(env, Log(db, id))
  {
    var actions := JointRunsAreRuns(env, turns);
    hide Chain, Safe, Play;
    DeliverySafety(env, actions);
    if Sound(env) {
      var db := Play(env, turns).txs.db;
      forall id ensures WorkflowSafety.LogInv(env, db, id) && Verifies(env, Log(db, id)) {
        assert WorkflowSafety.LogInv(env, db, id);
        ChainVerifies(env, id, Log(db, id));
      }
    }
  }
}
