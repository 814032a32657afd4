/** The outbox and its publisher as one system: requests commit outbox rows with their claims
    while the publisher polls, sends, loses acknowledgements, marks rows and crashes
    (backend/src/main/java/com/claimguard/service/OutboxPublisher.java:48-62,
    backend/src/main/java/com/claimguard/repository/OutboxEventRepository.java:14-35,
    backend/src/main/java/com/claimguard/service/ClaimService.java:67-85). */
module OutboxDelivery {
  import opened Options
  import opened Sorting
  import opened Transitions
  import opened AuditRows
  import opened AuditChain
  import opened ClaimLedger
  import Interleaving
  import WorkflowSafety

  datatype Message = Message(topic: string, key: ClaimId, payload: string)

  function MessageOf(r: OutboxRow): Message { Message(r.topic, r.aggregate, r.payload) }

  predicate OlderOrEqual(a: OutboxRow, b: OutboxRow) { a.createdAt <= b.createdAt }

  function Unsent(rows: seq<OutboxRow>): seq<OutboxRow> {
    if rows == [] then []
    else Unsent(rows[..|rows| - 1]) + (if rows[|rows| - 1].sentAt.None? then [rows[|rows| - 1]] else [])
  }

  /** The poll: unsent rows, oldest first. */
  function Pending(rows: seq<OutboxRow>): seq<OutboxRow> { Sort(Unsent(rows), OlderOrEqual) }

  function MarkSent(rows: seq<OutboxRow>, id: nat, at: int): (marked: seq<OutboxRow>)
    ensures |marked| == |rows|
    ensures forall i :: 0 <= i < |rows| ==>
      marked[i] == if rows[i].id == id then rows[i].(sentAt := Some(at)) else rows[i]
  {
    if rows == [] then []
    else
      var last := rows[|rows| - 1];
      MarkSent(rows[..|rows| - 1], id, at) + [if last.id == id then last.(sentAt := Some(at)) else last]
  }

  /** The tables and the topic; the rest of a pass: the snapshot it polled, what of it is still to
      be sent, the row that was acknowledged and not yet marked, and whether nothing failed so far. */
  datatype Sys = Sys(db: Db, topic: seq<Message>, snapshot: seq<OutboxRow>, pending: seq<OutboxRow>,
                     acked: Option<OutboxRow>, clean: bool)

  const INITIAL := Sys(EMPTY, [], [], [], None, false)

  datatype Action =
    | Handle(q: Request)
    | Poll
    | SendAcked
    | SendLostAck
    | SendFails
    | Mark(at: int)
    | MarkFails
    | Crash

  /** One action; a send needs a pending row and no row waiting to be marked, and so on. */
  function Next(env: Env, s: Sys, a: Action): Sys {
    match a
    case Handle(q) => s.(db := Apply(env, s.db, q).0)
    case Poll =>
      if s.pending != [] || s.acked.Some? then s
      else s.(snapshot := Pending(s.db.outbox), pending := Pending(s.db.outbox), clean := true)
    case SendAcked =>
      if s.pending == [] || s.acked.Some? then s
      else s.(topic := s.topic + [MessageOf(s.pending[0])], acked := Some(s.pending[0]), pending := s.pending[1..])
    case SendLostAck =>
      if s.pending == [] || s.acked.Some? then s
      else s.(topic := s.topic + [MessageOf(s.pending[0])], pending := s.pending[1..], clean := false)
    case SendFails =>
      if s.pending == [] || s.acked.Some? then s else s.(pending := s.pending[1..], clean := false)
    case Mark(at) =>
      if s.acked.None? then s
      else s.(db := s.db.(outbox := MarkSent(s.db.outbox, s.acked.value.id, at)), acked := None)
    case MarkFails => s.(acked := None, clean := s.clean && s.acked.None?)
    case Crash => s.(snapshot := [], pending := [], acked := None, clean := false)
  }

  function ExecFrom(env: Env, s: Sys, actions: seq<Action>): Sys {
    if actions == [] then s else Next(env, ExecFrom(env, s, actions[..|actions| - 1]), actions[|actions| - 1])
  }

  // ----- the rows -----

  /** A claim made by createClaim: its log starts with its creation. */
  predicate Created(db: Db, id: ClaimId) {
    Log(db, id) != [] && Log(db, id)[0].event.eventType == ClaimCreated
  }

  predicate HasRow(rows: seq<OutboxRow>, id: ClaimId) {
    exists i :: 0 <= i < |rows| && rows[i].aggregate == id
  }

  /** Every created claim has exactly one claim.submitted row, and there are no other rows. */
  ghost predicate RowsMatchClaims(db: Db) {
    && Interleaving.ForeignKey(db)
    && (forall i :: 0 <= i < |db.outbox| ==> SubmissionRow(db, db.outbox[i]))
    && (forall i, j :: 0 <= i < j < |db.outbox| ==> Apart(db.outbox[i], db.outbox[j]))
    && (forall id :: Created(db, id) ==> HasRow(db.outbox, id))
  }

  predicate SubmissionRow(db: Db, r: OutboxRow) {
    && Created(db, r.aggregate)
    && MessageOf(r) == Message(CLAIM_SUBMITTED_TOPIC, r.aggregate, SubmittedPayload(r.aggregate))
  }

  predicate Apart(r1: OutboxRow, r2: OutboxRow) { r1.id != r2.id && r1.aggregate != r2.aggregate }

  /** A request extends logs only, and only creation starts a log with a creation row. */
  lemma LogsExtend(env: Env, db: Db, q: Request, id: ClaimId)
    requires Interleaving.ForeignKey(db)
    ensures var (db', o) := Apply(env, db, q);
      && Log(db, id) <= Log(db', id)
      && (Created(db', id) <==> Created(db, id) || (q.Create? && o == Done && id == q.id))
      && db'.outbox == db.outbox + (if q.Create? && o == Done
           then [OutboxRow(FreshId(db.outbox), q.id, CLAIM_SUBMITTED_TOPIC, SubmittedPayload(q.id), q.now, None)]
           else [])
  {
    hide Persisted, NextRow, Admits, Decide, SubmittedPayload;
    if id != q.id { Interleaving.ApplyFrame(env, db, q, id); }
    if q.id in db.claims && Interleaving.Locking(q) {
      var d := Decide(q, db.claims[q.id]);
      if d.Accept? {
        AppendedEvent(env, db, q, db.claims[q.id]);
        Interleaving.NextRowEvent(env, q.id, Log(db, q.id), d.event, q.now);
        PersistedType(env, NextRow(env, q.id, Log(db, q.id), d.event, q.now));
      } else {
        Interleaving.RejectionIsNotDone(q, db.claims[q.id]);
      }
    } else if q.Create? && q.id !in db.claims {
      Interleaving.NextRowEvent(env, q.id, Log(db, q.id), CreatedEvent(), q.now);
      PersistedType(env, NextRow(env, q.id, Log(db, q.id), CreatedEvent(), q.now));
    }
  }

  lemma AppendedEvent(env: Env, db: Db, q: Request, from: Status)
    requires Interleaving.Locking(q) && Decide(q, from).Accept?
    ensures Decide(q, from).event.eventType != ClaimCreated
  {
  }

  lemma PersistedType(env: Env, r: Row)
    ensures Persisted(env, r).event.eventType == r.event.eventType
  {
  }

  lemma RequestKeepsRows(env: Env, db: Db, q: Request)
    requires RowsMatchClaims(db)
    ensures RowsMatchClaims(Apply(env, db, q).0)
  {
    hide Apply, SubmittedPayload, Created, RowsMatchClaims, SubmissionRow;
    RowsForeignKey(db);
    var (db', o) := Apply(env, db, q);
    Interleaving.ApplyForeignKey(env, db, q);
    LogsExtend(env, db, q, q.id);
    forall id ensures Created(db', id) <==> Created(db, id) || (q.Create? && o == Done && id == q.id) {
      LogsExtend(env, db, q, id);
    }
    if q.Create? && o == Done {
      CreateOnlyNew(env, db, q);
      NewRowKeepsRows(db, db', db'.outbox[|db.outbox|]);
    } else {
      SameRowsKept(db, db');
    }
  }

  lemma SameRowsKept(db: Db, db': Db)
    requires RowsMatchClaims(db) && Interleaving.ForeignKey(db') && db'.outbox == db.outbox
    requires forall id :: Created(db', id) <==> Created(db, id)
    ensures RowsMatchClaims(db')
  {
    hide Created, SubmittedPayload, HasRow;
    forall i | 0 <= i < |db'.outbox| ensures SubmissionRow(db', db'.outbox[i]) {
      assert SubmissionRow(db, db.outbox[i]);
    }
  }

  /** One more row, for the one claim that is newly created. */
  lemma NewRowKeepsRows(db: Db, db': Db, row: OutboxRow)
    requires RowsMatchClaims(db) && Interleaving.ForeignKey(db') && db'.outbox == db.outbox + [row]
    requires row.id == FreshId(db.outbox) && !Created(db, row.aggregate)
    requires MessageOf(row) == Message(CLAIM_SUBMITTED_TOPIC, row.aggregate, SubmittedPayload(row.aggregate))
    requires forall id :: Created(db', id) <==> Created(db, id) || id == row.aggregate
    ensures RowsMatchClaims(db')
  {
    hide Created, SubmittedPayload, FreshId;
    var n := |db.outbox|;
    forall i | 0 <= i <= n ensures SubmissionRow(db', db'.outbox[i]) && (i < n ==> Apart(db'.outbox[i], row)) {
      if i < n { assert SubmissionRow(db, db.outbox[i]); }
    }
    forall i, j | 0 <= i < j < |db'.outbox| ensures Apart(db'.outbox[i], db'.outbox[j]) {
      if j < n { assert Apart(db.outbox[i], db.outbox[j]); }
    }
    forall id | Created(db', id) ensures HasRow(db'.outbox, id) {
      if Created(db, id) {
        var i :| 0 <= i < n && db.outbox[i].aggregate == id;
        assert db'.outbox[i].aggregate == id;
      } else {
        assert db'.outbox[n].aggregate == id;
      }
    }
  }

  lemma CreateOnlyNew(env: Env, db: Db, q: Request)
    requires q.Create? && Apply(env, db, q).1 == Done && Interleaving.ForeignKey(db)
    ensures !Created(db, q.id)
  {
    hide NextRow, Persisted, Admits;
  }

  lemma MarkKeepsRows(db: Db, id: nat, at: int)
    requires RowsMatchClaims(db)
    ensures RowsMatchClaims(db.(outbox := MarkSent(db.outbox, id, at)))
  {
    hide MarkSent, SubmittedPayload, HasRow;
    var db' := db.(outbox := MarkSent(db.outbox, id, at));
    assert Interleaving.ForeignKey(db');
    forall c ensures Created(db', c) == Created(db, c) {}
    forall i | 0 <= i < |db'.outbox| ensures SubmissionRow(db', db'.outbox[i]) {
      assert SubmissionRow(db, db.outbox[i]);
    }
    forall i, j | 0 <= i < j < |db'.outbox| ensures Apart(db'.outbox[i], db'.outbox[j]) {
      assert Apart(db.outbox[i], db.outbox[j]);
    }
    forall c | Created(db', c) ensures HasRow(db'.outbox, c) {
      assert Created(db, c);
      MarkKeepsRow(db.outbox, id, at, c);
    }
  }

  lemma MarkKeepsRow(rows: seq<OutboxRow>, id: nat, at: int, c: ClaimId)
    requires HasRow(rows, c)
    ensures HasRow(MarkSent(rows, id, at), c)
  {
    var i :| 0 <= i < |rows| && rows[i].aggregate == c;
    assert MarkSent(rows, id, at)[i].aggregate == c;
  }

  // ----- the system -----

  /** Row r is in the table, up to its sent mark. */
  ghost predicate InTable(rows: seq<OutboxRow>, r: OutboxRow) {
    exists i :: 0 <= i < |rows| && rows[i].id == r.id && MessageOf(rows[i]) == MessageOf(r)
  }

  ghost predicate IsSent(rows: seq<OutboxRow>, id: nat) {
    exists i :: 0 <= i < |rows| && rows[i].id == id && rows[i].sentAt.Some?
  }

  ghost predicate FromTable(rows: seq<OutboxRow>, m: Message) {
    exists i :: 0 <= i < |rows| && MessageOf(rows[i]) == m
  }

  /** Marked rows are in the topic, and the topic holds nothing but rows' messages. */
  ghost predicate TopicMatches(rows: seq<OutboxRow>, topic: seq<Message>) {
    && (forall i :: 0 <= i < |rows| && rows[i].sentAt.Some? ==> MessageOf(rows[i]) in topic)
    && (forall m :: m in topic ==> FromTable(rows, m))
  }

  /** The pass under way works on rows of the table, and in a clean pass every row of the snapshot
      is still to be sent, waits to be marked, or is marked. */
  ghost predicate PassMatches(rows: seq<OutboxRow>, s: Sys) {
    && (forall r :: r in s.pending ==> InTable(rows, r))
    && (s.acked.Some? ==> InTable(rows, s.acked.value) && MessageOf(s.acked.value) in s.topic)
    && (s.clean ==> forall r :: r in s.snapshot ==> r in s.pending || s.acked == Some(r) || IsSent(rows, r.id))
  }

  ghost predicate Inv(s: Sys) {
    RowsMatchClaims(s.db) && TopicMatches(s.db.outbox, s.topic) && PassMatches(s.db.outbox, s)
  }

  /** What happens to the table in one action: no row is lost or altered, marks are never taken
      back, and new rows come at the end. */
  ghost predicate Grows(rows: seq<OutboxRow>, rows': seq<OutboxRow>) {
    && |rows| <= |rows'|
    && forall i :: 0 <= i < |rows| ==> Kept(rows[i], rows'[i])
  }

  predicate Kept(r: OutboxRow, r': OutboxRow) {
    r'.(sentAt := None) == r.(sentAt := None) && (r.sentAt.Some? ==> r'.sentAt.Some?)
  }

  lemma GrowsKeepsFacts(rows: seq<OutboxRow>, rows': seq<OutboxRow>)
    requires Grows(rows, rows')
    ensures forall r :: InTable(rows, r) ==> InTable(rows', r)
    ensures forall id :: IsSent(rows, id) ==> IsSent(rows', id)
    ensures forall m :: FromTable(rows, m) ==> FromTable(rows', m)
  {
    forall i | 0 <= i < |rows|
      ensures rows'[i].id == rows[i].id && MessageOf(rows'[i]) == MessageOf(rows[i])
      ensures rows[i].sentAt.Some? ==> rows'[i].sentAt.Some?
    {
      assert Kept(rows[i], rows'[i]);
      assert rows'[i].(sentAt := None).id == rows[i].(sentAt := None).id;
      assert MessageOf(rows'[i].(sentAt := None)) == MessageOf(rows[i].(sentAt := None));
    }
  }

  lemma ActionGrows(env: Env, s: Sys, a: Action)
    requires Interleaving.ForeignKey(s.db)
    ensures Grows(s.db.outbox, Next(env, s, a).db.outbox)
  {
    hide Apply;
    if a.Handle? { LogsExtend(env, s.db, a.q, a.q.id); }
  }

  lemma {:induction false} UnsentAreRows(rows: seq<OutboxRow>)
    ensures forall r :: r in Unsent(rows) <==> r in rows && r.sentAt.None?
  {
    if rows != [] {
      UnsentAreRows(rows[..|rows| - 1]);
      assert rows == rows[..|rows| - 1] + [rows[|rows| - 1]];
    }
  }

  /** No row comes before one created earlier. */
  ghost predicate OldestFirst(rows: seq<OutboxRow>) {
    forall i, j :: 0 <= i < j < |rows| ==> rows[i].createdAt <= rows[j].createdAt
  }

  /** The poll lists exactly the rows without a sent mark, the oldest first. */
  lemma PendingAreRows(rows: seq<OutboxRow>)
    ensures forall r :: r in Pending(rows) <==> r in rows && r.sentAt.None?
    ensures forall r :: r in Pending(rows) ==> InTable(rows, r)
    ensures OldestFirst(Pending(rows))
  {
    UnsentAreRows(rows);
    SortPermutes(Unsent(rows), OlderOrEqual);
    SameElements(Pending(rows), Unsent(rows));
    SortSorted(Unsent(rows), OlderOrEqual);
    var pending := Pending(rows);
    forall i, j | 0 <= i < j < |pending| ensures pending[i].createdAt <= pending[j].createdAt {
      assert OlderOrEqual(pending[i], pending[j]);
    }
  }

  /** And each of them as often as it is in the table. */
  lemma {:induction false} UnsentOften(rows: seq<OutboxRow>, r: OutboxRow)
    ensures multiset(Unsent(rows))[r] == if r.sentAt.None? then multiset(rows)[r] else 0
  {
    if rows != [] {
      var init, last := rows[..|rows| - 1], rows[|rows| - 1];
      UnsentOften(init, r);
      assert rows == init + [last];
    }
  }

  lemma PendingOften(rows: seq<OutboxRow>, r: OutboxRow)
    ensures multiset(Pending(rows))[r] == if r.sentAt.None? then multiset(rows)[r] else 0
  {
    UnsentOften(rows, r);
    SortPermutes(Unsent(rows), OlderOrEqual);
  }

  lemma MarkedIsSent(rows: seq<OutboxRow>, r: OutboxRow, at: int)
    requires InTable(rows, r)
    ensures IsSent(MarkSent(rows, r.id, at), r.id)
  {
    var i :| 0 <= i < |rows| && rows[i].id == r.id && MessageOf(rows[i]) == MessageOf(r);
    assert MarkSent(rows, r.id, at)[i].sentAt.Some?;
  }

  lemma ActionKeepsInv(env: Env, s: Sys, a: Action)
    requires Inv(s)
    ensures Inv(Next(env, s, a))
  {
    hide RowsMatchClaims, TopicMatches, PassMatches, Apply;
    match a
    case Handle(q) => HandleKeepsInv(env, s, q);
    case Poll => if s.pending == [] && s.acked.None? { PollKeepsPass(s); }
    case Mark(at) => MarkKeepsInv(env, s, at);
    case SendAcked => SendKeepsInv(env, s, a);
    case SendLostAck => SendKeepsInv(env, s, a);
    case SendFails => SendKeepsInv(env, s, a);
    case MarkFails => StopKeepsPass(env, s, a);
    case Crash => StopKeepsPass(env, s, a);
  }

  lemma HandleKeepsInv(env: Env, s: Sys, q: Request)
    requires Inv(s)
    ensures Inv(Next(env, s, Handle(q)))
  {
    hide RowsMatchClaims, Apply;
    RowsForeignKey(s.db);
    RequestKeepsRows(env, s.db, q);
    LogsExtend(env, s.db, q, q.id);
    GrowsKeepsFacts(s.db.outbox, Apply(env, s.db, q).0.outbox);
  }

  lemma PollKeepsPass(s: Sys)
    requires Inv(s) && s.pending == [] && s.acked.None?
    ensures var pending := Pending(s.db.outbox);
      PassMatches(s.db.outbox, s.(snapshot := pending, pending := pending, clean := true))
  {
    hide RowsMatchClaims, TopicMatches;
    PendingAreRows(s.db.outbox);
  }

  lemma StopKeepsPass(env: Env, s: Sys, a: Action)
    requires Inv(s) && (a.MarkFails? || a.Crash?)
    ensures Inv(Next(env, s, a))
  {
    hide RowsMatchClaims, TopicMatches;
  }

  lemma SendKeepsInv(env: Env, s: Sys, a: Action)
    requires Inv(s) && (a.SendAcked? || a.SendLostAck? || a.SendFails?)
    ensures Inv(Next(env, s, a))
  {
    hide RowsMatchClaims;
    TopicGrows(s);
  }

  lemma MarkKeepsInv(env: Env, s: Sys, at: int)
    requires Inv(s)
    ensures Inv(Next(env, s, Mark(at)))
  {
    hide RowsMatchClaims, TopicMatches, PassMatches;
    if s.acked.Some? {
      MarkKeepsRows(s.db, s.acked.value.id, at);
      MarkKeepsTopic(s, at);
      MarkKeepsPass(s, at);
      PassIgnoresTables(MarkSent(s.db.outbox, s.acked.value.id, at), s.(acked := None), Next(env, s, Mark(at)));
    }
  }

  lemma PassIgnoresTables(rows: seq<OutboxRow>, s: Sys, s': Sys)
    requires s' == s.(db := s'.db)
    ensures PassMatches(rows, s) == PassMatches(rows, s')
  {
  }

  lemma MarkGrows(rows: seq<OutboxRow>, id: nat, at: int)
    ensures Grows(rows, MarkSent(rows, id, at))
  {
  }

  lemma MarkKeepsTopic(s: Sys, at: int)
    requires Inv(s) && s.acked.Some?
    ensures TopicMatches(MarkSent(s.db.outbox, s.acked.value.id, at), s.topic)
  {
    hide RowsMatchClaims;
    MarkGrows(s.db.outbox, s.acked.value.id, at);
    GrowsKeepsFacts(s.db.outbox, MarkSent(s.db.outbox, s.acked.value.id, at));
    MarkedMessages(s, at);
  }

  lemma MarkKeepsPass(s: Sys, at: int)
    requires Inv(s) && s.acked.Some?
    ensures PassMatches(MarkSent(s.db.outbox, s.acked.value.id, at), s.(acked := None))
  {
    hide RowsMatchClaims, TopicMatches, InTable, IsSent;
    MarkGrows(s.db.outbox, s.acked.value.id, at);
    GrowsKeepsFacts(s.db.outbox, MarkSent(s.db.outbox, s.acked.value.id, at));
    MarkedIsSent(s.db.outbox, s.acked.value, at);
  }

  lemma RowsForeignKey(db: Db)
    requires RowsMatchClaims(db)
    ensures Interleaving.ForeignKey(db)
    ensures forall i, j :: 0 <= i < j < |db.outbox| ==> Apart(db.outbox[i], db.outbox[j])
  {
  }

  lemma OneRowPerId(rows: seq<OutboxRow>, i: nat, k: nat)
    requires i < |rows| && k < |rows| && rows[i].id == rows[k].id
    requires forall i, j :: 0 <= i < j < |rows| ==> Apart(rows[i], rows[j])
    ensures i == k
  {
  }

  /** Ids being unique, the one row that gets marked is the acknowledged one. */
  lemma MarkedMessages(s: Sys, at: int)
    requires Inv(s) && s.acked.Some?
    ensures var rows := MarkSent(s.db.outbox, s.acked.value.id, at);
      forall i :: 0 <= i < |rows| && rows[i].sentAt.Some? ==> MessageOf(rows[i]) in s.topic
  {
    hide RowsMatchClaims;
    RowsForeignKey(s.db);
    var r, rows := s.acked.value, MarkSent(s.db.outbox, s.acked.value.id, at);
    var k :| 0 <= k < |s.db.outbox| && s.db.outbox[k].id == r.id && MessageOf(s.db.outbox[k]) == MessageOf(r);
    forall i | 0 <= i < |rows| && rows[i].sentAt.Some? ensures MessageOf(rows[i]) in s.topic {
      assert MessageOf(rows[i]) == MessageOf(s.db.outbox[i]);
      if s.db.outbox[i].id == r.id { OneRowPerId(s.db.outbox, i, k); }
    }
  }

  lemma TopicGrows(s: Sys)
    requires Inv(s)
    ensures s.pending != [] ==> FromTable(s.db.outbox, MessageOf(s.pending[0]))
    ensures s.pending != [] ==> forall r :: r in s.pending <==> r == s.pending[0] || r in s.pending[1..]
  {
    hide RowsMatchClaims;
    if s.pending != [] {
      assert s.pending == [s.pending[0]] + s.pending[1..];
      assert InTable(s.db.outbox, s.pending[0]);
    }
  }

  lemma {:induction false} RunKeepsInv(env: Env, actions: seq<Action>)
    ensures Inv(ExecFrom(env, INITIAL, actions))
  {
    if actions != [] {
      RunKeepsInv(env, actions[..|actions| - 1]);
      ActionKeepsInv(env, ExecFrom(env, INITIAL, actions[..|actions| - 1]), actions[|actions| - 1]);
    }
  }

  /** A claim was created exactly when it has a claim.submitted row, and then it has one only; a row
      marked sent is in the topic; every message in the topic comes from a row; and when a pass in
      which nothing failed is over, no row of its snapshot is left unsent. */
  ghost predicate Safe(s: Sys) {
    && (forall id :: Created(s.db, id) <==> HasRow(s.db.outbox, id))
    && (forall i, j :: 0 <= i < j < |s.db.outbox| ==> Apart(s.db.outbox[i], s.db.outbox[j]))
    && (forall i :: 0 <= i < |s.db.outbox| ==>
          MessageOf(s.db.outbox[i])
            == Message(CLAIM_SUBMITTED_TOPIC, s.db.outbox[i].aggregate, SubmittedPayload(s.db.outbox[i].aggregate)))
    && (forall i :: 0 <= i < |s.db.outbox| && s.db.outbox[i].sentAt.Some? ==> MessageOf(s.db.outbox[i]) in s.topic)
    && (forall m :: m in s.topic ==> FromTable(s.db.outbox, m))
    && (s.clean && s.pending == [] && s.acked.None? ==> forall r :: r in s.snapshot ==> IsSent(s.db.outbox, r.id))
  }

  /** Safety over every run of requests, passes, failed sends, lost acknowledgements and crashes. */
  lemma DeliverySafety(env: Env, actions: seq<Action>)
    ensures Safe(ExecFrom(env, INITIAL, actions))
  {
    hide SubmittedPayload;
    RunKeepsInv(env, actions);
    var s := ExecFrom(env, INITIAL, actions);
    forall i | 0 <= i < |s.db.outbox| ensures SubmissionRow(s.db, s.db.outbox[i]) {}
    forall id | HasRow(s.db.outbox, id) ensures Created(s.db, id) {
      var i :| 0 <= i < |s.db.outbox| && s.db.outbox[i].aggregate == id;
      assert SubmissionRow(s.db, s.db.outbox[i]);
    }
  }

  /** No row is ever lost, altered or unmarked, whatever happens after it was committed. */
  lemma {:induction false} NothingLost(env: Env, before: seq<Action>, after: seq<Action>)
    ensures Grows(ExecFrom(env, INITIAL, before).db.outbox, ExecFrom(env, INITIAL, before + after).db.outbox)
    decreases |after|
  {
    if after == [] {
      assert before + after == before;
    } else {
      var n := |after| - 1;
      var all := before + after;
      assert all[..|all| - 1] == before + after[..n] && all[|all| - 1] == after[n];
      var s := ExecFrom(env, INITIAL, before + after[..n]);
      assert ExecFrom(env, INITIAL, all) == Next(env, s, after[n]);
      hide ExecFrom, Grows, Next, TopicMatches, PassMatches;
      NothingLost(env, before, after[..n]);
      RunKeepsInv(env, before + after[..n]);
      ActionGrows(env, s, after[n]);
      GrowsTransitive(ExecFrom(env, INITIAL, before).db.outbox, s.db.outbox, ExecFrom(env, INITIAL, all).db.outbox);
    }
  }

  lemma GrowsTransitive(a: seq<OutboxRow>, b: seq<OutboxRow>, c: seq<OutboxRow>)
    requires Grows(a, b) && Grows(b, c)
    ensures Grows(a, c)
  {
    forall i | 0 <= i < |a| ensures Kept(a[i], c[i]) {
      assert Kept(a[i], b[i]) && Kept(b[i], c[i]);
    }
  }

  // ----- created claims under interleaving -----

  predicate Requested(history: seq<Request>, id: ClaimId) {
    exists k :: 0 <= k < |history| && history[k].Create? && history[k].id == id
  }

  lemma RequestedStep(history: seq<Request>, q: Request, id: ClaimId)
    ensures Requested(history + [q], id) <==> Requested(history, id) || (q.Create? && q.id == id)
  {
    var longer := history + [q];
    if Requested(history, id) {
      var k :| 0 <= k < |history| && history[k].Create? && history[k].id == id;
      assert longer[k] == history[k];
    }
    assert longer[|history|] == q;
  }

  lemma {:induction false} CreatedExactly(env: Env, schedule: seq<Interleaving.Step>, id: ClaimId)
    ensures var s := Interleaving.Exec(env, schedule);
      Created(s.db, id) <==> Requested(s.history, id)
  {
    hide Created, Apply, Interleaving.Next;
    if schedule == [] {
      NothingCreated(id);
    } else {
      var n := |schedule| - 1;
      var s, s' := Interleaving.Exec(env, schedule[..n]), Interleaving.Exec(env, schedule);
      CreatedExactly(env, schedule[..n], id);
      Interleaving.Serializable(env, schedule[..n]);
      Interleaving.StepSerializes(env, s, schedule[n]);
      if s'.history != s.history {
        var q := s.txs[schedule[n].t].q;
        LogsExtend(env, s.db, q, id);
        RequestedStep(s.history, q, id);
      }
    }
  }

  lemma NothingCreated(id: ClaimId)
    ensures !Created(EMPTY, id) && !Requested([], id)
  {
  }

  /** Under every interleaving the claims with a creation row are those createClaim committed, and
      their first row is that creation, from no status into SUBMITTED. */
  lemma CreationComesFirst(env: Env, schedule: seq<Interleaving.Step>, id: ClaimId)
    requires Sound(env) && Requested(Interleaving.Exec(env, schedule).history, id)
    ensures var rows := Log(Interleaving.Exec(env, schedule).db, id);
      && rows != [] && rows[0].event.eventType == ClaimCreated
      && rows[0].event.fromStatus == None && rows[0].event.toStatus == Some(Submitted)
      && forall i :: 0 < i < |rows| ==> rows[i].event.eventType != ClaimCreated
  {
    hide Chain, Interleaving.Exec;
    CreatedExactly(env, schedule, id);
    WorkflowSafety.InterleavedLogs(env, schedule, id);
    var rows := Log(Interleaving.Exec(env, schedule).db, id);
    assert WorkflowSafety.Replays(rows, 0);
    forall i | 0 < i < |rows| ensures rows[i].event.eventType != ClaimCreated {
      assert WorkflowSafety.Replays(rows, i);
    }
  }
}
