/** One pass of the publisher, as the loop over the polled rows that it is
    (backend/src/main/java/com/claimguard/service/OutboxPublisher.java:48-62). */
module OutboxPublishing {
  import opened Options
  import opened AuditChain
  import opened ClaimLedger
  import opened ClaimServices
  import opened OutboxDelivery

  /** How the send of one row and its mark go; a pass that runs out of verdicts has crashed. */
  datatype Verdict = Acked | AckedNotMarked | LostAck | Failed

  function RowActions(v: Verdict, at: int): seq<Action> {
    match v
    case Acked => [SendAcked, Mark(at)]
    case AckedNotMarked => [SendAcked, MarkFails]
    case LostAck => [SendLostAck]
    case Failed => [SendFails]
  }

  function RowsActions(vs: seq<Verdict>, at: int): seq<Action> {
    if vs == [] then [] else RowsActions(vs[..|vs| - 1], at) + RowActions(vs[|vs| - 1], at)
  }

  /** The publisher between passes. */
  function Idle(rows: seq<OutboxRow>, topic: seq<Message>): Sys {
    Sys(Db(map[], map[], rows), topic, [], [], None, false)
  }

  /** What reaches the topic, in order: the rows whose send did not fail. */
  function Delivered(rows: seq<OutboxRow>, vs: seq<Verdict>): seq<Message>
    requires |rows| == |vs|
  {
    if vs == [] then []
    else
      var n := |vs| - 1;
      Delivered(rows[..n], vs[..n]) + (if vs[n] == Failed then [] else [MessageOf(rows[n])])
  }

  lemma {:induction false} ExecAppend(env: Env, s: Sys, a: seq<Action>, b: seq<Action>)
    ensures ExecFrom(env, s, a + b) == ExecFrom(env, ExecFrom(env, s, a), b)
    decreases |b|
  {
    if b == [] {
      assert a + b == a;
    } else {
      var n := |b| - 1;
      assert (a + b)[..|a + b| - 1] == a + b[..n];
      ExecAppend(env, s, a, b[..n]);
    }
  }

  /** The system after polling and dealing with the first rows of the snapshot. */
  ghost predicate MidPass(env: Env, start: Sys, actions: seq<Action>, rows: seq<OutboxRow>, topic: seq<Message>,
                          rest: seq<OutboxRow>)
  {
    var s := ExecFrom(env, start, actions);
    s.db.outbox == rows && s.topic == topic && s.pending == rest && s.acked.None?
  }

  /** Dealing with one more row moves the system by that row's actions. */
  lemma RowIsActions(env: Env, start: Sys, actions: seq<Action>, rows: seq<OutboxRow>, topic: seq<Message>,
                     rest: seq<OutboxRow>, v: Verdict, at: int)
    requires rest != [] && MidPass(env, start, actions, rows, topic, rest)
    ensures MidPass(env, start, actions + RowActions(v, at),
      if v == Acked then MarkSent(rows, rest[0].id, at) else rows,
      if v == Failed then topic else topic + [MessageOf(rest[0])],
      rest[1..])
  {
    hide Apply, MarkSent;
    var s, b := ExecFrom(env, start, actions), RowActions(v, at);
    ExecAppend(env, start, actions, b);
    assert b[..0] == [] && b[..|b| - 1] == if |b| == 2 then [b[0]] else [];
    assert ExecFrom(env, s, [b[0]]) == Next(env, s, b[0]) by { assert [b[0]][..0] == []; }
  }

  /** After the first i rows of the pass: the system is where their actions lead, the topic holds
      what did not fail, and the acknowledged and marked rows are sent. */
  ghost predicate Progress(env: Env, rows0: seq<OutboxRow>, topic0: seq<Message>, vs: seq<Verdict>, at: int, i: nat,
                           rows: seq<OutboxRow>, topic: seq<Message>)
  {
    var pending := Pending(rows0);
    && i <= |pending| && i <= |vs|
    && MidPass(env, Idle(rows0, topic0), [Poll] + RowsActions(vs[..i], at), rows, topic, pending[i..])
    && topic == topic0 + Delivered(pending[..i], vs[..i])
    && (forall j :: 0 <= j < i && vs[j] == Acked ==> IsSent(rows, pending[j].id))
    && Grows(rows0, rows) && MarkedOnly(rows0, rows, at)
  }

  /** The same rows, but for marks set at this time. */
  ghost predicate MarkedOnly(rows: seq<OutboxRow>, rows': seq<OutboxRow>, at: int) {
    && |rows'| == |rows|
    && forall k :: 0 <= k < |rows| ==> rows'[k] == rows[k] || rows'[k] == rows[k].(sentAt := Some(at))
  }

  lemma MarkOneMore(rows: seq<OutboxRow>, rows': seq<OutboxRow>, id: nat, at: int)
    requires MarkedOnly(rows, rows', at)
    ensures MarkedOnly(rows, MarkSent(rows', id, at), at)
  {
  }

  lemma ProgressStarts(env: Env, rows0: seq<OutboxRow>, topic0: seq<Message>, vs: seq<Verdict>, at: int)
    ensures Progress(env, rows0, topic0, vs, at, 0, rows0, topic0)
  {
    hide Apply;
    var start := Idle(rows0, topic0);
    assert [Poll] + RowsActions(vs[..0], at) == [Poll] && [Poll][..0] == [];
    assert ExecFrom(env, start, [Poll]) == Next(env, start, Poll);
    assert Delivered(Pending(rows0)[..0], vs[..0]) == [];
  }

  lemma ProgressStep(env: Env, rows0: seq<OutboxRow>, topic0: seq<Message>, vs: seq<Verdict>, at: int, i: nat,
                     rows: seq<OutboxRow>, topic: seq<Message>)
    requires Progress(env, rows0, topic0, vs, at, i, rows, topic) && i < |Pending(rows0)| && i < |vs|
    ensures var event := Pending(rows0)[i];
      Progress(env, rows0, topic0, vs, at, i + 1,
        if vs[i] == Acked then MarkSent(rows, event.id, at) else rows,
        if vs[i] == Failed then topic else topic + [MessageOf(event)])
  {
    hide MidPass, Apply, Pending, IsSent, Grows, Next, MarkSent, MarkedOnly;
    var pending := Pending(rows0);
    var event, v := pending[i], vs[i];
    var rows' := if v == Acked then MarkSent(rows, event.id, at) else rows;
    RowIsActions(env, Idle(rows0, topic0), [Poll] + RowsActions(vs[..i], at), rows, topic, pending[i..], v, at);
    assert vs[..i + 1][..i] == vs[..i];
    assert pending[..i + 1][..i] == pending[..i] && pending[i..][1..] == pending[i + 1..];
    assert ([Poll] + RowsActions(vs[..i], at)) + RowActions(v, at) == [Poll] + RowsActions(vs[..i + 1], at);
    if v == Acked {
      PendingAreRows(rows0);
      assert event in pending;
      StillInTable(rows0, rows, event);
      MarkedIsSent(rows, event, at);
      MarkGrows(rows, event.id, at);
      MarkOneMore(rows0, rows, event.id, at);
      GrowsKeepsFacts(rows, rows');
      GrowsTransitive(rows0, rows, rows');
    }
  }

  class OutboxPublisher {
    const outbox: OutboxService
    var topic: seq<Message>

    constructor (outbox: OutboxService)
      ensures this.outbox == outbox && topic == []
    {
      this.outbox := outbox;
      topic := [];
    }

    /** Publishes the pending rows, oldest first. The pass is a run of the system's actions from
        the poll on; what was delivered is what did not fail, in polling order; and every row
        that was acknowledged and marked is sent. So the topic gains the messages of unsent rows of
        the table, in the order of their creation, and the table changes by marks of this time only. */
    method PublishPending(verdicts: seq<Verdict>, at: int, ghost env: Env)
      modifies this, outbox
      ensures MarkedOnly(old(outbox.rows), outbox.rows, at)
      ensures exists sent: seq<OutboxRow> ::
        && OldestFirst(sent) && (forall r :: r in sent ==> r in old(outbox.rows) && r.sentAt == None)
        && topic == old(topic) + Messages(sent)
      ensures var n := |Pending(old(outbox.rows))|;
        Progress(env, old(outbox.rows), old(topic), verdicts, at, if |verdicts| < n then |verdicts| else n,
                 outbox.rows, topic)
    {
      hide Progress;
      ghost var rows0 := outbox.rows;
      var pending := Pending(outbox.rows);
      ProgressStarts(env, rows0, topic, verdicts, at);
      var i := 0;
      while i < |pending| && i < |verdicts|
        invariant 0 <= i <= |pending| && i <= |verdicts|
        invariant Progress(env, rows0, old(topic), verdicts, at, i, outbox.rows, topic)
      {
        var event := pending[i];
        ProgressStep(env, rows0, old(topic), verdicts, at, i, outbox.rows, topic);
        if verdicts[i] != Failed {
          topic := topic + [MessageOf(event)];
          if verdicts[i] == Acked {
            outbox.rows := MarkSent(outbox.rows, event.id, at);
          }
        }
        i := i + 1;
      }
      ghost var sent := PassInOrder(env, rows0, old(topic), verdicts, at, i, outbox.rows, topic);
    }
  }

  // ----- the order of a pass -----

  /** The messages of rows: each goes to its own topic, under its claim's id, with its payload. */
  function Messages(rows: seq<OutboxRow>): seq<Message> {
    if rows == [] then []
    else
      var last := rows[|rows| - 1];
      Messages(rows[..|rows| - 1]) + [Message(last.topic, last.aggregate, last.payload)]
  }

  /** The rows whose send did not fail. */
  function Unfailed(rows: seq<OutboxRow>, vs: seq<Verdict>): seq<OutboxRow>
    requires |rows| == |vs|
  {
    if vs == [] then []
    else
      var n := |vs| - 1;
      Unfailed(rows[..n], vs[..n]) + (if vs[n] == Failed then [] else [rows[n]])
  }

  lemma MessagesSnoc(rows: seq<OutboxRow>, r: OutboxRow)
    ensures Messages(rows + [r]) == Messages(rows) + [MessageOf(r)]
  {
    assert (rows + [r])[..|rows|] == rows;
  }

  lemma {:induction false} UnfailedAreRows(rows: seq<OutboxRow>, vs: seq<Verdict>, k: nat) returns (j: nat)
    requires |rows| == |vs| && k < |Unfailed(rows, vs)|
    ensures j < |rows| && Unfailed(rows, vs)[k] == rows[j]
  {
    var n := |vs| - 1;
    j := n;
    if k < |Unfailed(rows[..n], vs[..n])| { j := UnfailedAreRows(rows[..n], vs[..n], k); }
  }

  /** What is delivered are the messages of these rows. */
  lemma {:induction false} DeliveredRows(rows: seq<OutboxRow>, vs: seq<Verdict>)
    requires |rows| == |vs|
    ensures Delivered(rows, vs) == Messages(Unfailed(rows, vs))
  {
    if vs != [] {
      var n := |vs| - 1;
      DeliveredRows(rows[..n], vs[..n]);
      var before := Unfailed(rows[..n], vs[..n]);
      MessagesSnoc(before, rows[n]);
      hide Messages;
      assert before + [] == before;
    }
  }

  lemma {:induction false} UnfailedInOrder(rows: seq<OutboxRow>, vs: seq<Verdict>)
    requires |rows| == |vs| && OldestFirst(rows)
    ensures OldestFirst(Unfailed(rows, vs))
  {
    if vs != [] {
      var n := |vs| - 1;
      UnfailedInOrder(rows[..n], vs[..n]);
      var before := Unfailed(rows[..n], vs[..n]);
      forall k | 0 <= k < |before| ensures before[k].createdAt <= rows[n].createdAt {
        var j := UnfailedAreRows(rows[..n], vs[..n], k);
      }
    }
  }

  lemma PassInOrder(env: Env, rows: seq<OutboxRow>, topic: seq<Message>, vs: seq<Verdict>, at: int, i: nat,
                    rows': seq<OutboxRow>, topic': seq<Message>) returns (sent: seq<OutboxRow>)
    requires Progress(env, rows, topic, vs, at, i, rows', topic')
    ensures MarkedOnly(rows, rows', at)
    ensures OldestFirst(sent) && (forall r :: r in sent ==> r in rows && r.sentAt == None)
    ensures topic' == topic + Messages(sent)
  {
    hide MidPass, MarkedOnly, Grows, IsSent;
    PendingAreRows(rows);
    hide Pending;
    sent := Unfailed(Pending(rows)[..i], vs[..i]);
    DeliveredRows(Pending(rows)[..i], vs[..i]);
    UnfailedInOrder(Pending(rows)[..i], vs[..i]);
    forall r | r in sent ensures r in rows && r.sentAt == None {
      var k: nat :| k < |sent| && sent[k] == r;
      var j := UnfailedAreRows(Pending(rows)[..i], vs[..i], k);
      assert r in Pending(rows);
    }
  }

  lemma StillInTable(rows: seq<OutboxRow>, rows': seq<OutboxRow>, r: OutboxRow)
    requires InTable(rows, r) && Grows(rows, rows')
    ensures InTable(rows', r)
  {
    GrowsKeepsFacts(rows, rows');
  }

  lemma {:induction false} AllDelivered(rows: seq<OutboxRow>, vs: seq<Verdict>)
    requires |rows| == |vs| && forall j :: 0 <= j < |vs| ==> vs[j] != Failed
    ensures Delivered(rows, vs) == Messages(rows)
  {
    if vs != [] { AllDelivered(rows[..|rows| - 1], vs[..|vs| - 1]); }
  }

  ghost predicate DistinctIds(rows: seq<OutboxRow>) {
    forall i, j :: 0 <= i < j < |rows| ==> rows[i].id != rows[j].id
  }

  /** A whole pass in which every send is acknowledged and marked: every row of the table is sent,
      none was added or removed, and the topic has gained the messages of the unsent rows in
      polling order, each once. */
  lemma CleanPassSendsAll(env: Env, rows: seq<OutboxRow>, topic: seq<Message>, vs: seq<Verdict>, at: int,
                          rows': seq<OutboxRow>, topic': seq<Message>)
    requires DistinctIds(rows)
    requires Progress(env, rows, topic, vs, at, |Pending(rows)|, rows', topic')
    requires forall j :: 0 <= j < |Pending(rows)| ==> vs[j] == Acked
    ensures |rows'| == |rows| && forall i :: 0 <= i < |rows'| ==> rows'[i].sentAt.Some?
    ensures forall i :: 0 <= i < |rows'| && rows[i].sentAt == None ==> rows'[i] == rows[i].(sentAt := Some(at))
    ensures topic' == topic + Messages(Pending(rows)) && OldestFirst(Pending(rows))
  {
    hide MidPass, Apply;
    var pending := Pending(rows);
    assert pending[..|pending|] == pending;
    PendingAreRows(rows);
    AllDelivered(pending, vs[..|pending|]);
    forall r | r in pending ensures IsSent(rows', r.id) {
      var j :| 0 <= j < |pending| && pending[j] == r;
    }
    hide Pending;
    AllSent(rows, rows');
  }

  lemma AllSent(rows: seq<OutboxRow>, rows': seq<OutboxRow>)
    requires DistinctIds(rows) && Grows(rows, rows') && |rows'| == |rows|
    requires forall r :: r in Pending(rows) ==> IsSent(rows', r.id)
    ensures forall i :: 0 <= i < |rows'| ==> rows'[i].sentAt.Some?
  {
    PendingAreRows(rows);
    forall i | 0 <= i < |rows'| ensures rows'[i].sentAt.Some? {
      assert Kept(rows[i], rows'[i]) && rows[i] in rows;
      if rows[i].sentAt.None? {
        assert rows[i] in Pending(rows);
        var k :| 0 <= k < |rows'| && rows'[k].id == rows[i].id && rows'[k].sentAt.Some?;
        assert Kept(rows[k], rows'[k]);
        assert rows[k].(sentAt := None).id == rows'[k].(sentAt := None).id;
        assert i == k;
      }
    }
  }
}
