/** The hash chain: how rows are appended, what verification accepts, and what a verified chain
    is evidence of (backend/src/main/java/com/claimguard/service/AuditService.java:37-129). */
module AuditChain {
  import opened Options
  import opened Json
  import opened JsonText
  import opened Numerals
  import opened AuditRows

  /** The outside world: the digest function, and how a jsonb column re-serializes a document. */
  datatype Env = Env(sha: string -> string, jsonb: Doc -> Doc)

  /** Sixty-four zeros, standing in for the hash before the first row. */
  function GenesisHash(): (g: string)
    ensures |g| == 64 && forall i :: 0 <= i < |g| ==> g[i] == '0'
  {
    seq(64, (i: int) => '0')
  }

  predicate HexOnly(s: string) {
    forall i :: 0 <= i < |s| ==> '0' <= s[i] <= '9' || 'a' <= s[i] <= 'f'
  }

  /** The digest is hex text, collision-free, and never the genesis value; the column may
      reorder keys but keeps the document. */
  ghost predicate Sound(env: Env) {
    && (forall x :: HexOnly(env.sha(x)) && env.sha(x) != GenesisHash())
    && (forall x, y :: env.sha(x) == env.sha(y) ==> x == y)
    && (forall d: Doc :: Same(d, env.jsonb(d)))
  }

  function RowHash(env: Env, r: Row): string { env.sha(r.prevHash + HashedText(r)) }

  function LastHash(rows: seq<Row>): string {
    if rows == [] then GenesisHash() else rows[|rows| - 1].hash
  }

  /** The hash that row i has to link to. */
  function LinkBefore(rows: seq<Row>, i: nat): string
    requires i <= |rows|
  {
    if i == 0 then GenesisHash() else rows[i - 1].hash
  }

  function Truncate(now: int): int { now - now % 1_000_000 }

  /** The row that append builds from the latest row of the claim. */
  function NextRow(env: Env, id: ClaimId, rows: seq<Row>, e: Event, now: int): Row {
    var seqNo := if rows == [] then 1 else rows[|rows| - 1].seqNo + 1;
    var r := Row(id, seqNo, e, Truncate(now), LastHash(rows), "");
    r.(hash := RowHash(env, r))
  }

  /** What the table gives back for a row: the score at the column's scale, the explanation as
      jsonb writes it, the time at microsecond resolution. */
  function Persisted(env: Env, r: Row): Row {
    r.(occurredAt := r.occurredAt - r.occurredAt % 1_000,
       event := r.event.(
         fraudScore := if r.event.fraudScore.Some?
                       then Some(FromTenThousandths(Round4(r.event.fraudScore.value))) else None,
         explanation := if r.event.explanation.Some? then Some(env.jsonb(r.event.explanation.value)) else None))
  }

  /** A chain as append leaves it: numbered from 1, each row linked to the one before. */
  ghost predicate Chain(env: Env, id: ClaimId, rows: seq<Row>) {
    forall i :: 0 <= i < |rows| ==> Linked(env, id, rows, i)
  }

  ghost predicate Linked(env: Env, id: ClaimId, rows: seq<Row>, i: nat)
    requires i < |rows|
  {
    && rows[i].claimId == id && rows[i].seqNo == i + 1
    && rows[i].prevHash == LinkBefore(rows, i)
    && rows[i].hash == RowHash(env, rows[i])
  }

  /** What verification recomputes. */
  predicate Verifies(env: Env, rows: seq<Row>) {
    rows == [] ||
    var last := rows[|rows| - 1];
    var init := rows[..|rows| - 1];
    Verifies(env, init) && last.prevHash == LastHash(init) && last.hash == RowHash(env, last)
  }

  // ----- storage -----

  lemma SameReflexive(j: Json)
    requires WellFormed(j)
    ensures Same(j, j)
  {
    SortKeysCharacterized(j, j);
  }

  /** A row read back from the table agrees with the row that was hashed, so storing and
      reloading never breaks a hash. */
  lemma StorageKeepsHashedText(env: Env, r: Row)
    requires Sound(env) && r.occurredAt % 1_000_000 == 0
    ensures Agree(r, Persisted(env, r)) && HashedText(Persisted(env, r)) == HashedText(r)
  {
    var p := Persisted(env, r);
    if r.event.fraudScore.Some? { RoundingIsStable(r.event.fraudScore.value); }
    if r.event.explanation.None? { SameReflexive(Null); }
    assert r.occurredAt % 1_000 == 0;
    HashedTextCharacterized(r, p);
  }

  lemma NextRowHash(env: Env, id: ClaimId, rows: seq<Row>, e: Event, now: int)
    ensures var r := NextRow(env, id, rows, e, now);
      r.hash == RowHash(env, r)
  {
    var r := NextRow(env, id, rows, e, now);
    HashIgnoresItself(env, r, "");
  }

  /** A stored row is stamped with the millisecond of its append. */
  lemma RowTime(env: Env, id: ClaimId, rows: seq<Row>, e: Event, now: int)
    ensures var p := Persisted(env, NextRow(env, id, rows, e, now));
      p.occurredAt <= now < p.occurredAt + 1_000_000 && p.occurredAt % 1_000_000 == 0
  {
    WholeMillisecond(now);
    hide RowHash, Truncate, FromTenThousandths, Round4;
  }

  lemma WholeMillisecond(now: int)
    ensures Truncate(now) <= now < Truncate(now) + 1_000_000
    ensures Truncate(now) % 1_000_000 == 0 && Truncate(now) % 1_000 == 0
  {
    var k := now / 1_000_000;
    assert now == 1_000_000 * k + now % 1_000_000;
    assert Truncate(now) == 1_000 * (1_000 * k);
  }

  /** Appending the stored form of the next row extends the chain. */
  lemma AppendKeepsChain(env: Env, id: ClaimId, rows: seq<Row>, e: Event, now: int)
    requires Sound(env) && Chain(env, id, rows)
    ensures Chain(env, id, rows + [Persisted(env, NextRow(env, id, rows, e, now))])
  {
    hide Persisted, NextRow, RowHash, Sound;
    var n, p := |rows|, Persisted(env, NextRow(env, id, rows, e, now));
    var rows' := rows + [p];
    if n > 0 { assert Linked(env, id, rows, n - 1); }
    StoredNextRow(env, id, rows, e, now);
    assert Linked(env, id, rows', n);
    forall i | 0 <= i < n ensures Linked(env, id, rows', i) {
      assert Linked(env, id, rows, i);
    }
  }

  /** The stored next row has its place, its link and its hash. */
  lemma StoredNextRow(env: Env, id: ClaimId, rows: seq<Row>, e: Event, now: int)
    requires Sound(env) && (rows != [] ==> rows[|rows| - 1].seqNo == |rows|)
    ensures var p := Persisted(env, NextRow(env, id, rows, e, now));
      && p.claimId == id && p.seqNo == |rows| + 1
      && p.prevHash == LinkBefore(rows, |rows|) && p.hash == RowHash(env, p)
  {
    hide HashedText, Agree;
    NextRowHash(env, id, rows, e, now);
    StorageKeepsHashedText(env, NextRow(env, id, rows, e, now));
  }

  /** Every appended chain verifies. */
  lemma {:induction false} ChainVerifies(env: Env, id: ClaimId, rows: seq<Row>)
    requires Chain(env, id, rows)
    ensures Verifies(env, rows)
  {
    hide HashedText, Agree;
    if rows != [] {
      var n := |rows| - 1;
      forall i | 0 <= i < n ensures Linked(env, id, rows[..n], i) {
        assert Linked(env, id, rows, i);
      }
      ChainVerifies(env, id, rows[..n]);
      assert Linked(env, id, rows, n);
    }
  }

  // ----- evidence -----

  lemma HexBeforeBrace(p: string, q: string, x: string, y: string)
    requires HexOnly(p) && HexOnly(q) && x != "" && y != "" && x[0] == '{' && y[0] == '{'
    requires p + x == q + y
    ensures p == q && x == y
  {
    ConcatAt(p, x, |p|);
    ConcatAt(p, x, |q|);
    ConcatAt(q, y, |p|);
    ConcatAt(q, y, |q|);
    if |p| != |q| { assert false; }
    assert p == (p + x)[..|p|] && q == (q + y)[..|p|];
    assert x == (p + x)[|p|..] && y == (q + y)[|p|..];
  }

  lemma HashedTextStart(r: Row)
    ensures HashedText(r) != "" && HashedText(r)[0] == '{'
  {
    var j := Object(HashedFields(r));
    FieldKeys(r);
    SortKeysWellFormed(j);
    FirstCharacter(SortKeys(j));
  }

  /** Equal row hashes mean equal hashed content. */
  lemma HashDeterminesRow(env: Env, r1: Row, r2: Row)
    requires Sound(env) && HexOnly(r1.prevHash) && HexOnly(r2.prevHash)
    ensures RowHash(env, r1) == RowHash(env, r2) <==> Agree(r1, r2)
    ensures Agree(r1, r2) ==> r1.prevHash == r2.prevHash && r1.seqNo == r2.seqNo
  {
    HashedTextStart(r1);
    HashedTextStart(r2);
    HashedTextCharacterized(r1, r2);
    if RowHash(env, r1) == RowHash(env, r2) {
      HexBeforeBrace(r1.prevHash, r2.prevHash, HashedText(r1), HashedText(r2));
    }
  }

  lemma LastHashHex(env: Env, rows: seq<Row>)
    requires Sound(env) && Verifies(env, rows)
    ensures HexOnly(LastHash(rows)) && (LastHash(rows) == GenesisHash() <==> rows == [])
  {
    hide HashedText, Agree;
  }

  /** Two verifying logs with the same last hash have the same length and agree on all hashed
      fields and on the hash of every row. */
  lemma {:induction false} LastHashDeterminesLog(env: Env, a: seq<Row>, b: seq<Row>)
    requires Sound(env) && Verifies(env, a) && Verifies(env, b) && LastHash(a) == LastHash(b)
    ensures |a| == |b| && forall i :: 0 <= i < |a| ==> Agree(a[i], b[i]) && a[i].hash == b[i].hash
  {
    hide HashedText, Agree, Sound, RowHash;
    LastHashHex(env, a);
    LastHashHex(env, b);
    if a != [] {
      var a0, b0, x, y := a[..|a| - 1], b[..|b| - 1], a[|a| - 1], b[|b| - 1];
      LastHashHex(env, a0);
      LastHashHex(env, b0);
      HashDeterminesRow(env, x, y);
      LastHashDeterminesLog(env, a0, b0);
    }
  }

  /** An initial piece of a verifying log verifies. */
  lemma {:induction false} PrefixVerifies(env: Env, rows: seq<Row>, n: nat)
    requires Verifies(env, rows) && n <= |rows|
    ensures Verifies(env, rows[..n])
    decreases |rows|
  {
    hide RowHash;
    if n == |rows| {
      assert rows[..n] == rows;
    } else {
      var init := rows[..|rows| - 1];
      PrefixVerifies(env, init, n);
      assert init[..n] == rows[..n];
    }
  }

  /** A verified hash stands for the whole past: two verifying logs have the same hash in row i
      exactly when they agree on every hashed field of every row up to i. */
  lemma HashStandsForThePast(env: Env, a: seq<Row>, b: seq<Row>, i: nat)
    requires Sound(env) && Verifies(env, a) && Verifies(env, b) && i < |a| && i < |b|
    ensures a[i].hash == b[i].hash <==> forall k :: 0 <= k <= i ==> Agree(a[k], b[k])
  {
    hide Agree, Sound, RowHash;
    var a0, b0 := a[..i + 1], b[..i + 1];
    PrefixVerifies(env, a, i + 1);
    PrefixVerifies(env, b, i + 1);
    if a[i].hash == b[i].hash {
      LastHashDeterminesLog(env, a0, b0);
      forall k | 0 <= k <= i ensures Agree(a[k], b[k]) { assert Agree(a0[k], b0[k]); }
    }
    if Agree(a[i], b[i]) {
      PrefixVerifies(env, a, i);
      PrefixVerifies(env, b, i);
      LastHashHex(env, a[..i]);
      LastHashHex(env, b[..i]);
      assert a0[..i] == a[..i] && b0[..i] == b[..i];
      HashDeterminesRow(env, a[i], b[i]);
    }
  }

  /** What an unnoticed change takes: once row k differs in a hashed field, a log that still
      verifies has another hash in that row and in every later one. */
  lemma ChangeReachesTheEnd(env: Env, a: seq<Row>, b: seq<Row>, k: nat, i: nat)
    requires Sound(env) && Verifies(env, a) && Verifies(env, b)
    requires k <= i < |a| && i < |b| && !Agree(a[k], b[k])
    ensures a[i].hash != b[i].hash
  {
    HashStandsForThePast(env, a, b, i);
  }

  /** The rows with their links and hashes computed anew from the first on. */
  function Rewritten(env: Env, rows: seq<Row>): seq<Row> {
    if rows == [] then []
    else
      var init, last := Rewritten(env, rows[..|rows| - 1]), rows[|rows| - 1];
      var linked := last.(prevHash := LastHash(init));
      init + [linked.(hash := RowHash(env, linked))]
  }

  /** Equal but for link and hash. */
  predicate SameContent(r: Row, s: Row) { r.(prevHash := s.prevHash, hash := s.hash) == s }

  /** And it is enough: any rows at all, whatever was changed in them, verify once their links and
      hashes are computed anew, since the hash has no key. */
  lemma {:induction false} RewritingVerifies(env: Env, rows: seq<Row>)
    ensures Verifies(env, Rewritten(env, rows)) && |Rewritten(env, rows)| == |rows|
    ensures forall i :: 0 <= i < |rows| ==> SameContent(Rewritten(env, rows)[i], rows[i])
  {
    hide RowHash, LastHash;
    if rows != [] {
      var init, last := rows[..|rows| - 1], rows[|rows| - 1];
      RewritingVerifies(env, init);
      var before, all := Rewritten(env, init), Rewritten(env, rows);
      var linked := last.(prevHash := LastHash(before));
      HashIgnoresItself(env, linked, RowHash(env, linked));
      hide Rewritten;
      assert all[..|all| - 1] == before && SameContent(all[|all| - 1], last);
      forall i | 0 <= i < |rows| ensures SameContent(all[i], rows[i]) {
        if i < |init| { assert all[i] == before[i] && rows[i] == init[i]; }
      }
    }
  }

  /** A log verifies exactly when it is its own rewriting. */
  lemma {:induction false} RewritingIsIdle(env: Env, rows: seq<Row>)
    ensures Verifies(env, rows) <==> Rewritten(env, rows) == rows
  {
    hide RowHash;
    RewritingVerifies(env, rows);
    if rows != [] && Verifies(env, rows) {
      var init, last := rows[..|rows| - 1], rows[|rows| - 1];
      RewritingIsIdle(env, init);
      assert last.(prevHash := LastHash(init)) == last && last.(hash := RowHash(env, last)) == last;
      assert rows == init + [last];
    }
  }

  lemma {:induction false} RewritingGoesForward(env: Env, rows: seq<Row>, k: nat)
    requires k <= |rows|
    ensures |Rewritten(env, rows)| == |rows| && Rewritten(env, rows)[..k] == Rewritten(env, rows[..k])
  {
    hide RowHash;
    if k == |rows| {
      RewritingVerifies(env, rows);
      assert rows[..k] == rows;
    } else {
      var init := rows[..|rows| - 1];
      RewritingGoesForward(env, init, k);
      assert init[..k] == rows[..k];
    }
  }

  /** Any one row of a verifying log can be given any other event in this way: the earlier rows
      stay as they are, the later ones keep their content, and the whole verifies. */
  lemma AlteredRowCanVerify(env: Env, rows: seq<Row>, k: nat, e: Event)
    requires Verifies(env, rows) && k < |rows|
    ensures var altered := Rewritten(env, rows[k := rows[k].(event := e)]);
      && Verifies(env, altered) && |altered| == |rows|
      && altered[..k] == rows[..k] && altered[k].event == e
      && forall i :: k < i < |rows| ==> SameContent(altered[i], rows[i])
  {
    hide RowHash;
    var changed := rows[k := rows[k].(event := e)];
    RewritingVerifies(env, changed);
    RewritingGoesForward(env, changed, k);
    PrefixVerifies(env, rows, k);
    RewritingIsIdle(env, rows[..k]);
    assert changed[..k] == rows[..k];
    assert SameContent(Rewritten(env, changed)[k], changed[k]);
  }

  lemma HashIgnoresItself(env: Env, r: Row, h: string)
    ensures RowHash(env, r.(hash := h)) == RowHash(env, r)
  {
    assert HashedFields(r.(hash := h)) == HashedFields(r);
  }

  /** The rows at the given positions, in that order. */
  function Pick(rows: seq<Row>, at: seq<nat>): seq<Row>
    requires forall k :: 0 <= k < |at| ==> at[k] < |rows|
  {
    seq(|at|, k requires 0 <= k < |at| => rows[at[k]])
  }

  ghost predicate Initial(at: seq<nat>) {
    forall k :: 0 <= k < |at| ==> at[k] == k
  }

  /** Any selection, reordering or repetition of a chain's rows verifies exactly when it is an
      initial piece of the chain: removal is noticed everywhere except at the end. */
  lemma {:induction false} SelectionVerifies(env: Env, id: ClaimId, rows: seq<Row>, at: seq<nat>)
    requires Sound(env) && Chain(env, id, rows)
    requires forall k :: 0 <= k < |at| ==> at[k] < |rows|
    ensures Verifies(env, Pick(rows, at)) <==> Initial(at)
  {
    hide Sound, Chain, RowHash;
    if at != [] {
      var n := |at| - 1;
      var at0, m := at[..n], at[n];
      SelectionVerifies(env, id, rows, at0);
      assert Pick(rows, at) == Pick(rows, at0) + [rows[m]];
      assert at == at0 + [m];
      SelectionStep(env, id, rows, at0, m);
    }
  }

  lemma SelectionStep(env: Env, id: ClaimId, rows: seq<Row>, at: seq<nat>, m: nat)
    requires Sound(env) && Chain(env, id, rows) && m < |rows|
    requires forall k :: 0 <= k < |at| ==> at[k] < |rows|
    requires Verifies(env, Pick(rows, at)) <==> Initial(at)
    ensures Verifies(env, Pick(rows, at) + [rows[m]]) <==> Initial(at + [m])
  {
    hide Sound, Chain, RowHash;
    var n, sel := |at|, Pick(rows, at);
    assert (sel + [rows[m]])[..n] == sel;
    assert Linked(env, id, rows, m) by { ChainLink(env, id, rows, m); }
    if Initial(at) {
      if n > 0 { assert at[n - 1] == n - 1; }
      LinkPosition(env, id, rows, m, n);
      assert LastHash(sel) == LinkBefore(rows, n);
      assert m == n ==> Initial(at + [m]);
    }
    if Initial(at + [m]) {
      assert forall k :: 0 <= k < n ==> at[k] == (at + [m])[k];
      assert (at + [m])[n] == m;
    }
  }

  lemma ChainLink(env: Env, id: ClaimId, rows: seq<Row>, m: nat)
    requires Chain(env, id, rows) && m < |rows|
    ensures Linked(env, id, rows, m)
  {
  }

  /** Only row n links to row n - 1. */
  lemma LinkPosition(env: Env, id: ClaimId, rows: seq<Row>, m: nat, n: nat)
    requires Sound(env) && Chain(env, id, rows) && m < |rows| && n <= |rows|
    ensures rows[m].prevHash == LinkBefore(rows, n) <==> m == n
  {
    hide HashedText, Agree;
    assert Linked(env, id, rows, m);
    if m > 0 { assert Linked(env, id, rows, m - 1); }
    if n > 0 { assert Linked(env, id, rows, n - 1); }
    if m > 0 && n > 0 && rows[m - 1].hash == rows[n - 1].hash {
      PrevHashHex(env, id, rows, m - 1);
      PrevHashHex(env, id, rows, n - 1);
      HashDeterminesRow(env, rows[m - 1], rows[n - 1]);
    }
  }

  lemma PrevHashHex(env: Env, id: ClaimId, rows: seq<Row>, m: nat)
    requires Sound(env) && Chain(env, id, rows) && m < |rows|
    ensures HexOnly(rows[m].prevHash)
  {
    hide HashedText, Agree;
    assert Linked(env, id, rows, m);
    if m > 0 { assert Linked(env, id, rows, m - 1); }
  }

  // ----- the assumptions can be met -----

  function HexChar(n: nat): (c: char)
    requires n < 16
    ensures HexOnly([c])
  {
    if n < 10 then ('0' as int + n) as char else ('a' as int + n - 10) as char
  }

  function HexPad(n: nat, width: nat): (s: string)
    ensures |s| == width && HexOnly(s)
  {
    if width == 0 then "" else HexPad(n / 16, width - 1) + [HexChar(n % 16)]
  }

  function Power16(k: nat): nat { if k == 0 then 1 else 16 * Power16(k - 1) }

  lemma {:induction false} HexPadInjective(m: nat, n: nat, width: nat)
    requires m < Power16(width) && n < Power16(width) && HexPad(m, width) == HexPad(n, width)
    ensures m == n
  {
    hide HexChar;
    if width > 0 {
      var s := HexPad(m, width);
      assert s[..width - 1] == HexPad(m / 16, width - 1) == HexPad(n / 16, width - 1);
      HexPadInjective(m / 16, n / 16, width - 1);
      assert s[width - 1] == HexChar(m % 16) == HexChar(n % 16);
      HexCharInjective(m % 16, n % 16);
    }
  }

  lemma HexCharInjective(m: nat, n: nat)
    requires m < 16 && n < 16 && HexChar(m) == HexChar(n)
    ensures m == n
  {
  }

  /** Six hexadecimal digits for each character. */
  function Encode(x: string): (s: string)
    ensures HexOnly(s)
  {
    if x == "" then "" else HexPad(x[0] as int, 6) + Encode(x[1..])
  }

  lemma {:induction false} EncodeInjective(x: string, y: string)
    requires Encode(x) == Encode(y)
    ensures x == y
  {
    assert (x == "") == (Encode(x) == "") && (y == "") == (Encode(y) == "");
    if x != "" {
      assert Encode(x)[..6] == HexPad(x[0] as int, 6) && Encode(y)[..6] == HexPad(y[0] as int, 6);
      assert Encode(x)[6..] == Encode(x[1..]) && Encode(y)[6..] == Encode(y[1..]);
      assert Power16(6) == 0x100_0000;
      HexPadInjective(x[0] as int, y[0] as int, 6);
      EncodeInjective(x[1..], y[1..]);
      assert x == [x[0]] + x[1..] && y == [y[0]] + y[1..];
    }
  }

  /** A digest and a column as assumed exist, so nothing proved about sound ones is vacuous. */
  lemma SoundIsPossible()
    ensures exists env :: Sound(env)
  {
    var env := Env(x => "f" + Encode(x), d => d);
    forall x ensures HexOnly(env.sha(x)) && env.sha(x) != GenesisHash() {
      assert env.sha(x)[0] == 'f' && GenesisHash()[0] == '0';
    }
    forall x, y | env.sha(x) == env.sha(y) ensures x == y {
      assert env.sha(x)[1..] == Encode(x) && env.sha(y)[1..] == Encode(y);
      EncodeInjective(x, y);
    }
    forall d: Doc ensures Same(d, env.jsonb(d)) { SameReflexive(d); }
    assert Sound(env);
  }
}
