/** One row of a claim's audit trail and the text that is hashed for it
    (backend/src/main/java/com/claimguard/domain/ClaimAuditEvent.java:24-83,
    backend/src/main/java/com/claimguard/service/AuditService.java:66-91, 137-172). */
module AuditRows {
  import opened Options
  import opened Json
  import opened JsonText
  import opened Numerals
  import opened Transitions

  type ClaimId = string

  datatype EventType = ClaimCreated | StatusChanged | FraudScored | HumanOverride | NarrativeGenerated

  /** What a row says; where it stands in the chain is added on appending. */
  datatype Event = Event(
    eventType: EventType, fromStatus: Option<Status>, toStatus: Option<Status>,
    actorId: string, actorRole: Role, reason: Option<string>, fraudScore: Option<real>,
    ringId: Option<string>, explanation: Option<Doc>, modelVersion: Option<string>)

  /** occurredAt counts nanoseconds. */
  datatype Row = Row(claimId: ClaimId, seqNo: int, event: Event, occurredAt: int, prevHash: string, hash: string)

  function EventName(t: EventType): string {
    match t
    case ClaimCreated => "CLAIM_CREATED"
    case StatusChanged => "STATUS_CHANGED"
    case FraudScored => "FRAUD_SCORED"
    case HumanOverride => "HUMAN_OVERRIDE"
    case NarrativeGenerated => "NARRATIVE_GENERATED"
  }

  function StatusName(s: Status): string {
    match s
    case Submitted => "SUBMITTED"
    case UnderReview => "UNDER_REVIEW"
    case Flagged => "FLAGGED"
    case Approved => "APPROVED"
    case Denied => "DENIED"
  }

  function RoleName(r: Role): string {
    match r
    case Adjuster => "ADJUSTER"
    case Investigator => "INVESTIGATOR"
    case Auditor => "AUDITOR"
    case System => "SYSTEM"
  }

  function Nullable(o: Option<string>): Json {
    if o.Some? then Text(o.value) else Null
  }

  function StatusField(o: Option<Status>): Json {
    if o.Some? then Text(StatusName(o.value)) else Null
  }

  function ScoreField(o: Option<real>): Json {
    if o.Some? then Text(Fixed4(Round4(o.value))) else Null
  }

  function DocField(o: Option<Doc>): Json {
    if o.Some? then o.value else Null
  }

  /** The fourteen hashed fields, in the order they are put. */
  function HashedFields(r: Row): seq<Field> {
    [ Field("claimId", Text(r.claimId)),
      Field("seq", Number(IntText(r.seqNo))),
      Field("eventType", Text(EventName(r.event.eventType))),
      Field("fromStatus", StatusField(r.event.fromStatus)),
      Field("toStatus", StatusField(r.event.toStatus)),
      Field("actorId", Text(r.event.actorId)),
      Field("actorRole", Text(RoleName(r.event.actorRole))),
      Field("reason", Nullable(r.event.reason)),
      Field("fraudScore", ScoreField(r.event.fraudScore)),
      Field("ringId", Nullable(r.event.ringId)),
      Field("explanationJson", DocField(r.event.explanation)),
      Field("modelVersion", Nullable(r.event.modelVersion)),
      Field("occurredAt", Number(IntText(r.occurredAt))),
      Field("prevHash", Text(r.prevHash)) ]
  }

  function HashedText(r: Row): string { Canonicalize(Object(HashedFields(r))) }

  /** Two rows agree on everything that is hashed: scores up to four decimals, an explanation up
      to the order of its keys. A missing explanation hashes like an explicit null. */
  ghost predicate Agree(r1: Row, r2: Row) {
    && r1.claimId == r2.claimId && r1.seqNo == r2.seqNo
    && r1.event.eventType == r2.event.eventType
    && r1.event.fromStatus == r2.event.fromStatus && r1.event.toStatus == r2.event.toStatus
    && r1.event.actorId == r2.event.actorId && r1.event.actorRole == r2.event.actorRole
    && r1.event.reason == r2.event.reason
    && r1.event.fraudScore.Some? == r2.event.fraudScore.Some?
    && (r1.event.fraudScore.Some? ==> Round4(r1.event.fraudScore.value) == Round4(r2.event.fraudScore.value))
    && r1.event.ringId == r2.event.ringId
    && Same(DocField(r1.event.explanation), DocField(r2.event.explanation))
    && r1.event.modelVersion == r2.event.modelVersion
    && r1.occurredAt == r2.occurredAt && r1.prevHash == r2.prevHash
  }

  lemma NamesDiffer()
    ensures forall s, t :: StatusName(s) == StatusName(t) ==> s == t
    ensures forall s, t :: RoleName(s) == RoleName(t) ==> s == t
    ensures forall s, t :: EventName(s) == EventName(t) ==> s == t
  {
    forall s, t | StatusName(s) == StatusName(t) ensures s == t {
      assert StatusName(s)[0] == StatusName(t)[0];
    }
    forall s, t | RoleName(s) == RoleName(t) ensures s == t {
      assert RoleName(s)[0] == RoleName(t)[0] && RoleName(s)[1] == RoleName(t)[1];
    }
    forall s, t | EventName(s) == EventName(t) ensures s == t {
      assert EventName(s)[0] == EventName(t)[0];
    }
  }

  lemma KeysDistinct(r: Row)
    ensures DistinctKeys(HashedFields(r))
  {
    hide IntText, EventName, StatusName, RoleName, Nullable, StatusField, ScoreField, DocField;
    var fs := HashedFields(r);
    assert |fs[0].key| == 7 && |fs[1].key| == 3 && |fs[2].key| == 9 && |fs[3].key| == 10 && |fs[4].key| == 8;
    assert |fs[5].key| == 7 && |fs[6].key| == 9 && |fs[7].key| == 6 && |fs[8].key| == 10 && |fs[9].key| == 6;
    assert |fs[10].key| == 15 && |fs[11].key| == 12 && |fs[12].key| == 10 && |fs[13].key| == 8;
    assert fs[0].key[0] != fs[5].key[0] && fs[2].key[0] != fs[6].key[0] && fs[4].key[0] != fs[13].key[0];
    assert fs[7].key[1] != fs[9].key[1] && fs[3].key[1] == fs[8].key[1] && fs[3].key[2] != fs[8].key[2];
    assert fs[3].key[0] != fs[12].key[0] && fs[8].key[0] != fs[12].key[0];
  }

  lemma FieldKeys(r: Row)
    ensures WellFormed(Object(HashedFields(r)))
  {
    KeysDistinct(r);
    hide DistinctKeys;
    var fs := HashedFields(r);
    forall i | 0 <= i < |fs| ensures WellFormed(fs[i].value) {}
  }

  /** Equality of the hashed objects is agreement field by field, in both directions. */
  lemma FieldsCharacterize(r1: Row, r2: Row)
    ensures Same(Object(HashedFields(r1)), Object(HashedFields(r2))) <==> Agree(r1, r2)
  {
    var f1, f2 := HashedFields(r1), HashedFields(r2);
    FieldKeys(r1);
    assert forall i :: 0 <= i < 14 ==> f1[i].key == f2[i].key;
    SameKeysSame(f1, f2);
    ValuesListed(r1, r2);
    ValuesCharacterize(r1, r2);
  }

  lemma SameKeysSame(f1: seq<Field>, f2: seq<Field>)
    requires |f1| == |f2| && DistinctKeys(f1)
    requires forall i :: 0 <= i < |f1| ==> f1[i].key == f2[i].key
    ensures Same(Object(f1), Object(f2)) <==> forall i :: 0 <= i < |f1| ==> Same(f1[i].value, f2[i].value)
  {
    forall i | 0 <= i < |f1| ensures HasKey(f2, f1[i].key) && HasKey(f1, f2[i].key) {}
  }

  lemma ScoreTextInjective(a: Option<real>, b: Option<real>)
    ensures Same(ScoreField(a), ScoreField(b)) <==>
      a.Some? == b.Some? && (a.Some? ==> Round4(a.value) == Round4(b.value))
  {
    if a.Some? && b.Some? && ScoreField(a) == ScoreField(b) {
      Fixed4Injective(Round4(a.value), Round4(b.value));
    }
  }

  lemma NumberTextInjective(m: int, n: int)
    ensures Same(Number(IntText(m)), Number(IntText(n))) <==> m == n
  {
    if IntText(m) == IntText(n) { IntTextInjective(m, n); }
  }

  /** The fourteen values pairwise equal up to key order. */
  ghost predicate ValuesSame(r1: Row, r2: Row) {
    && Same(Text(r1.claimId), Text(r2.claimId))
    && Same(Number(IntText(r1.seqNo)), Number(IntText(r2.seqNo)))
    && Same(Text(EventName(r1.event.eventType)), Text(EventName(r2.event.eventType)))
    && Same(StatusField(r1.event.fromStatus), StatusField(r2.event.fromStatus))
    && Same(StatusField(r1.event.toStatus), StatusField(r2.event.toStatus))
    && Same(Text(r1.event.actorId), Text(r2.event.actorId))
    && Same(Text(RoleName(r1.event.actorRole)), Text(RoleName(r2.event.actorRole)))
    && Same(Nullable(r1.event.reason), Nullable(r2.event.reason))
    && Same(ScoreField(r1.event.fraudScore), ScoreField(r2.event.fraudScore))
    && Same(Nullable(r1.event.ringId), Nullable(r2.event.ringId))
    && Same(DocField(r1.event.explanation), DocField(r2.event.explanation))
    && Same(Nullable(r1.event.modelVersion), Nullable(r2.event.modelVersion))
    && Same(Number(IntText(r1.occurredAt)), Number(IntText(r2.occurredAt)))
    && Same(Text(r1.prevHash), Text(r2.prevHash))
  }

  lemma ValuesListed(r1: Row, r2: Row)
    ensures (forall i :: 0 <= i < 14 ==> Same(HashedFields(r1)[i].value, HashedFields(r2)[i].value))
       <==> ValuesSame(r1, r2)
  {
    hide Fixed4, IntText, Round4, Same, ScoreField, StatusField, Nullable, DocField, EventName, RoleName;
    var f1, f2 := HashedFields(r1), HashedFields(r2);
    if forall i :: 0 <= i < 14 ==> Same(f1[i].value, f2[i].value) {
      assert Same(f1[0].value, f2[0].value) && Same(f1[1].value, f2[1].value) && Same(f1[2].value, f2[2].value);
      assert Same(f1[3].value, f2[3].value) && Same(f1[4].value, f2[4].value) && Same(f1[5].value, f2[5].value);
      assert Same(f1[6].value, f2[6].value) && Same(f1[7].value, f2[7].value) && Same(f1[8].value, f2[8].value);
      assert Same(f1[9].value, f2[9].value) && Same(f1[10].value, f2[10].value) && Same(f1[11].value, f2[11].value);
      assert Same(f1[12].value, f2[12].value) && Same(f1[13].value, f2[13].value);
    }
  }

  lemma ValuesCharacterize(r1: Row, r2: Row)
    ensures ValuesSame(r1, r2) <==> Agree(r1, r2)
  {
    hide Fixed4, IntText, Round4, ScoreField;
    NamesDiffer();
    ScoreTextInjective(r1.event.fraudScore, r2.event.fraudScore);
    NumberTextInjective(r1.seqNo, r2.seqNo);
    NumberTextInjective(r1.occurredAt, r2.occurredAt);
  }

  /** The hashed text determines every hashed field, and nothing else matters for it. */
  lemma HashedTextCharacterized(r1: Row, r2: Row)
    ensures HashedText(r1) == HashedText(r2) <==> Agree(r1, r2)
  {
    FieldKeys(r1);
    FieldKeys(r2);
    CanonicalTextCharacterized(Object(HashedFields(r1)), Object(HashedFields(r2)));
    FieldsCharacterize(r1, r2);
  }
}
