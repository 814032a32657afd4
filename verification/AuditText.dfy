/** The hashed text of a row, as anyone can read it back
    (backend/src/main/java/com/claimguard/service/AuditService.java:71-73, 137-172,
    backend/src/main/java/com/claimguard/audit/CanonicalJson.java:26-33). */
module AuditText {
  import opened Options
  import opened Sorting
  import opened Json
  import opened JsonText
  import opened JsonParse
  import opened Numerals
  import opened AuditRows
  import opened Transitions

  /** The fourteen fields with their keys in ascending order. */
  function Ascending(r: Row): (fields: seq<Field>)
    ensures |fields| == 14
  {
    var e := r.event;
    [ Field("actorId", Text(e.actorId)),
      Field("actorRole", Text(RoleName(e.actorRole))),
      Field("claimId", Text(r.claimId)),
      Field("eventType", Text(EventName(e.eventType))),
      Field("explanationJson", if e.explanation == None then Null else SortKeys(e.explanation.value)),
      Field("fraudScore", if e.fraudScore == None then Null else Text(Fixed4(Round4(e.fraudScore.value)))),
      Field("fromStatus", if e.fromStatus == None then Null else Text(StatusName(e.fromStatus.value))),
      Field("modelVersion", if e.modelVersion == None then Null else Text(e.modelVersion.value)),
      Field("occurredAt", Number(IntText(r.occurredAt))),
      Field("prevHash", Text(r.prevHash)),
      Field("reason", if e.reason == None then Null else Text(e.reason.value)),
      Field("ringId", if e.ringId == None then Null else Text(e.ringId.value)),
      Field("seq", Number(IntText(r.seqNo))),
      Field("toStatus", if e.toStatus == None then Null else Text(StatusName(e.toStatus.value))) ]
  }

  /** The names of the enumerations as they are hashed and stored. */
  lemma NamesAsWritten()
    ensures [StatusName(Submitted), StatusName(UnderReview), StatusName(Flagged), StatusName(Approved),
             StatusName(Denied)] == ["SUBMITTED", "UNDER_REVIEW", "FLAGGED", "APPROVED", "DENIED"]
    ensures [RoleName(Adjuster), RoleName(Investigator), RoleName(Auditor), RoleName(System)]
      == ["ADJUSTER", "INVESTIGATOR", "AUDITOR", "SYSTEM"]
    ensures [EventName(ClaimCreated), EventName(StatusChanged), EventName(FraudScored), EventName(HumanOverride),
             EventName(NarrativeGenerated)]
      == ["CLAIM_CREATED", "STATUS_CHANGED", "FRAUD_SCORED", "HUMAN_OVERRIDE", "NARRATIVE_GENERATED"]
  {
  }

  lemma KeyBefore(f: Field, g: Field, k: nat)
    requires k < |f.key| && k < |g.key| && f.key[..k] == g.key[..k] && f.key[k] < g.key[k]
    ensures KeyLe(f, g) && f.key != g.key
  {
    StringLeExactly(f.key, g.key);
  }

  lemma Neighbours(r: Row)
    ensures forall i :: 0 <= i < 13 ==> KeyLe(Ascending(r)[i], Ascending(r)[i + 1])
  {
    hide KeyLe, SortKeys, StatusName, RoleName, EventName, Fixed4, IntText, Round4;
    var a := Ascending(r);
    KeyBefore(a[0], a[1], 5);
    KeyBefore(a[1], a[2], 0);
    KeyBefore(a[2], a[3], 0);
    KeyBefore(a[3], a[4], 1);
    KeyBefore(a[4], a[5], 0);
    KeyBefore(a[5], a[6], 2);
    KeyBefore(a[6], a[7], 0);
    KeyBefore(a[7], a[8], 0);
    KeyBefore(a[8], a[9], 0);
    KeyBefore(a[9], a[10], 0);
    KeyBefore(a[10], a[11], 1);
    KeyBefore(a[11], a[12], 0);
    KeyBefore(a[12], a[13], 0);
  }

  lemma {:induction false} ChainSorted(fields: seq<Field>)
    requires forall i :: 0 <= i < |fields| - 1 ==> KeyLe(fields[i], fields[i + 1])
    ensures Sorted(fields, KeyLe)
  {
    KeyOrder();
    hide KeyLe;
    if |fields| > 1 {
      var init, n := fields[..|fields| - 1], |fields| - 1;
      ChainSorted(init);
      forall i | 0 <= i < n ensures KeyLe(fields[i], fields[n]) {
        if i < n - 1 {
          assert KeyLe(init[i], init[n - 1]) && KeyLe(fields[n - 1], fields[n - 1 + 1]);
        }
      }
      forall i, j | 0 <= i < j < |fields| ensures KeyLe(fields[i], fields[j]) {
        if j < n { assert KeyLe(init[i], init[j]); }
      }
    }
  }

  /** Where the field that is put i-th stands in ascending order, and back. */
  const PLACE: seq<nat> := [2, 12, 3, 6, 13, 0, 1, 10, 5, 11, 4, 7, 8, 9]
  const PUT: seq<nat> := [5, 6, 0, 2, 10, 8, 3, 11, 12, 13, 7, 9, 1, 4]

  lemma PlacedAt(r: Row, i: nat)
    requires i < 14
    ensures var f := HashedFields(r)[i];
      Field(f.key, SortKeys(f.value)) == Ascending(r)[PLACE[i]]
  {
    hide StatusName, RoleName, EventName, Fixed4, IntText, Round4, Sort, SortFields, SortItems;
    if i < 7 {
      if i < 4 {
        assert i == 0 || i == 1 || i == 2 || i == 3;
      } else {
        assert i == 4 || i == 5 || i == 6;
      }
    } else {
      if i < 11 {
        assert i == 7 || i == 8 || i == 9 || i == 10;
      } else {
        assert i == 11 || i == 12 || i == 13;
      }
    }
  }

  lemma PlacedFields(r: Row)
    ensures |SortFields(HashedFields(r))| == 14
    ensures forall i :: 0 <= i < 14 ==> SortFields(HashedFields(r))[i] == Ascending(r)[PLACE[i]]
  {
    assert |HashedFields(r)| == 14;
    hide Ascending, HashedFields, SortFields, SortKeys;
    forall i | 0 <= i < 14 ensures SortFields(HashedFields(r))[i] == Ascending(r)[PLACE[i]] { PlacedAt(r, i); }
  }

  lemma SameFields(r: Row)
    ensures forall f :: f in SortFields(HashedFields(r)) <==> f in Ascending(r)
  {
    PlacedFields(r);
    var xs, a := SortFields(HashedFields(r)), Ascending(r);
    hide SortFields, HashedFields, Ascending;
    assert forall j :: 0 <= j < 14 ==> PLACE[PUT[j]] == j;
    forall f | f in a ensures f in xs {
      var j :| 0 <= j < |a| && a[j] == f;
      assert xs[PUT[j]] == a[PLACE[PUT[j]]];
    }
  }

  lemma AscendingIsSorted(r: Row)
    ensures SortKeys(Object(HashedFields(r))) == Object(Ascending(r))
  {
    var xs, a := SortFields(HashedFields(r)), Ascending(r);
    KeysDistinct(r);
    SameFields(r);
    Neighbours(r);
    ChainSorted(a);
    PlacedFields(r);
    hide Ascending, HashedFields, KeyLe, Sort, SortFields, SortKeys, DistinctKeys;
    SortFieldsKeys(HashedFields(r));
    PlacedDistinct(xs, a);
    SortedFieldsEqual(xs, a);
    SortingSorted(a);
    SortObject(HashedFields(r));
  }

  lemma PlacedDistinct(xs: seq<Field>, a: seq<Field>)
    requires |xs| == |a| == 14 && DistinctKeys(xs) && forall i :: 0 <= i < 14 ==> xs[i] == a[PLACE[i]]
    ensures DistinctKeys(a)
  {
    assert forall j :: 0 <= j < 14 ==> PLACE[PUT[j]] == j;
    forall i, j | 0 <= i < j < 14 ensures a[i].key != a[j].key {
      var m, n := PUT[i], PUT[j];
      assert xs[m] == a[PLACE[m]] && xs[n] == a[PLACE[n]] && m != n;
      assert xs[if m < n then m else n].key != xs[if m < n then n else m].key;
    }
  }

  lemma SortingSorted(fields: seq<Field>)
    requires Sorted(fields, KeyLe) && DistinctKeys(fields)
    ensures Sort(fields, KeyLe) == fields
  {
    KeyOrder();
    TiesAreEqual(fields);
    SortPermutes(fields, KeyLe);
    SortSorted(fields, KeyLe);
    SameElements(Sort(fields, KeyLe), fields);
    hide KeyLe, Sort, DistinctKeys;
    SortedUnique(Sort(fields, KeyLe), fields, KeyLe);
  }

  lemma SortObject(fields: seq<Field>)
    ensures SortKeys(Object(fields)) == Object(Sort(SortFields(fields), KeyLe))
  {
  }

  lemma SortFieldsKeys(fields: seq<Field>)
    requires DistinctKeys(fields)
    ensures DistinctKeys(SortFields(fields))
  {
    hide SortKeys;
  }

  /** The text that is hashed for a row is JSON for the object of these fourteen fields, listed in
      ascending order of their keys. */
  lemma HashedTextReads(r: Row)
    ensures Parse(HashedText(r)) == Got(Object(Ascending(r)), "")
  {
    FieldKeys(r);
    CanonicalTextReads(Object(HashedFields(r)));
    AscendingIsSorted(r);
  }
}
