/** The grounding check of generated narratives: which claim ids an accepted text can mention
    (scoring/app/narrative.py:60-62, 82-87, 167-193). */
module Grounding {
  import opened LetterCase
  import opened Options

  predicate HexDigit(c: char) {
    '0' <= c <= '9' || 'a' <= c <= 'f' || 'A' <= c <= 'F'
  }

  /** The length of a UUID's text form: 8-4-4-4-12 hexadecimal digits (section 4 of RFC 9562). */
  const UUID_LENGTH: nat := 36

  predicate HyphenAt(k: nat) { k == 8 || k == 13 || k == 18 || k == 23 }

  /** The pattern matches at position i. */
  predicate MatchAt(text: string, i: nat) {
    && i + UUID_LENGTH <= |text|
    && forall k: nat :: k < UUID_LENGTH ==> Fits(text, i, k)
  }

  predicate Fits(text: string, i: nat, k: nat)
    requires i + k < |text|
  {
    if HyphenAt(k) then text[i + k] == '-' else HexDigit(text[i + k])
  }

  predicate AllHex(s: string) { forall k :: 0 <= k < |s| ==> s[k] in "0123456789abcdefABCDEF" }

  /** What the pattern matches: five groups of 8, 4, 4, 4 and 12 hexadecimal digits of either case,
      joined by hyphens. */
  lemma MatchExactly(text: string, i: nat)
    ensures MatchAt(text, i) <==>
      && i + 36 <= |text|
      && AllHex(text[i..i + 8]) && text[i + 8] == '-'
      && AllHex(text[i + 9..i + 13]) && text[i + 13] == '-'
      && AllHex(text[i + 14..i + 18]) && text[i + 18] == '-'
      && AllHex(text[i + 19..i + 23]) && text[i + 23] == '-'
      && AllHex(text[i + 24..i + 36])
  {
    forall c: char ensures HexDigit(c) <==> c in "0123456789abcdefABCDEF" { HexDigitExactly(c); }
    if i + 36 <= |text| {
      Group(text, i, 0, 8);
      Group(text, i, 9, 13);
      Group(text, i, 14, 18);
      Group(text, i, 19, 23);
      Group(text, i, 24, 36);
      assert Fits(text, i, 8) <==> text[i + 8] == '-';
      assert Fits(text, i, 13) <==> text[i + 13] == '-';
      assert Fits(text, i, 18) <==> text[i + 18] == '-';
      assert Fits(text, i, 23) <==> text[i + 23] == '-';
    }
  }

  /** A group without a hyphen inside. */
  lemma Group(text: string, i: nat, from: nat, to: nat)
    requires from <= to <= 36 && i + 36 <= |text|
    requires forall k: nat :: from <= k < to ==> !HyphenAt(k)
    ensures AllHex(text[i + from..i + to]) <==> forall k: nat :: from <= k < to ==> Fits(text, i, k)
  {
    var group := text[i + from..i + to];
    forall c: char ensures HexDigit(c) <==> c in "0123456789abcdefABCDEF" { HexDigitExactly(c); }
    if AllHex(group) {
      forall k: nat | from <= k < to ensures Fits(text, i, k) { assert group[k - from] == text[i + k]; }
    }
    if forall k: nat :: from <= k < to ==> Fits(text, i, k) {
      forall m | 0 <= m < |group| ensures group[m] in "0123456789abcdefABCDEF" {
        assert Fits(text, i, from + m);
      }
    }
  }

  lemma HexDigitExactly(c: char)
    ensures HexDigit(c) <==> c in "0123456789abcdefABCDEF"
  {
    var digits := "0123456789abcdefABCDEF";
    if '0' <= c <= '9' {
      assert digits[c as int - '0' as int] == c;
    } else if 'a' <= c <= 'f' {
      assert digits[c as int - 'a' as int + 10] == c;
    } else if 'A' <= c <= 'F' {
      assert digits[c as int - 'A' as int + 16] == c;
    }
  }

  /** The scan: leftmost matches from `from` on, each search going on after the previous match. */
  function FindAll(text: string, from: nat): (found: seq<nat>)
    ensures forall i :: i in found ==> from <= i && MatchAt(text, i)
    decreases |text| - from
  {
    if from >= |text| then []
    else if MatchAt(text, from) then [from] + FindAll(text, from + UUID_LENGTH)
    else FindAll(text, from + 1)
  }

  function Mentioned(text: string, i: nat): string
    requires MatchAt(text, i)
  {
    text[i..i + UUID_LENGTH]
  }

  predicate AllowedId(id: string, allowed: set<string>) {
    Lower(id) in (set a | a in allowed :: Lower(a))
  }

  predicate IsGrounded(text: string, allowed: set<string>) {
    text != "" && forall i :: i in FindAll(text, 0) ==> AllowedId(Mentioned(text, i), allowed)
  }

  // ----- which occurrences the scan sees -----

  /** A hyphen of one occurrence would fall on a digit of the other. */
  lemma HyphensClash(text: string, i: nat, d: nat)
    requires MatchAt(text, i) && 0 < d < 28
    ensures !MatchAt(text, i + d)
  {
    var k := if d <= 8 then 8 else if d <= 13 then 13 else if d <= 18 then 18 else if d <= 23 then 23 else d + 8;
    assert Fits(text, i, k) && !Fits(text, i + d, k - d);
  }

  /** The character after an occurrence that another one overlaps. */
  ghost predicate RunsOn(text: string, i: nat) {
    && i + UUID_LENGTH < |text|
    && (text[i + UUID_LENGTH] == '-' || HexDigit(text[i + UUID_LENGTH]))
  }

  /** Two occurrences that overlap do so in the last eight digits of the first one. */
  lemma OverlapsOnlyAtTheEnd(text: string, i: nat, j: nat)
    requires MatchAt(text, i) && MatchAt(text, j) && i < j < i + UUID_LENGTH
    ensures i + 28 <= j && RunsOn(text, i)
  {
    if j < i + 28 { HyphensClash(text, i, j - i); }
    assert Fits(text, j, i + UUID_LENGTH - j);
  }

  ghost predicate OverlappedBy(text: string, from: nat, j: nat) {
    exists i :: i in FindAll(text, from) && i + 28 <= j < i + UUID_LENGTH
  }

  lemma FindAllFrom(text: string, from: nat)
    requires from < |text|
    ensures MatchAt(text, from) ==>
      from in FindAll(text, from) && forall i :: i in FindAll(text, from + UUID_LENGTH) ==> i in FindAll(text, from)
    ensures !MatchAt(text, from) ==> FindAll(text, from) == FindAll(text, from + 1)
  {
    hide MatchAt;
  }

  /** Every occurrence is found, or overlaps the end of one that is. */
  lemma {:induction false} ScanCovers(text: string, from: nat, j: nat)
    requires from <= j && MatchAt(text, j)
    ensures j in FindAll(text, from) || OverlappedBy(text, from, j)
    decreases |text| - from
  {
    assert from < |text|;
    FindAllFrom(text, from);
    hide MatchAt, RunsOn, FindAll;
    if !MatchAt(text, from) {
      ScanCovers(text, from + 1, j);
    } else if j >= from + UUID_LENGTH {
      ScanCovers(text, from + UUID_LENGTH, j);
      if OverlappedBy(text, from + UUID_LENGTH, j) {
        var i :| i in FindAll(text, from + UUID_LENGTH) && i + 28 <= j < i + UUID_LENGTH;
        assert i in FindAll(text, from);
      }
    } else if j > from {
      OverlapsOnlyAtTheEnd(text, from, j);
    }
  }

  /** Soundness of the check: in an accepted text every UUID-shaped piece is an allowed id up to
      case, or starts within the last eight digits of an earlier, allowed one that runs on with a
      digit or a hyphen. */
  lemma AcceptedMentionsAllowed(text: string, allowed: set<string>, j: nat)
    requires IsGrounded(text, allowed) && MatchAt(text, j)
    ensures AllowedId(Mentioned(text, j), allowed)
      || exists i :: i in FindAll(text, 0) && i + 28 <= j < i + UUID_LENGTH && RunsOn(text, i)
                     && AllowedId(Mentioned(text, i), allowed)
  {
    ScanCovers(text, 0, j);
    if OverlappedBy(text, 0, j) {
      var i :| i in FindAll(text, 0) && i + 28 <= j < i + UUID_LENGTH;
      OverlapsOnlyAtTheEnd(text, i, j);
    }
  }

  ghost predicate AllAllowed(text: string, allowed: set<string>) {
    forall j: nat :: MatchAt(text, j) ==> AllowedId(Mentioned(text, j), allowed)
  }

  /** No found id is followed by a digit or a hyphen. */
  ghost predicate Delimited(text: string) {
    forall i :: i in FindAll(text, 0) ==> !RunsOn(text, i)
  }

  /** On such a text the check is exact: it accepts just when every UUID-shaped piece is allowed. */
  lemma DelimitedIsExact(text: string, allowed: set<string>)
    requires Delimited(text) && text != ""
    ensures IsGrounded(text, allowed) <==> AllAllowed(text, allowed)
  {
    if IsGrounded(text, allowed) {
      forall j: nat | MatchAt(text, j) ensures AllowedId(Mentioned(text, j), allowed) {
        AcceptedMentionsAllowed(text, allowed, j);
      }
    }
  }

  /** The piece at j is, up to case, one of those the scan found. */
  ghost predicate Repeats(text: string, j: nat)
    requires MatchAt(text, j)
  {
    exists i :: i in FindAll(text, 0) && Lower(Mentioned(text, i)) == Lower(Mentioned(text, j))
  }

  ghost predicate SoundFor(text: string, allowed: set<string>) {
    IsGrounded(text, allowed) ==> AllAllowed(text, allowed)
  }

  lemma OnlyRepeatsIsSound(text: string, allowed: set<string>)
    requires forall j: nat :: MatchAt(text, j) ==> Repeats(text, j)
    ensures SoundFor(text, allowed)
  {
    if IsGrounded(text, allowed) {
      forall j: nat | MatchAt(text, j) ensures AllowedId(Mentioned(text, j), allowed) {
        var i :| i in FindAll(text, 0) && Lower(Mentioned(text, i)) == Lower(Mentioned(text, j));
        assert AllowedId(Mentioned(text, i), allowed);
      }
    }
  }

  function FoundIds(text: string): set<string> {
    set i | i in FindAll(text, 0) :: Mentioned(text, i)
  }

  lemma SoundForItsOwnIds(text: string, j: nat)
    requires text != "" && MatchAt(text, j) && SoundFor(text, FoundIds(text))
    ensures Repeats(text, j)
  {
    forall i | i in FindAll(text, 0) ensures AllowedId(Mentioned(text, i), FoundIds(text)) {
      assert Mentioned(text, i) in FoundIds(text);
    }
    assert AllowedId(Mentioned(text, j), FoundIds(text));
    var id :| id in FoundIds(text) && Lower(id) == Lower(Mentioned(text, j));
  }

  /** Which texts the check is sound for, whatever the evidence: those in which every piece the
      scan steps over repeats one it found. */
  lemma SoundExactlyOn(text: string)
    ensures (forall allowed :: SoundFor(text, allowed)) <==> (forall j: nat :: MatchAt(text, j) ==> Repeats(text, j))
  {
    hide SoundFor, Repeats, FoundIds;
    if forall allowed :: SoundFor(text, allowed) {
      forall j: nat | MatchAt(text, j) ensures Repeats(text, j) {
        SoundForItsOwnIds(text, j);
      }
    }
    if forall j: nat :: MatchAt(text, j) ==> Repeats(text, j) {
      forall allowed ensures SoundFor(text, allowed) {
        OnlyRepeatsIsSound(text, allowed);
      }
    }
  }

  /** The failing family: an allowed id, run on by the last four groups of another one. The check
      accepts the text, which also mentions the id made of the first one's last eight digits and
      the four groups; that one is allowed only if it is the same id. */
  lemma RunOnAccepted(id: string, tail: string)
    requires |id| == UUID_LENGTH && MatchAt(id, 0)
    requires |tail| == 28 && MatchAt(id[28..] + tail, 0)
    ensures IsGrounded(id + tail, {id}) && MatchAt(id + tail, 28)
    ensures AllowedId(Mentioned(id + tail, 28), {id}) <==> Lower(id[28..] + tail) == Lower(id)
  {
    var text := id + tail;
    forall k: nat | k < UUID_LENGTH ensures Fits(text, 0, k) && Fits(text, 28, k) {
      assert Fits(id, 0, k) && Fits(id[28..] + tail, 0, k);
    }
    ShortTail(text, UUID_LENGTH);
    assert FindAll(text, 0) == [0];
    assert Mentioned(text, 0) == id;
    assert Mentioned(text, 28) == id[28..] + tail;
  }

  /** No match starts in the last thirty-five characters. */
  lemma {:induction false} ShortTail(text: string, from: nat)
    requires from + UUID_LENGTH > |text|
    ensures FindAll(text, from) == []
    decreases |text| - from
  {
    if from < |text| { ShortTail(text, from + 1); }
  }

  /** The id whose digits are all `digit`. */
  function Uniform(digit: char): (id: string)
    requires HexDigit(digit)
    ensures |id| == UUID_LENGTH && MatchAt(id, 0)
  {
    seq(UUID_LENGTH, (k: nat) => if HyphenAt(k) then '-' else digit)
  }

  /** The documented guarantee, that a narrative cannot mention a claim outside its evidence, fails
      for the all-zero id followed by four groups of ones. */
  lemma AcceptedYetUnlisted()
    ensures var text := Uniform('0') + Uniform('1')[8..];
      && IsGrounded(text, {Uniform('0')})
      && MatchAt(text, 28) && !AllowedId(Mentioned(text, 28), {Uniform('0')})
  {
    var id, tail := Uniform('0'), Uniform('1')[8..];
    var other := id[28..] + tail;
    forall k: nat | k < UUID_LENGTH ensures Fits(other, 0, k) {
      assert k >= 8 ==> other[k] == Uniform('1')[k];
    }
    RunOnAccepted(id, tail);
    LowerLast(other);
    LowerLast(id);
  }

  // ----- the evidence and the entry point -----

  datatype Evidence =
    | SharedEntity(sharedWith: seq<string>)
    | FeatureContribution(feature: string)
    | RingMetric(metric: string)

  datatype ClaimScore = ClaimScore(claimId: string, evidence: seq<Evidence>, summary: string)

  /** The ids a score's evidence mentions: its own and those of its shared-entity items. */
  ghost predicate InEvidence(score: ClaimScore, id: string) {
    id == score.claimId
    || exists k :: 0 <= k < |score.evidence| && score.evidence[k].SharedEntity? && id in score.evidence[k].sharedWith
  }

  /** Item by item: the claim's own id always, the ids of a shared entity, and none from other items. */
  lemma EvidenceExactly(score: ClaimScore, item: Evidence, id: string)
    ensures score.evidence == [] ==> (InEvidence(score, id) <==> id == score.claimId)
    ensures InEvidence(score.(evidence := score.evidence + [item]), id) <==>
      InEvidence(score, id) || match item
                               case SharedEntity(ids) => id in ids
                               case _ => false
  {
    var more := score.evidence + [item];
    assert more[|score.evidence|] == item && forall k :: 0 <= k < |score.evidence| ==> more[k] == score.evidence[k];
  }

  method AllowedClaimIds(score: ClaimScore) returns (allowed: set<string>)
    ensures forall id :: id in allowed <==> InEvidence(score, id)
  {
    allowed := {score.claimId};
    var k := 0;
    while k < |score.evidence|
      invariant 0 <= k <= |score.evidence|
      invariant forall id :: id in allowed <==>
        id == score.claimId
        || exists m :: 0 <= m < k && score.evidence[m].SharedEntity? && id in score.evidence[m].sharedWith
    {
      var item := score.evidence[k];
      if item.SharedEntity? {
        allowed := allowed + (set id | id in item.sharedWith);
      }
      k := k + 1;
    }
  }

  /** `raw` is what the language model returned, or None after any failure. A text that is not the
      template summary passed the check, so whatever it mentions and the scan sees is evidence. */
  method GenerateNarrative(score: ClaimScore, raw: Option<string>) returns (text: string, fromModel: bool)
    ensures fromModel ==> raw == Some(text) && text != ""
    ensures fromModel ==> forall i :: i in FindAll(text, 0) ==>
      exists id :: InEvidence(score, id) && Lower(id) == Lower(Mentioned(text, i))
    ensures !fromModel ==> text == score.summary
    ensures !fromModel && raw.Some? && raw.value != "" ==>
      exists i :: i in FindAll(raw.value, 0)
        && forall id :: InEvidence(score, id) ==> Lower(id) != Lower(Mentioned(raw.value, i))
  {
    var allowed := AllowedClaimIds(score);
    if raw.Some? && IsGrounded(raw.value, allowed) {
      text, fromModel := raw.value, true;
      forall i | i in FindAll(text, 0)
        ensures exists id :: InEvidence(score, id) && Lower(id) == Lower(Mentioned(text, i))
      {
        assert AllowedId(Mentioned(text, i), allowed);
        var id :| id in allowed && Lower(id) == Lower(Mentioned(text, i));
      }
    } else {
      text, fromModel := score.summary, false;
    }
  }
}
