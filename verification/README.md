# ClaimGuard: a verified model

ClaimGuard takes in insurance claims, walks them through a review workflow with a hash-chained audit log,
publishes them for scoring through a transactional outbox, and looks for fraud rings in the graph of claims
and the phones, addresses and repair shops they share. This project models the parts of it whose correctness
spans many calls and proves properties of that model for every input, every run and every interleaving.

`dafny verify dfyconfig.toml` checks everything. The modules follow the system:

| part | modules |
|---|---|
| local-push personalized PageRank | `RealSums`, `WeightedGraph`, `LocalPushSpec`, `LocalPush`, `LocalPushMass`, `LocalPushLocality`, `LocalPushScope` |
| canonical JSON and the audit chain | `Json`, `JsonText`, `JsonParse`, `Numerals`, `AuditRows`, `AuditText`, `AuditChain` |
| claim workflow, concurrency, outbox | `Transitions`, `ClaimLedger`, `ClaimServices`, `RecordedRows`, `Interleaving`, `WorkflowSafety`, `ScoreDeliveries`, `OutboxDelivery`, `OutboxInterleaving`, `OutboxPublishing` |
| ring graph, detector, features, split | `RingGraph`, `RingAsOf`, `RingDetector`, `RingComponents`, `RingPush`, `Burstiness` |
| entity resolution and grounding | `LetterCase`, `Address`, `EntityIndex`, `EntityServices`, `Grounding` |
| shared | `Options`, `Sorting` |

Code that works by changing things in place is a class or a loop here too: the push loop (`LocalPush.Pusher`),
the audit, outbox and claim services, the publisher, the entity service, graph building, the ring map, the
burst count and the address normalizer. Each is proved equal to, or within, a specification function or
predicate, and the lemmas are about that. What the specification functions mean is stated again without them:
hashed texts by a reader of JSON written from its grammar, numbers by reading their decimal text, the rows of the
log field by field, matches and normal forms by their characters, and the limits and constants by their values.

## How the parts fit

**Local push.** `LocalPushSpec.Step` is one iteration on values and `After(c, k)` the state after k of them.
The class refines it exactly (`LocalPush.Pusher.Loop`), and `LocalPushSpec.RunIsAfter` says the capped loop
ends in one of these states. Numbers are exact reals. A seed without edges has degree 1.0 and loses
what it does not bank; that case is stated exactly in `MassConserved` and excluded nowhere.

**Workflow.** `ClaimLedger.Apply` says what one request does when it runs alone. `ClaimServices` holds the
service methods and proves each equal to `Apply`. `Interleaving` runs any number of transactions step by step
(duplicate check, row lock, decision, read of the latest row, draft of a new claim, commit, crash), with the locks
and unique indexes of the database, and proves every schedule equal to applying the committed requests one by one, in
commit order. `WorkflowSafety` then proves the invariant of every log once, for serial runs, and transfers it.
SHA-256 is any function to hexadecimal text that never collides and never gives the genesis value; such
functions exist (`AuditChain.SoundIsPossible`).

**Outbox.** `OutboxDelivery` is a machine of requests, polls, sends, lost acknowledgements, marks and crashes;
`OutboxPublishing.OutboxPublisher.PublishPending` is the loop, proved to be a run of that machine.
`OutboxInterleaving` lets every step of every transaction come between any two of the publisher's, and carries
the safety of both over.

**Ring graph.** `RingGraph.BuildGraph` fixes the graph of a database as of a date. `RingPush` numbers its vertices
and hands it to the push loop: the hub weights put a floor under every degree, so the number of pushes is bounded
by the largest hub.

**Where the code and its documentation disagree.** The model follows the code, and each case is a theorem:

- The push loop is documented as touching O(1/(alpha*epsilon)) vertices of a graph of any size. What the
  algorithm bounds is the total *weighted degree* of the pushes (`LocalPushMass.WorkBound`), and weights can be
  below 1. A vertex count of at most K/(alpha*epsilon) holds on all graphs if and only if the push cap is itself
  at most K/(alpha*epsilon) (`LocalPushScope.VertexCountExactly`): at the default parameters it holds, since
  200,000 is below 1/(alpha*epsilon) = 666,666, and at alpha = epsilon = 1/2 some graph exceeds it
  (`LocalPushScope.CountAtTheConstants`). For the same reason the cap is guaranteed to be out of reach when
  cap * alpha * epsilon * (least degree) is at least 1 (`LocalPushMass.CapOutOfReach`); with the default constants
  the first three give 0.3, so that guarantee starts at degrees of 10/3 (`LocalPushScope.DefaultEstimate`). Without a cap the loop ends on every
  graph (`LocalPushMass.LoopEnds`).
- The chain is documented to break when a past decision is altered, even directly in the database. It breaks unless
  every later hash is rewritten too. A verified hash stands for all rows up to its own
  (`AuditChain.HashStandsForThePast`), so an altered log that still verifies has another hash in the altered row and
  in every later one (`AuditChain.ChangeReachesTheEnd`); and rewriting them always suffices, since the hash has no
  key: any rows at all verify once links and hashes are computed anew (`AuditChain.RewritingVerifies`), so any one
  row can be given any other event (`AuditChain.AlteredRowCanVerify`). Rows that are left as they were cannot be
  reordered, repeated or removed, except from the end (`AuditChain.SelectionVerifies`). What verification alone
  never notices is a rewriting to the end and a removal from the end; comparing the last hash with one kept
  elsewhere notices both (`AuditChain.LastHashDeterminesLog`).
- Redelivered scores are documented as a safe no-op. For copies of one message that come after their claim this
  holds outright (`ScoreDeliveries.CopiesAreHarmless`). The database's key is the claim and the model version and
  ignores the score, and for deliveries that only share that key the exact condition is that no first delivery
  which finds no claim, or whose score does not fit NUMERIC(5,4), is followed by one that is accepted
  (`ScoreDeliveries.FirstDeliveriesSuffice`; `ScoreDeliveries.LateAcceptance` is the failing family and
  `ScoreDeliveries.LateAcceptanceHappens` one case).
- The grounding check is documented to keep every unlisted claim id out of a narrative. The scan does not look
  inside a match, so a listed id run on by four more groups mentions another id unseen
  (`Grounding.AcceptedYetUnlisted`). `Grounding.SoundExactlyOn` says for which texts the check is sound, and
  `Grounding.DelimitedIsExact` that it is exact when no match runs on.

## Model

| member | source | states |
|---|---|---|
| LocalPush.Pusher.WeightedDegree | scoring/app/local_push.py:26-30 | the cached sum over incident edges is the vertex's degree in the graph, positive, and the cache stays truthful |
| LocalPush.Pusher.Push | scoring/app/local_push.py:38-54 | p and r become what one push of the specification makes of them; the neighbours come back in incident order, with repetition |
| LocalPush.Pusher.HandOut | scoring/app/local_push.py:46-54 | the loop over the incident edges leaves the residuals of the specification's spread and returns the other ends in order |
| LocalPush.Pusher.EnqueueActive | scoring/app/local_push.py:91-95 | the queue grows by the specification's enqueue and the shadow set stays exactly the queue's contents |
| LocalPush.Pusher.Iterate | scoring/app/local_push.py:81-95 | one iteration takes the abstract state to its `Step` and keeps queue, shadow set, pushed set and counter consistent |
| LocalPush.Pusher.Loop | scoring/app/local_push.py:80-95 | the loop ends in the state of the specification's capped run, and terminates by (pushes left, queue length) |
| LocalPush.LocalPushPpr | scoring/app/local_push.py:69-97 | the returned estimate and pushed set are those of the capped run from the seed, with the source's constants |
| LocalPushSpec.RunIsAfter | scoring/app/local_push.py:80-97 | the capped run ends in a state of the step-by-step run, so every loop-head invariant holds of the result |
| LocalPushMass.PushTotal | scoring/app/local_push.py:38-54 | for any b and f, a push changes sum(p b) + sum(r f) by the residual times the defect of the PageRank equation at u |
| LocalPushMass.ExactAnswerInvariant | scoring/app/local_push.py:2-12 | for every b and every f solving the PageRank equation, sum(p b) + sum(r f) = f(seed) at every loop head |
| LocalPushMass.QueueHoldsEveryActiveVertex | scoring/app/local_push.py:80-95 | at every loop head the queue has no duplicates and holds each vertex with r > epsilon d; an empty queue means r <= epsilon d everywhere; p > 0 exactly on the pushed vertices |
| LocalPushMass.MassConserved | scoring/app/local_push.py:33-37 | sum(p) + sum(r) is exactly 1 throughout when the seed has an edge, and exactly alpha after the one push of an isolated seed |
| LocalPushMass.MassAtMostOne | scoring/app/local_push.py:33-37 | the mass never exceeds 1, from any seed |
| LocalPushMass.WorkBound | scoring/app/local_push.py:57-62 | the weighted degrees of all pushes, repetitions included, sum to less than 1/(alpha epsilon) on a graph of any size |
| LocalPushMass.CapNeverBinds | scoring/app/local_push.py:20 | when cap alpha epsilon (least degree among the pushed vertices) >= 1 the run ends with an empty queue, fewer than cap pushes, and any larger cap changes nothing |
| LocalPushMass.CapOutOfReach | scoring/app/local_push.py:20 | the same from a floor on the degrees of the graph, which a caller can see beforehand |
| LocalPushMass.LoopEnds | scoring/app/local_push.py:80-95 | without any cap the loop ends on every graph, for 0 < alpha <= 1 and epsilon > 0 |
| LocalPushMass.EstimateError | scoring/app/local_push.py:57-61 | with an empty queue and 0 <= f <= M the estimate is never above f(seed) and below it by at most epsilon M (total degree of the residual's support) |
| LocalPushMass.FinalEstimate | scoring/app/local_push.py:69-97 | from a degree floor that puts the cap out of reach, what the capped loop returns has that error bound |
| LocalPushLocality.Locality | scoring/app/local_push.py:4-11 | two graphs that agree on the edges of the vertices pushed in the first run, on their neighbours' degrees and on the seed's give the same p, r and pushes |
| LocalPushScope.PushCountBound | scoring/app/local_push.py:57-62 | in the capped run, with every pushed degree at least low, fewer than 1/(alpha epsilon low) pushes, so at most that many vertices |
| LocalPushScope.PushCountOnFloor | scoring/app/local_push.py:57-62 | the same from a floor on the degrees of the graph |
| LocalPushScope.VertexCountExactly | scoring/app/local_push.py:6-9 | on all graphs the capped run pushes from at most K/(alpha epsilon) vertices if and only if the cap is at most K/(alpha epsilon), for every K, 0 < alpha < 1 and epsilon > 0 |
| LocalPushScope.EveryPushNew | scoring/app/local_push.py:57-68 | for every alpha, epsilon and cap there is a graph on which the capped run makes cap pushes, all at different vertices |
| LocalPushScope.CountAtTheConstants | scoring/app/local_push.py:18-20 | at the default parameters and cap the documented count holds on every graph; at alpha = epsilon = 1/2 and the same cap some graph exceeds it |
| LocalPushScope.DefaultRunEnds | scoring/app/local_push.py:18-20 | with alpha 0.15, epsilon 0.00001 and degrees of at least 10/3 the entry point's own cap does not end the loop |
| LocalPushScope.DefaultEstimate | scoring/app/local_push.py:69-97 | the estimate returned at the default parameters on such a graph is within epsilon M (degree of the residual's support) below the exact answer |
| LocalPushScope.PushFromClaim | tools/benchmark_incremental.py:112-117 | a call with the defaults is the run with alpha 0.15, epsilon 0.00001 and at most 200,000 pushes; p is positive exactly on the pushed vertices |
| Json.SortKeysCharacterized | backend/src/main/java/com/claimguard/audit/CanonicalJson.java:19-33 | key-sorted forms are equal exactly when the values are equal up to key order at every depth |
| JsonText.SortKeysAscends | backend/src/main/java/com/claimguard/audit/CanonicalJson.java:19-29 | in every object at every depth of the sorted form the keys ascend |
| JsonParse.ReadsValue | backend/src/main/java/com/claimguard/audit/CanonicalJson.java:26-51 | a written value is read back by a reader of the JSON grammar, which stops where it ends |
| JsonParse.CanonicalTextReads | backend/src/main/java/com/claimguard/audit/CanonicalJson.java:26-51 | the canonical text is JSON and reads as the value with its keys sorted |
| JsonParse.CanonicalIsStable | backend/src/main/java/com/claimguard/audit/CanonicalJson.java:35-51 | reading a canonical text and canonicalizing again gives the same text |
| JsonText.CanonicalTextCharacterized | backend/src/main/java/com/claimguard/audit/CanonicalJson.java:26-51 | canonical texts are equal exactly when the values are equal up to key order at every depth, so the text loses nothing else |
| JsonParse.CompactText | backend/src/main/java/com/claimguard/audit/CanonicalJson.java:19-31 | the text has the spaces of the strings and keys and no other whitespace |
| JsonText.EscapeForm | backend/src/main/java/com/claimguard/audit/CanonicalJson.java:29 | how long each character's escape is; escapes by number have capital digits |
| JsonText.EscapedStringDecodes | backend/src/main/java/com/claimguard/audit/CanonicalJson.java:27-33 | written strings decode uniquely, whatever follows them |
| JsonText.ValueDecodes | backend/src/main/java/com/claimguard/audit/CanonicalJson.java:27-33 | written values decode uniquely as prefixes of a text |
| Numerals.RoundingIsStable | backend/src/main/java/com/claimguard/service/AuditService.java:151-158 | rounding a score that the column has already rounded changes nothing |
| Numerals.RoundingIsNearest | backend/src/main/java/com/claimguard/service/AuditService.java:158 | the four-decimal rounding is to the nearest, ties away from zero |
| Numerals.Fixed4Injective | backend/src/main/java/com/claimguard/service/AuditService.java:158 | the plain four-decimal text determines the rounded score |
| Numerals.IntTextInjective | backend/src/main/java/com/claimguard/service/AuditService.java:144 | the decimal text of an integer determines it |
| Numerals.IntTextReads | backend/src/main/java/com/claimguard/service/AuditService.java:144 | the text of a whole number, read as decimal digits with a sign, is that number |
| Numerals.Fixed4Reads | backend/src/main/java/com/claimguard/service/AuditService.java:158 | the score text has a point before its last four digits and, read as a decimal fraction, is the rounded score |
| Numerals.FitsColumnExactly | backend/src/main/resources/db/migration/V3__audit.sql:18 | the column holds exactly the scores strictly between -9.99995 and 9.99995 |
| AuditRows.FieldsCharacterize | backend/src/main/java/com/claimguard/service/AuditService.java:137-172 | two rows' hashed objects are the same up to key order exactly when the rows agree field by field on all fourteen fields |
| AuditRows.HashedTextCharacterized | backend/src/main/java/com/claimguard/service/AuditService.java:71-73 | two rows hash the same text exactly when they agree on the fourteen fields |
| AuditText.HashedTextReads | backend/src/main/java/com/claimguard/service/AuditService.java:137-172 | the hashed text of a row is JSON for one object of fourteen named fields in ascending order of their keys, with these values |
| AuditText.NamesAsWritten | backend/src/main/java/com/claimguard/service/AuditService.java:145-149 | the names of statuses, roles and events in the hashed text |
| AuditChain.StorageKeepsHashedText | backend/src/main/java/com/claimguard/service/AuditService.java:151-167 | a row read back from the table (score rounded, document re-serialized, time truncated) hashes the text that was hashed on append |
| AuditChain.AppendKeepsChain | backend/src/main/java/com/claimguard/service/AuditService.java:54-94 | appending the stored form of the next row extends a chain numbered from 1 with each row linked to the one before |
| AuditChain.RowTime | backend/src/main/java/com/claimguard/service/AuditService.java:69 | an appended row is stamped with the millisecond of its clock reading |
| AuditChain.ChainVerifies | backend/src/main/java/com/claimguard/service/AuditService.java:110-129 | every appended chain verifies |
| AuditChain.HashDeterminesRow | backend/src/main/java/com/claimguard/service/AuditService.java:73 | with a collision-free digest two rows have the same hash exactly when they agree on all hashed fields |
| AuditChain.LastHashDeterminesLog | backend/src/main/java/com/claimguard/service/AuditService.java:102-129 | two verifying logs with the same last hash have the same length and agree on all hashed fields and hashes of every row |
| AuditChain.SelectionVerifies | backend/src/main/java/com/claimguard/service/AuditService.java:102-129 | any selection, reordering or repetition of a chain's rows verifies exactly when it is an initial piece of the chain |
| AuditChain.HashStandsForThePast | backend/src/main/java/com/claimguard/service/AuditService.java:102-129 | two verifying logs have the same hash in a row exactly when they agree on every hashed field of every row up to it |
| AuditChain.ChangeReachesTheEnd | backend/src/main/java/com/claimguard/service/AuditService.java:26-31 | an altered log that verifies has another hash in the altered row and in every later one |
| AuditChain.RewritingVerifies | backend/src/main/java/com/claimguard/service/AuditService.java:26-31 | any rows verify once their links and hashes are computed anew, with the same content |
| AuditChain.RewritingIsIdle | backend/src/main/java/com/claimguard/service/AuditService.java:110-129 | a log verifies exactly when computing its links and hashes anew gives it back |
| AuditChain.AlteredRowCanVerify | backend/src/main/java/com/claimguard/service/AuditService.java:26-31 | any row of a verifying log can be given any event so that the earlier rows are untouched, the later ones keep their content and the whole verifies |
| AuditChain.SoundIsPossible | backend/src/main/java/com/claimguard/service/AuditService.java:174-188 | the assumptions on the digest and the column can be met together, so the audit theorems are not vacuous |
| ClaimServices.AuditService.FieldsFor | backend/src/main/java/com/claimguard/service/AuditService.java:137-172 | the successive puts give the fourteen hashed fields in order |
| ClaimServices.AuditService.Append | backend/src/main/java/com/claimguard/service/AuditService.java:54-94 | the claim's rows gain the stored next row of its chain when the table admits it, and nothing changes otherwise |
| ClaimServices.AuditService.Verify | backend/src/main/java/com/claimguard/service/AuditService.java:110-129 | the loop that stops at the first mismatch accepts exactly the logs the recursive definition of a verifying chain accepts |
| ClaimServices.NoRepair | backend/src/main/java/com/claimguard/service/AuditService.java:114-127 | a log with a failing initial piece fails whatever follows, so stopping early is right |
| ClaimServices.OutboxService.Enqueue | backend/src/main/java/com/claimguard/service/OutboxService.java:34-49 | exactly one unsent row is added, with an id that no other row has |
| ClaimServices.ClaimService.CreateClaim | backend/src/main/java/com/claimguard/service/ClaimService.java:68-85 | claim, first audit row and outbox row are written together or not at all |
| ClaimServices.ClaimService.TransitionStatus | backend/src/main/java/com/claimguard/service/ClaimService.java:104-132 | the outcome for each rejection in the source's order, and status and row together or neither |
| ClaimServices.ClaimService.ApplyScore | backend/src/main/java/com/claimguard/service/ClaimService.java:150-172 | a known score is skipped; otherwise the score row and, when the move is legal for the system role, the new status; a refused row takes the status back |
| ClaimServices.ClaimService.RecordNarrative | backend/src/main/java/com/claimguard/service/ClaimService.java:189-206 | a narrative row that keeps the status, or nothing |
| RecordedRows.CreationRecorded | backend/src/main/java/com/claimguard/service/ClaimService.java:68-85 | a created claim is SUBMITTED, with one CLAIM_CREATED row by intake-system and one unsent claim.submitted message that carries its id |
| RecordedRows.MoveOutcome | backend/src/main/java/com/claimguard/service/ClaimService.java:104-122 | how a human move ends: not found, conflict when no role may make it, forbidden for this role, bad request without a reason for lifting a flag by approval, and otherwise made |
| RecordedRows.MoveRecorded | backend/src/main/java/com/claimguard/service/ClaimService.java:124-131 | a move that is made sets the status and adds one row with actor, role, reason and both statuses, HUMAN_OVERRIDE exactly from FLAGGED to APPROVED |
| RecordedRows.ScoreOutcome | backend/src/main/java/com/claimguard/service/ClaimService.java:150-172 | how a delivery ends: skipped, not found, rolled back when the score does not fit, recorded |
| RecordedRows.ScoreRecorded | backend/src/main/java/com/claimguard/service/ClaimService.java:160-171 | a recorded score flags a submitted claim on FLAG, puts it under review on any other hint, leaves every other status, and adds one row by scoring-service with score, ring, explanation and model |
| RecordedRows.NarrativeRecorded | backend/src/main/java/com/claimguard/service/ClaimService.java:188-206 | a recorded narrative keeps the status and adds one row with text, verdict, actor and model |
| RecordedRows.OtherOutcomes | backend/src/main/java/com/claimguard/service/ClaimService.java:68-85 | a narrative is recorded for every claim there is, and a claim is created once |
| RecordedRows.LogTimes | backend/src/main/java/com/claimguard/service/AuditService.java:69 | when clocks never go back, the times along every log are whole milliseconds in ascending order, none after the last clock reading |
| RecordedRows.TimesNeverGoBack | backend/src/main/java/com/claimguard/service/AuditService.java:69 | the same for the committed requests of every interleaving |
| RecordedRows.BlankExactly | backend/src/main/java/com/claimguard/service/ClaimService.java:119 | a reason is accepted exactly when it is given and has a character that is no space |
| RecordedRows.SpacesExactly | backend/src/main/java/com/claimguard/service/ClaimService.java:119 | the characters that a blank reason may consist of |
| Transitions.TransitionShape | backend/src/main/java/com/claimguard/workflow/ClaimTransitions.java:21-71 | approval only after review or a flag, flags lifted by investigators only, auditors move nothing, nothing leaves a decision or returns to the start, one move needs a reason |
| Transitions.MovesByRole | backend/src/main/java/com/claimguard/workflow/ClaimTransitions.java:21-38 | exactly what each role may do, and that decided claims are the ones nobody may move |
| Interleaving.StepSerializes | backend/src/main/java/com/claimguard/service/ClaimService.java:103-206 | every step of every transaction leaves the tables alone or does what the whole request does alone at that moment; a transaction that is rolled back changes nothing |
| Interleaving.Serializable | backend/src/main/java/com/claimguard/repository/ClaimRepository.java:31-40 | under every schedule the tables are those of the committed requests applied one by one in commit order |
| Interleaving.ApplyFrame | backend/src/main/java/com/claimguard/service/ClaimService.java:67-206 | a request changes no other claim's status or log |
| Interleaving.CommitIsApply | backend/src/main/java/com/claimguard/service/ClaimService.java:152-172 | committing a decision made under the lock equals the request run alone, although the duplicate check was made before the lock |
| Interleaving.DraftIsApply | backend/src/main/java/com/claimguard/service/ClaimService.java:67-85 | committing a claim drafted earlier equals creating it alone at that moment, whatever was committed in between |
| WorkflowSafety.CommitKeepsLog | backend/src/main/java/com/claimguard/service/AuditService.java:66-93 | one more row with a permitted move keeps chain, replay and the one-score-per-model rule |
| WorkflowSafety.DecisionsPermitted | backend/src/main/java/com/claimguard/service/ClaimService.java:109-171 | whatever a request decides from a status is a permitted move from that status for its role |
| WorkflowSafety.RunKeepsInv | backend/src/main/java/com/claimguard/service/ClaimService.java:67-206 | after any requests every log is an unforked chain that replays to the claim's status and scores no model version twice |
| WorkflowSafety.InterleavedLogs | backend/src/main/resources/db/migration/V5__outbox.sql:22-30 | the same under every interleaving, and every log verifies |
| WorkflowSafety.RowSafety | backend/src/main/java/com/claimguard/workflow/ClaimTransitions.java:10-43 | for each row of a reachable log: flags lifted by investigators, flag to approval exactly a HUMAN_OVERRIDE, overrides with a non-blank reason, auditors and narratives move nothing, decisions are kept, approval only from review or a flag |
| WorkflowSafety.DecisionsStand | backend/src/main/java/com/claimguard/workflow/ClaimTransitions.java:21-38 | approved and denied are absorbing over whole logs |
| WorkflowSafety.DecidedClaimsStillRecord | backend/src/main/java/com/claimguard/service/ClaimService.java:134-143 | on a decided claim a human move is a conflict, a narrative always and a score exactly when storable and new add one row, and no status changes |
| WorkflowSafety.ApprovalFollowsReview | backend/src/main/java/com/claimguard/workflow/ClaimTransitions.java:10-15 | an approved claim was put under review or flagged by an earlier row, and approved from there |
| ScoreDeliveries.OneDelivery | backend/src/main/java/com/claimguard/service/ClaimService.java:134-172 | a delivery is recorded exactly when the claim exists, the column can hold the score and the model has not scored the claim; otherwise nothing at all changes |
| ScoreDeliveries.ScoredAfter | backend/src/main/java/com/claimguard/service/ClaimService.java:144-155 | after any requests a key is scored exactly when it was before or some delivery of it came after its claim and fits the column |
| ScoreDeliveries.KnownAfter | backend/src/main/java/com/claimguard/service/ClaimService.java:67-85 | after any requests a claim exists exactly when it did before or one of them loads or creates it |
| ScoreDeliveries.FirstDeliveriesSuffice | backend/src/main/java/com/claimguard/service/ClaimService.java:144-147 | from any requests, human moves, narratives and creations included, the redelivered scores can be dropped without changing the tables if and only if no first delivery that is too early or unstorable is followed by an accepted one |
| ScoreDeliveries.CopiesAreHarmless | backend/src/main/java/com/claimguard/service/ClaimService.java:144-147 | when deliveries under one key carry one score and come after their claim, dropping the repeated ones from any requests changes nothing |
| ScoreDeliveries.LateAcceptance | backend/src/main/java/com/claimguard/service/ClaimService.java:157-158 | the failing family: a first delivery that finds no claim or does not fit, anything in between, and an accepted one of the same key |
| ScoreDeliveries.LateAcceptanceHappens | backend/src/main/resources/db/migration/V3__audit.sql:18 | a concrete case, with a score of 10 and then 0.5 |
| OutboxDelivery.DeliverySafety | backend/src/main/java/com/claimguard/service/OutboxPublisher.java:48-62 | over every run: created claims have exactly one claim.submitted row, there are no others and their ids differ, marked rows are in the topic, the topic holds only rows' messages, and a pass without failures leaves none of its snapshot unsent |
| OutboxDelivery.NothingLost | backend/src/main/java/com/claimguard/service/OutboxPublisher.java:20-23 | no later action loses, alters or unmarks a row |
| OutboxDelivery.ActionKeepsInv | backend/src/main/java/com/claimguard/service/OutboxPublisher.java:51-61 | each action, crash and lost acknowledgement included, keeps the invariant of tables, topic and pass |
| OutboxDelivery.LogsExtend | backend/src/main/java/com/claimguard/service/ClaimService.java:81-83 | requests only extend logs, and exactly a successful creation adds an outbox row and a creation row |
| OutboxDelivery.CreatedExactly | backend/src/main/java/com/claimguard/service/ClaimService.java:56-85 | under every interleaving a claim's log starts with a creation row exactly when a createClaim of it was committed |
| OutboxDelivery.CreationComesFirst | backend/src/main/java/com/claimguard/service/ClaimService.java:81-82 | the first row of such a claim, and no other, is CLAIM_CREATED, from no status into SUBMITTED |
| OutboxInterleaving.JointRunsAreRuns | backend/src/main/java/com/claimguard/service/OutboxPublisher.java:11-23 | every joint run of transaction steps and publisher actions looks to the publisher like a run in which whole requests come one by one |
| OutboxInterleaving.JointSafety | backend/src/main/java/com/claimguard/service/OutboxPublisher.java:11-23 | under every interleaving of transaction steps, sends, marks and crashes the outbox and topic are safe and every log verifies and replays |
| OutboxPublishing.OutboxPublisher.PublishPending | backend/src/main/java/com/claimguard/service/OutboxPublisher.java:50-62 | the topic gains messages of unsent rows in the order of their creation, and the table only marks of this time; the pass is a run of the machine from a poll on, and each acknowledged and marked row is sent |
| OutboxPublishing.CleanPassSendsAll | backend/src/main/java/com/claimguard/service/OutboxPublisher.java:51-56 | a whole pass in which every send is acknowledged and marked leaves every row sent, the unsent ones marked at its time, and the topic with their messages, oldest first |
| OutboxDelivery.PendingAreRows | backend/src/main/java/com/claimguard/repository/OutboxEventRepository.java:16-17 | the poll lists exactly the rows without a sent mark, none before one created earlier |
| OutboxDelivery.PendingOften | backend/src/main/java/com/claimguard/repository/OutboxEventRepository.java:16-17 | and each of them as often as it is in the table |
| OutboxPublishing.PassInOrder | backend/src/main/java/com/claimguard/service/OutboxPublisher.java:48-62 | what a pass delivers, up to any point, are messages of unsent rows in the order of their creation |
| RingGraph.BuildGraph | scoring/app/graph.py:75-113 | the edges are the selected links in table order; the vertices exactly their claims and entities, with their data; each degree the true number of edges; each weight the inverse-log of that degree |
| RingGraph.Collect | scoring/app/graph.py:79-88 | the loop over the rows collects exactly the edges' claims and entities with the entities' type and value |
| RingGraph.CountDegrees | scoring/app/graph.py:90-92 | the counter holds each entity of the edges, with the number of its edges |
| RingGraph.EdgeCountExactly | scoring/app/graph.py:90-92 | the counted degree is the number of the edges listed at the entity |
| RingGraph.IdfWeightExactly | scoring/app/graph.py:63-67 | the weight times the logarithm of one more than the degree is 1, and an entity without edges weighs 0 |
| RingGraph.AttrsFound | scoring/app/graph.py:49-60 | the attribute query has every claim the link query selects, with its own attributes |
| RingAsOf.CutoffSeesOnlyThePast | scoring/app/graph.py:10-19 | two databases that agree on claims dated up to the cutoff, and on their links, give the same graph whatever later claims they hold |
| RingAsOf.CutoffsNest | scoring/app/graph.py:66-67 | a later cutoff gives more claims and edges, no smaller degree, no larger weight, and a smaller weight exactly where the degree has grown |
| RingAsOf.OwnLinksNeverChange | tools/train_model.py:97-100 | a claim's own edges are the same in every graph that has the claim |
| RingAsOf.SplitsAgree | tools/train_model.py:117-155 | set differences of nested graphs are a partition, and it is the split by date |
| RingAsOf.BuildDataset | tools/train_model.py:101-138 | the row sets of the three graphs are the claims up to day 144, up to day 192 and after it, as the date split has them, and each row is read from the graph of its own period |
| RingPush.BuiltGraphFloor | scoring/app/graph.py:63-113 | in a built graph every vertex has at least the weight of an edge of the largest hub as its degree |
| RingPush.BuiltGraphPushes | scoring/app/local_push.py:57-68 | on a built graph the push loop makes fewer than log(1 + largest entity degree)/(alpha epsilon) pushes, and a cap of at least that never ends it |
| RingPush.NumbersExist | scoring/app/graph.py:94-97 | every built graph can be numbered, each vertex once |
| RingDetector.Rung1Components | scoring/app/detector.py:64-74 | for any degree thresholds and minimum size, a claim gets ring id i exactly when component i of the pruned graph holds it and is large enough |
| RingDetector.RingIsComponent | scoring/app/detector.py:67-73 | a ring's claims are all the claims of its component |
| RingDetector.PrunedExactly | scoring/app/detector.py:26-55 | by default an address is pruned above one edge and any other entity above fifty |
| RingDetector.PrunedWithin | scoring/app/detector.py:50-55 | with other limits, above the type's own limit, or fifty where there is none |
| RingDetector.RingMapUnique | scoring/app/detector.py:64-74 | a graph's components have one ring map for each minimum size |
| RingDetector.SameRing | scoring/app/detector.py:61-63 | two ring claims share a ring id exactly when a walk through kept entities joins them |
| RingComponents.ComponentsExist | scoring/app/detector.py:66-69 | every graph has its components, whatever the thresholds, so the results about rings are not vacuous |
| RingComponents.ComponentsUnique | scoring/app/detector.py:66-69 | two lists of components of a graph have the same members |
| RingDetector.PruningAgrees | scoring/app/features.py:122-134 | the features' degree test skips exactly the entities the detector prunes |
| RingDetector.TwoHopClaims | scoring/app/features.py:129-138 | the loop finds exactly the other claims that share an entity of degree within its threshold |
| RingDetector.TwoHopInOwnComponent | scoring/app/features.py:77-82 | two-hop claims lie in the claim's own component; two of them make it a ring; component_size >= two_hop_claim_count + 1 exactly when the claim is in a ring or has no two-hop claims |
| RingDetector.AddressJoinsNobody | scoring/app/detector.py:17-26 | an address that two claims share is always pruned |
| RingDetector.Detect | scoring/app/detector.py:170-213 | for any thresholds, resolution and minimum size every claim gets one verdict; of the first two rungs' candidates the one with the higher score, never a weaker one; other claims the propagated score above the floor, or none |
| RingDetector.SeedsAgree | scoring/app/features.py:73-86 | the seeds of the combined verdicts are the seeds the feature extractor selects from the two rungs |
| RingDetector.BuildFeatureContext | scoring/app/features.py:77-91 | with the default settings: a claim has a ring exactly when its component has at least three claims, each ring its number of claims, and propagation starts from the ring claims and the communities of at least 0.75 |
| RingDetector.BothPropagateAlike | scoring/app/features.py:73-86 | the detector and the extractor, each with its defaults, get the same propagated scores |
| Burstiness.Measure | scoring/app/detector.py:86-97 | the largest fraction of known dates in any 14-day window, wherever it starts; 0 below two dates; 1 exactly when all dates lie within 14 days |
| Burstiness.BestStart | scoring/app/detector.py:94-96 | no window holds more dates than some window starting at a listed date |
| Burstiness.KnownExactly | scoring/app/detector.py:90 | a date is counted as often as it is listed, an unknown one never |
| Burstiness.CountInExactly | scoring/app/detector.py:95 | the count of a window is that of the days from its start to fourteen days later, both included |
| Address.Normalize | backend/src/main/java/com/claimguard/entityresolution/AddressNormalizer.java:34-45 | trimming, splitting and skipping blank tokens finds exactly the maximal runs of letters and digits; the result is their expansions sorted and joined |
| Address.WordsOfJoin | backend/src/main/java/com/claimguard/entityresolution/AddressNormalizer.java:44 | splitting undoes joining |
| Address.SameAddress | backend/src/main/java/com/claimguard/entityresolution/AddressNormalizer.java:12-19 | two addresses normalize equally exactly when their expanded tokens are the same, each as often, for any lower-casing |
| Address.Idempotent | backend/src/main/java/com/claimguard/entityresolution/AddressNormalizer.java:34-45 | the normal form is a fixed point for every lower-casing that leaves it alone |
| Address.AsciiIdempotent | backend/src/main/java/com/claimguard/entityresolution/AddressNormalizer.java:34-45 | with ASCII lower-casing the normal form is always a fixed point |
| Address.PartsInAnyOrder | backend/src/main/java/com/claimguard/entityresolution/AddressNormalizer.java:12-16 | two parts of an address can be swapped and separated by any punctuation |
| Address.ExpansionsAreFinal | backend/src/main/java/com/claimguard/entityresolution/AddressNormalizer.java:22-31 | an expansion is a word and never an abbreviation itself |
| Address.ExpansionsExactly | backend/src/main/java/com/claimguard/entityresolution/AddressNormalizer.java:22-31 | the eight abbreviations with their expansions, and that nothing else is expanded |
| Address.KeptExactly | backend/src/main/java/com/claimguard/entityresolution/AddressNormalizer.java:35 | the characters that cleaning keeps |
| Address.NormalFormSpacing | backend/src/main/java/com/claimguard/entityresolution/AddressNormalizer.java:35-44 | a normal form has small letters and digits only, one space between words and none around them |
| Address.NormalFormSorted | backend/src/main/java/com/claimguard/entityresolution/AddressNormalizer.java:36-44 | the words of a normal form are the expanded tokens in ascending order |
| EntityServices.EntityService.Upsert | backend/src/main/java/com/claimguard/repository/ResolvedEntityRepository.java:18-35 | the row for the type and value is inserted counting 1 or counts one more, and its id is returned |
| EntityServices.EntityService.ResolveAndLink | backend/src/main/java/com/claimguard/service/EntityService.java:65-90 | the claim's three link steps in order, or no write at all when its phone does not parse |
| EntityServices.EntityService.CreateClaim | backend/src/main/java/com/claimguard/service/ClaimService.java:79-80 | a claim that cannot be linked is not stored |
| EntityServices.EntityService.ResolveBacklog | backend/src/main/java/com/claimguard/service/EntityService.java:120-127 | each listed claim in its own transaction, ended by the first that fails; the count is that of the snapshot |
| EntityServices.EntityService.LoadClaim | backend/src/main/java/com/claimguard/service/EntityService.java:102-106 | a bulk-loaded claim is stored without links, keeps the invariant, and is in whatever the next backlog query returns |
| EntityServices.EntityService.FindIdsWithoutEntityLinks | backend/src/main/java/com/claimguard/repository/ClaimRepository.java:18-29 | each claim without links once, and no other |
| EntityServices.EntityService.ClaimsForEntity | backend/src/main/java/com/claimguard/service/EntityService.java:92-100 | on tables the service keeps: exactly the linked claims whose canonical value of that type is the entity's, as many as its claim_count; not found for an unknown entity |
| EntityIndex.LinkedAreSharers | backend/src/main/java/com/claimguard/service/EntityService.java:92-100 | the claims of an entity's link rows are the linked claims with its canonical value, and its count is their number |
| EntityIndex.LinkedKeepsSane | backend/src/main/java/com/claimguard/service/EntityService.java:81-90 | a link step for a claim and type without a row keeps counts, uniqueness and the fit of every row, and adds exactly one row |
| EntityIndex.PassResolves | backend/src/main/java/com/claimguard/service/EntityService.java:102-127 | a pass keeps the invariant even when it aborts, completes exactly when every listed phone parses, and then has linked every listed claim |
| EntityIndex.RunKeepsInv | backend/src/main/java/com/claimguard/service/EntityService.java:59-90 | over every serial run claim_count is the number of link rows, entities are unique per type and value, rows join claims to their canonical values, and a claim has all its links or none |
| EntityIndex.ShareExactly | backend/src/main/java/com/claimguard/service/EntityService.java:24-30 | two linked claims share an entity of a type exactly when both have a value for it and the normalized values agree |
| EntityIndex.CountIsSharers | backend/src/main/java/com/claimguard/repository/ResolvedEntityRepository.java:18-31 | claim_count is the number of linked claims whose canonical value the entity holds |
| EntityIndex.LinkSays | backend/src/main/java/com/claimguard/service/EntityService.java:65-90 | role by role, which normalizer made a linked entity's value, from which field of the claim, and which field the row keeps |
| EntityIndex.LinkedClaimHas | backend/src/main/java/com/claimguard/service/EntityService.java:65-78 | a linked claim has a row for its address, for a phone that parses, and for a shop exactly when a non-blank one is named |
| EntityIndex.CompletedPassIsFinal | backend/src/main/java/com/claimguard/service/EntityService.java:109-110 | a pass completes exactly when every unlinked claim's phone parses, and the next pass then returns 0 and changes nothing |
| Grounding.OverlapsOnlyAtTheEnd | scoring/app/narrative.py:60-62 | two UUID-shaped pieces overlap only in the last eight digits of the first, which then runs on with a digit or a hyphen |
| Grounding.MatchExactly | scoring/app/narrative.py:60-62 | a match is five groups of 8, 4, 4, 4 and 12 hexadecimal digits of either case joined by hyphens |
| Grounding.ScanCovers | scoring/app/narrative.py:60-62 | every UUID-shaped piece is found by the scan or starts in the last eight digits of one that is |
| Grounding.AcceptedMentionsAllowed | scoring/app/narrative.py:163-173 | in an accepted text every UUID-shaped piece is an allowed id up to case, or starts in the last eight digits of an earlier allowed one that runs on |
| Grounding.DelimitedIsExact | scoring/app/narrative.py:167-173 | when no found id runs on, a text is accepted exactly when every UUID-shaped piece is allowed |
| Grounding.SoundExactlyOn | scoring/app/narrative.py:163-173 | the check is sound for a text and all evidence exactly when every piece the scan steps over repeats one it found |
| Grounding.RunOnAccepted | scoring/app/narrative.py:163-173 | the failing family: an allowed id run on by four groups is accepted, and the id made of its last eight digits and those groups is allowed only if it is the same id |
| Grounding.AcceptedYetUnlisted | scoring/app/narrative.py:163-173 | a concrete text that is accepted and mentions an id outside its evidence |
| Grounding.AllowedClaimIds | scoring/app/narrative.py:82-87 | the loop collects exactly the claim's own id and the ids in its shared-entity evidence |
| Grounding.EvidenceExactly | scoring/app/narrative.py:82-87 | item by item, which ids the evidence mentions |
| Grounding.GenerateNarrative | scoring/app/narrative.py:179-194 | the text is the model's, with every found id in the evidence up to case, or the template summary; a non-empty answer is rejected only for a found id outside the evidence |
| Sorting.SortedUnique | backend/src/main/java/com/claimguard/entityresolution/AddressNormalizer.java:43 | only one arrangement of the same elements is sorted |
| Sorting.StringLeExactly | backend/src/main/java/com/claimguard/entityresolution/AddressNormalizer.java:43 | a string is not after another exactly when it is a prefix of it or has the smaller character where they first differ |
| LetterCase.LowerExactly | backend/src/main/java/com/claimguard/entityresolution/AddressNormalizer.java:35 | capital letters become small ones and nothing else changes |

## Left out

- Floating-point rounding in the push loop, the weights and the burst fraction: numbers are exact reals, and the
  logarithm is any positive, strictly increasing function.
- SHA-256 itself: an assumed collision-free function to hexadecimal text; nothing is said about a real collision.
- Timestamps are numbers: the hashed text holds a number where the code writes an ISO-8601 instant.
- Jackson's number formatting and the exponent forms that a jsonb column rewrites: numbers are lexemes which
  storage keeps. Keys are compared by character, not by UTF-16 code unit, and explanations that are not valid
  JSON are not modelled.
- Claim versions for optimistic locking, the append-only trigger, and the clearing of a persistence context:
  the row lock and the two unique indexes are what the interleaving rests on.
- The bulk load of a claim is a single step, like the COPY it stands for.
- ClaimServices.ClaimService.CreateClaim: entity resolution inside the transaction is given as linked or failed;
  what it writes is `EntityServices.EntityService.CreateClaim`.
- The marks of one publisher pass carry one clock reading; the code reads the clock for each mark.
- The reader of JSON takes number lexemes as they are and escapes by number below U+0100 only, which are all that
  the writer uses; texts with repeated keys are not modelled.
- Random row ids never repeat: a new outbox row gets an id that no row has, and saving over an existing row is
  not modelled.
- Kafka is a list that only grows, the broker's answers are given, and the consumer side is any list of
  deliveries; offsets, partitions and the Python consumer are not modelled.
- OutboxPublishing.OutboxPublisher.PublishPending: describes one pass undisturbed by new claims; claims created
  during a pass are covered by the machine in `OutboxDelivery`.
- The outbox payload is the one-field object that createClaim writes; failing serialization is not modelled.
- Concurrent backlog passes: claim_count is only claimed for serial runs, since the pass works from a snapshot
  without a lock. `first_seen_at` is not modelled, and entity ids are row numbers.
- The shop normalizer and the phone library are arbitrary functions; the shop normalizer has no canonical form.
- Address.Idempotent: assumes that lower-casing leaves the normal form alone, which holds for ASCII
  (`Address.AsciiIdempotent`); full Unicode lower-casing is not modelled.
- Vertex numbers of the built graph, which only fix an order; claim and entity vertices are told apart by kind,
  so an entity with a claim's id is not modelled.
- RingDetector.Detect: takes the Leiden communities, the propagated scores and their rounding as given results;
  connected components are specified by reachability, in any order.
- The dates of a burst are not sorted before they are counted: the counts do not depend on the order.
- The remaining feature columns, the suspiciousness formula, the trained classifier, thresholds and
  calibration: single formulas or library code.
- Controllers, authentication, the HTTP endpoints, the frontend, the data generator and the language model.
