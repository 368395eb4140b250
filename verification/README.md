# Verified model of the identification server's core

This project models the algorithms and state machines inside the server of a biometric
identification system and proves what they are for. It holds one or two modules per component:

- **Calibration** (`Calibration`, `EqualError`, `RankStatistic`): error rates over scored pairs, the
  exact ROC curve, the equal error point and the trapezoidal area, which is shown to be the
  Mann–Whitney rank statistic with ties counted half.
- **Audit log** (`HashChain`, `AuditChain`, `AuditLog`, `AuditWriters`, `AuditStorage`): the 15-field
  canonical text, appending under a single-row tip, the verifier loop, writers interleaved statement by
  statement, and what the engine makes of the hashed texts before the verifier reads them back.
  `HashChain` proves what any chain of committing hashes says about its history; `AuditChain` shows
  that audit rows are such a chain.
- **Face geometry** (`Alignment`, `Imaging`, `Detection`, `Embedding`): the least-squares similarity
  fit, bilinear resize and inverse warp, overlap and greedy non-maximum suppression, cosine similarity.
- **Candidate search** (`Ranking`, `Templates`, `TemplateStore`, `SearchStore`): enrolment and
  revocation of templates, the in-memory scan against the vector-index query, and finalising a search
  under its unique index.
- **Review** (`Review`, `ReviewTables`): four-eyes decisions over an append-only log and the status
  columns it projects to.
- **Sessions and second factors** (`Sessions`, `SessionRuns`, `SingleUse`, `SingleUseRuns`, `Mfa`,
  `MfaRuns`): refresh-token rotation (the scheme of section 5.2.2.3 of RFC 6819), single-use links,
  TOTP, emailed and recovery codes, every one interleaved statement by statement.
- **Rate limiting** (`RateLimit`, `RateLimitRuns`, `RateLimitCleanup`): one key's windows, the shared
  map, and exactly when its opportunistic cleanup can be noticed.

`Options`, `Backends`, `Sums`, `Sorting`, `RealMath` and `Geometry` are shared helpers.

Scores, coordinates and vector components are exact reals, a score read from the database may be
undefined; a decision threshold may also be one of
the two infinities. Counts are unbounded. Library code is a function-valued parameter with its laws
as preconditions: the hash is injective, never yields the genesis value and writes no separator; a
formatted instant parses back to itself in microseconds; `sqrt`, `atan2`, `sin` and `cos` satisfy the
few identities they are used for; a UUID parser maps text to its canonical text. One SQL statement is
one atomic step, and a transaction that holds its row lock throughout is one step. Generated ids,
families, tokens and TOTP secrets are assumed new where the generator makes them random.

## Where the code and its own promises differ

- `equal_error_rate` minimises |FAR − FRR| over the observed scores. That is the minimum over all real
  thresholds exactly when a genuine pair exists (`EqualError.ObservedScoresSufficeIffGenuine`).
- `auc` is 0 without impostors and otherwise 1 without genuine pairs; so swapping labels gives 1 − AUC
  for every input but the empty one (`RankStatistic.AucOfSwappedLabels`).
- `similarity_transform` falls back to scale 1 when the source variance is at most 1e-12. Its result is
  then optimal only for data whose best scale is 1 (`Alignment.ClosedFormIsBestIff`;
  `Alignment.TinyFaceIsMisfitted` is a failing face).
- Some other event has an event's canonical text, under the same predecessor and instant, exactly when
  one of its fields contains the separator (`AuditChain.EventTextIsAmbiguousIff`); the commitment
  theorems need the honest chain, and only it, to be free of it.
- On PostgreSQL an honest log is reported intact exactly when every actor id and every metadata text is
  a fixed point of storage (`AuditStorage.InterleavingVerifiesIffFieldsSurvive`): an actor id is kept
  only if it parses as a UUID and metadata is re-rendered through `jsonb`.
- `record_review_decision` accepts any decision text. Passing the status text "needs_second_review" as
  a decision lets the next reviewer finalise alone; the law holds for a vocabulary of decisions exactly
  when that text is not in it or nothing finalising is (`Review.FourEyesIff`). The only caller passes
  confirmed, rejected or inconclusive.
- On PostgreSQL a decision whose candidate id is a UUID in non-canonical spelling is committed and then
  reported as NotFound, because the row is read back by the caller's spelling; the same happens when
  the candidate's record is gone (`ReviewTables.NotFoundLeavesATraceIff`; `ReviewTables.HiddenReview` is
  such a request).
- The comment on `upsert_pending_mfa_credential` says an enabled credential is left untouched; the
  statement overwrites it and clears `enabled_at`. The login outcome stays the same exactly when nothing
  was enabled (`Mfa.RestartKeepsLoginOutcomeIff`), and otherwise logins go unchallenged until some
  confirmation (`MfaRuns.RestartSuspendsUntilConfirmed`).
- `insert_template` always names the vector column on PostgreSQL, so where the extension is missing it
  refuses exactly the enrolments it would otherwise store, also those without a vector
  (`TemplateStore.MissingColumnRefusesIff`, `TemplateStore.NoFallbackWithoutColumn`).
- The scan scores vectors at or below its norm floor 0, the vector query divides by any non-zero norm
  and reports an undefined score, ranked first, next to a zero vector. A row's two scores agree exactly
  when both norms exceed the floor or the vectors are orthogonal and non-zero
  (`Templates.ScoreAgreesIff`).
- `finalize_queued_search` on SQLite commits the result rows of a search that does not exist;
  PostgreSQL rolls them back (`SearchStore.Store.FinalizeQueuedSearch`).
- Rate limiter cleanup uses the window of the current call. A key is served as by a limiter of its own,
  however it is called, exactly when no call drops its open entry (`RateLimitCleanup.AloneIffSpared`),
  that is, no call finds more than 10,000 entries and has a window the entry has outlived
  (`RateLimitRuns.OpenEntryDroppedIff`). `RateLimitCleanup.ShorterWindowForgets` is a run from the empty
  map in which that happens. Refusals are earned in every run (`RateLimitRuns.RefusalIsEarned`).
- A refresh succeeds exactly when its token was acceptable at its lookup (`SessionRuns.LookupDecides`).
  So a second refresh with the same token succeeds if it looked up before the first one finished
  (`SessionRuns.LookedUpBeforeSucceeds`) and fails if it looked up after
  (`SessionRuns.LookedUpAfterFails`); of the answers only the last one is acceptable.

## Model

| member | source | states |
|---|---|---|
| Calibration.RatesAreMonotone | server/src/calibration.rs:30-50 | raising the threshold never raises FAR and never lowers FRR, infinities included |
| Calibration.RatesAreShares | server/src/calibration.rs:30-50 | FAR is the share of impostor indices scoring at the threshold or above, FRR the share of genuine indices scoring below it; 0 for an empty class |
| Calibration.ZeroRates | server/src/calibration.rs:30-50 | FAR is 0 iff no impostor score reaches the threshold, FRR is 0 iff every genuine score does; empty classes give 0 |
| Calibration.Dedup | server/src/calibration.rs:69 | from sorted thresholds leaves a strictly increasing sequence with the same members |
| Calibration.RocCurve | server/src/calibration.rs:64-79 | the curve has one exact point for every distinct score and both infinities, thresholds strictly increasing |
| Calibration.CurveIsMonotone | server/src/calibration.rs:64-79 | along the curve FAR never rises and FRR never falls |
| Calibration.CurveIsComplete | server/src/calibration.rs:59-79 | the rates of every real or infinite threshold occur on the curve, at a point not below it |
| Calibration.CurveIsUnique | server/src/calibration.rs:64-79 | the specification of the curve leaves exactly one sequence of points |
| EqualError.EqualErrorRate | server/src/calibration.rs:85-97 | None only for no pairs; otherwise an observed score at which (FAR − FRR)² is least among observed scores, the lowest such, and least over all real thresholds when a genuine pair exists; with the mean of its two rates |
| EqualError.ObservedScoresSufficeIffGenuine | server/src/calibration.rs:81-97 | the returned score has the least gap over all real thresholds iff a genuine pair exists |
| EqualError.ZeroRateIffSeparated | server/src/calibration.rs:85-97 | with both classes present the rate is 0 iff every impostor score is below every genuine score |
| RankStatistic.Auc | server/src/calibration.rs:110-123 | the trapezoid loop over the reversed curve returns (wins + half the ties) / (genuine · impostors); 0 without impostors, else 1 without genuine pairs |
| RankStatistic.AucCountsCouples | server/src/calibration.rs:99-123 | with both classes present the area times twice the number of (genuine, impostor) index couples is twice the couples the genuine pair wins plus the tied ones |
| RankStatistic.TrapezoidStep | server/src/calibration.rs:117-121 | moving one threshold down the curve collects the credit of twice one strip: the new impostors times the genuine pairs accepted at both ends |
| RankStatistic.AucInUnitInterval | server/src/calibration.rs:99-123 | the area lies in [0, 1] |
| RankStatistic.AucOneIffSeparated | server/src/calibration.rs:99-102 | with both classes present the area is 1 iff the classes are perfectly separated |
| RankStatistic.AucIgnoresOrder | server/src/calibration.rs:110-123 | permuting the pairs does not change the area |
| RankStatistic.AucIgnoresMonotoneRescoring | server/src/calibration.rs:110-123 | no strictly increasing map of the scores changes the area |
| RankStatistic.AucOfSwappedLabels | server/src/calibration.rs:110-123 | swapping the labels gives one minus the area iff there is any pair |
| HashChain.TipCommits | server/src/db/audit.rs:545-627 | an intact chain ending in the hash of a committed chain has the same length and the same content and hash in every row |
| HashChain.HashesAreDistinct | server/src/db/audit.rs:565-626 | no two rows of a committed chain share their hash |
| HashChain.RearrangementIntactIffPrefix | server/src/db/audit.rs:565-626 | rows of a committed chain in any order and number verify iff they are a prefix of it |
| HashChain.DeletedBlockDetected | server/src/db/audit.rs:565-626 | deleting a block verifies iff the block reaches the end |
| HashChain.SwappedRowsDetected | server/src/db/audit.rs:565-626 | exchanging two rows never verifies |
| HashChain.ReplacedRowIntactIff | server/src/db/audit.rs:565-626 | a replaced row verifies iff it is self-consistent, keeps its predecessor, and keeps content and hash or is the last row |
| AuditChain.JoinInjective | server/src/db/audit.rs:159-183 | separator-free fields are the only fields of their number with their joined text |
| AuditChain.JoinDeterminesIff | server/src/db/audit.rs:159-183 | the joined text determines two or more fields iff none of them contains the separator |
| AuditChain.EventTextIsAmbiguousIff | server/src/db/audit.rs:137-183 | some event with other hashed fields has this event's canonical text under the same predecessor and instant iff one of its fields contains the separator |
| AuditChain.CleanChainIsCommitted | server/src/db/audit.rs:159-189 | every hash of an intact, separator-free audit chain commits to its row's hashed fields and predecessor |
| AuditLog.AuditTables.InsertAuditEvent | server/src/db/audit.rs:191-311 | appends the event whole, numbered next, stamped to the microsecond, linked to the tip and hashed over it, advances the tip to it, and keeps the tables honest |
| AuditLog.AuditTables.VerifyChain | server/src/db/audit.rs:545-627 | reports the number of numbered rows and, row by row, exactly the right breaks: a broken link iff the stored predecessor is not the earlier row's stored hash or genesis, an unparseable timestamp iff it does not parse, a wrong hash iff the stored fields hash to something else; intact iff there is none |
| AuditLog.SelectedRows | server/src/db/audit.rs:546-563 | the verifier takes every numbered row as often as it is stored, and only those, by rising sequence |
| AuditLog.NoBreaksIffRowsHold | server/src/db/audit.rs:565-620 | the report has no break iff every row recomputes to its own hash and names its predecessor |
| AuditLog.HonestTablesVerify | server/src/db/audit.rs:545-627 | honest tables are reported intact, with as many rows checked as the tip's sequence |
| AuditLog.StoredTipCommits | server/src/db/audit.rs:159-183 | a table reported intact that ends in the stored tip hash agrees with the honest one on the length and every hashed field (None counted as empty text) |
| AuditLog.PartialTableVerifiesIffPrefix | server/src/db/audit.rs:545-627 | a table holding only rows of an honest one is reported intact iff it holds an initial part of it |
| AuditWriters.StepKeepsConsistent | server/src/db/audit.rs:203-309 | every statement of every writer keeps rows, tip, lock and all transactions in flight consistent |
| AuditWriters.AnyInterleavingVerifies | server/src/db/audit.rs:191-311 | after any interleaving the rows as hashed are one intact chain 1..n, the tip is the last row's, and the verifier finds no break in them |
| AuditWriters.UndisturbedInsert | server/src/db/audit.rs:203-309 | a writer nobody disturbs appends its event over the tip, advances the tip and releases the lock |
| AuditStorage.ReadBackVerifiesIff | server/src/db/audit.rs:214-239 | what the engine hands back of an honest table is reported intact iff every row's canonical text survives storage |
| AuditStorage.InterleavingVerifiesIffFieldsSurvive | server/src/db/audit.rs:191-311 | after any interleaving of separator-free events the stored table is reported intact iff every actor id and metadata text is a fixed point of the engine's conversions, which on SQLite they are |
| Alignment.ResidualGap | server/src/biometric/alignment.rs:43-73 | another similarity's squared error exceeds that of a solution of the normal equations by an explicit sum of squares |
| Alignment.BestIffNormal | server/src/biometric/alignment.rs:43-99 | a similarity has least squared error iff it solves the normal equations |
| Alignment.BestIsUnique | server/src/biometric/alignment.rs:43-99 | with positive source variance the best similarity is unique |
| Alignment.SimilarityTransform | server/src/biometric/alignment.rs:51-99 | returns the closed form in the sums of dot and cross products, the trigonometry eliminated |
| Alignment.ClosedFormIsBestIff | server/src/biometric/alignment.rs:75-99 | the returned transform is the least-squares optimum iff the variance is above the floor or the moments call for scale 1 |
| Alignment.TinyFaceIsMisfitted | server/src/biometric/alignment.rs:77-81 | for landmarks a ten-millionth apart and a target twice their size the result is not the optimum |
| Alignment.ExactImageIsRecovered | server/src/biometric/alignment.rs:43-99 | if the target points are an exact similarity image, that similarity is returned |
| Imaging.SampleStaysBetween | server/src/biometric/detection.rs:199-211 | a sampled channel lies between the least and greatest of its four pixels, so rounding and clamping stay inside |
| Imaging.SampleIsWeighted | server/src/biometric/detection.rs:190-211 | a sampled channel is the nearest integer to its four pixels weighted by the distances from the opposite corners |
| Imaging.ResizeBilinearRgb | server/src/biometric/detection.rs:187-215 | fills every position of the output with the bilinear sample at its source coordinate, reading inside the source only |
| Imaging.ResizedPixel | server/src/biometric/detection.rs:187-215 | every channel of pixel (dx, dy) of the result is the weighted sample where that pixel's centre falls in the source, held at the first row and column |
| Imaging.UniformStaysUniform | server/src/biometric/detection.rs:187-215 | a channel uniform in the source is uniform with the same value in the result |
| Imaging.ResizedStaysBetween | server/src/biometric/detection.rs:187-215 | every resized channel stays within the range of that channel in the source |
| Imaging.ResizeToSameSizeIsIdentity | server/src/biometric/detection.rs:187-215 | resizing to the same size returns the source |
| Imaging.InverseUndoes | server/src/biometric/alignment.rs:108-117 | with non-zero determinant the inverse coefficients undo the transform on both sides |
| Imaging.WarpToAligned | server/src/biometric/alignment.rs:103-131 | fills the 112×112 crop with the samples at the inverse image of each pixel, or leaves it black when the determinant is below the floor |
| Imaging.AlignedPixelShowsItsPreimage | server/src/biometric/alignment.rs:103-154 | a pixel of the crop shows the source point that the transform carries onto it, within the channel's range |
| Imaging.AlignedPixel | server/src/biometric/alignment.rs:103-154 | pixel (dx, dy) of the crop is the weighted sample at the source point carried onto it, or 0 when that point is not inside the last row and column |
| Imaging.DegenerateIsBlack | server/src/biometric/alignment.rs:108-111 | a determinant below 1e-12 in magnitude gives a black crop |
| Detection.IouIsSharedOverCovered | server/src/biometric/detection.rs:218-236 | the ratio is the common length in x times that in y over the area covered by either box, and 0 when nothing is covered |
| Detection.IouSymmetric | server/src/biometric/detection.rs:218-236 | the overlap ratio does not depend on the order of the boxes |
| Detection.IouIsShare | server/src/biometric/detection.rs:218-236 | for non-negative sides the ratio is in [0, 1], and 1 for a box of positive area against itself |
| Detection.IouScaleInvariant | server/src/biometric/detection.rs:218-236 | scaling x and y by independent positive factors leaves the ratio unchanged |
| Detection.NonMaxSuppression | server/src/biometric/detection.rs:239-250 | returns, in order, exactly the boxes of the one greedy selection |
| Detection.GreedyIsUnique | server/src/biometric/detection.rs:239-250 | only one selection keeps a box iff no earlier kept box overlaps it by the threshold |
| Detection.KeptArePairwiseBelow | server/src/biometric/detection.rs:239-250 | no two kept boxes overlap by the threshold or more |
| Detection.DroppedOverlapsKept | server/src/biometric/detection.rs:239-250 | every dropped box overlaps an earlier kept one by the threshold or more |
| Detection.KeepsAllIffPairwiseBelow | server/src/biometric/detection.rs:239-250 | nothing is dropped iff no pair overlaps |
| Detection.SuppressionIsIdempotent | server/src/biometric/detection.rs:239-250 | suppressing a second time changes nothing |
| Detection.SuppressionCommutesWithScaling | server/src/biometric/detection.rs:138-158 | the same boxes are selected before and after rescaling |
| Detection.StrongestAreTheBest | server/src/biometric/detection.rs:132-137 | suppression sees all candidates, or the 5000 best when there are more, best first; none left out scores above one kept |
| Detection.DetectTail | server/src/biometric/detection.rs:132-158 | returns the surviving boxes with every coordinate, landmarks included, carried from 640×640 to the image's size |
| Detection.DetectedFaces | server/src/biometric/detection.rs:132-158 | in image coordinates no two faces overlap by 0.3 and scores fall; every candidate, if at most 5000 or among the best 5000, is returned or overlapped by a returned face scoring no less |
| Embedding.CauchySchwarz | server/src/biometric/embedding.rs:77-79 | the squared dot product is at most the product of the squared norms |
| Embedding.CosineIsExact | server/src/biometric/embedding.rs:73-85 | the value is, and alone is, the dot product over the product of the norms, or 0 on unequal or no length or a norm at most 1e-12 |
| Embedding.DotWithUnit | server/src/biometric/embedding.rs:77 | every coordinate counts alike: against a unit vector the dot product is that coordinate |
| Embedding.ClampIsNoOp | server/src/biometric/embedding.rs:73-85 | above the norm floor the exact quotient already lies in [-1, 1] and is what is returned |
| Embedding.MultipleScoresOne | server/src/biometric/embedding.rs:73-85 | a positive multiple of a vector has similarity 1 to it |
| Embedding.CosineSymmetric | server/src/biometric/embedding.rs:73-85 | the similarity is symmetric for all inputs |
| Embedding.CosineScaleInvariant | server/src/biometric/embedding.rs:73-85 | positive scaling above the floor does not change it |
| Embedding.L2Normalize | server/src/biometric/embedding.rs:63-71 | afterwards each component times the norm is the old component, or the vector is untouched at or below the floor |
| Embedding.NormalizedHasUnitNorm | server/src/biometric/embedding.rs:63-71 | a normalised vector has norm one |
| Embedding.CosineOfNormalizedIsDot | server/src/biometric/embedding.rs:63-85 | after normalisation the similarity is the plain dot product and equals that of the originals |
| Ranking.RankAndTruncate | server/src/db/biometric.rs:406-419 | whatever the map's order, the result is a Top-K answer: min(k, n) distinct candidates, falling scores, nothing better omitted |
| Ranking.TopKAnswersAgree | server/src/db/biometric.rs:406-419 | two Top-K answers over the same scores have the same score sequence and differ only in ties at the last score |
| Templates.TopKMatches | server/src/db/biometric.rs:389-420 | returns a scan answer: a Top-K list of the best scores |
| Templates.ScanAnswerMeaning | server/src/db/biometric.rs:389-420 | a scan answer lists min(k, candidates) different candidates by falling score, each with the largest cosine of its templates' embeddings to the probe whatever the vector column holds, and no one left out has a template more similar |
| Templates.ScanFindsTheProbe | server/src/db/biometric.rs:389-446 | a candidate enrolled with a positive multiple of the probe scores 1, nothing scores more, and it is listed unless k others score 1 |
| Templates.SearchTopKIndexed | server/src/db/biometric.rs:453-487 | one nearest indexed template per candidate, an undefined distance last, ranked by one minus distance, an undefined score first, cut to k |
| Templates.IndexAnswerMeaning | server/src/db/biometric.rs:453-487 | every reported match is an indexed template of its candidate with the exact quotient, no smaller than the candidate's other defined scores, and undefined only if all of them are |
| Templates.ScoreAgreesIff | server/src/db/biometric.rs:464-467 | query and scan give an indexed row the same score iff both norms exceed the floor or the vectors are non-zero and orthogonal |
| Templates.IndexScoresIffCovered | server/src/db/biometric.rs:389-487 | where indexed rows score alike, index and scan see the same best scores iff every row without a vector is matched by an indexed row of its candidate that scores no less |
| Templates.CoveredAnswersAgree | server/src/db/biometric.rs:422-446 | when the index covers its missing rows, both paths give the same ranking for every k |
| TemplateStore.Store.InsertTemplate | server/src/db/biometric.rs:210-282 | which enrolments are stored, and then: one new active row with the enrolment's data, indexed only on a ready PostgreSQL at full dimension, found by exactly the searches for its model; earlier rows, unique ids and the index's faithfulness are kept |
| TemplateStore.MissingColumnRefusesIff | server/src/db/biometric.rs:228-256 | without the vector column PostgreSQL refuses exactly what it would otherwise store; every other outcome is unchanged |
| TemplateStore.NoFallbackWithoutColumn | server/src/db/biometric.rs:228-256 | an enrolment that asks for no vector fails without the column and succeeds with it |
| TemplateStore.Store.RevokeTemplate | server/src/db/biometric.rs:350-376 | revokes exactly the unrevoked row with the id, one row at most under unique ids, reports whether there was one, and no search finds the id afterwards |
| TemplateStore.RevokedIsNeverFound | server/src/db/biometric.rs:284-376 | a template once revoked is found by no search after any further run |
| TemplateStore.Store.SearchTopK | server/src/db/biometric.rs:428-446 | answers from the index only on a ready PostgreSQL with a full-dimension probe, from the scan otherwise |
| TemplateStore.RunGrows | server/src/db/biometric.rs:210-376 | in every run ids stay unique, no enrolment is lost or altered, and revocation is permanent |
| TemplateStore.RunKeepsIndexFaithful | server/src/db/biometric.rs:231-232 | in every run a stored vector is the row's own embedding at full dimension |
| TemplateStore.IndexAgreesWithScan | server/src/db/biometric.rs:389-487 | after any run of enrolments and revocations with the index ready and full-dimension embeddings above the norm floor, index and scan give the same ranking for every k |
| SearchStore.Store.FinalizeQueuedSearch | server/src/db/mod.rs:1404-1475 | all results and the completed status, or nothing; which of the outcomes occurs, and what it leaves, on either engine |
| SearchStore.InsertAll | server/src/db/mod.rs:1421-1455 | the insert loop succeeds iff no candidate repeats in the results or the search's rows |
| SearchStore.InsertableHas | server/src/db/mod.rs:1421-1424 | what is inserted is exactly each result with its score under its resolved candidate id, PostgreSQL skipping ids that are not UUIDs |
| SearchStore.FitsIffIndexHolds | server/src/db/mod.rs:544-549 | results fit iff the unique index still holds with them |
| SearchStore.TopKFillsFreshSearch | server/src/db/mod.rs:1404-1475 | a Top-K answer written to a search without results never violates the index and none of its entries is skipped |
| SearchStore.RepeatedResultDoesNotFit | server/src/db/mod.rs:544-549 | finalising again with any repeated candidate is refused |
| Review.FinalStatusHasTwoReviewers | server/src/db/mod.rs:1695-1728 | a finalised status is the last decision and the last two decisions have different reviewers; the first of them finalises iff it is not the literal status text |
| Review.FourEyesIff | server/src/db/mod.rs:1669-1695 | the four-eyes law holds of all logs over a vocabulary of decisions iff the vocabulary lacks the status text or every finalising decision |
| Review.OneReviewerNeverFinalizes | server/src/db/mod.rs:1671-1682 | decisions by one reviewer alone never lead to a finalised status |
| Review.StatusIsLastDecision | server/src/db/mod.rs:1718-1719 | without second review every log is accepted and the columns are those of its last decision |
| Review.StatusByParity | server/src/db/mod.rs:1718-1727 | with second review the status is read off the parity of the finalising decisions at the end of the log |
| ReviewTables.ReviewStore.RecordReviewDecision | server/src/db/mod.rs:1683-1820 | logs the decision and updates the columns together, or refuses; and what it then reports |
| ReviewTables.PermittedDecisionIsApplied | server/src/db/mod.rs:1695-1808 | a permitted decision on a known candidate adds one event with every field of the request, makes the columns the decision's or those of a waiting candidate, and is answered with the new row |
| ReviewTables.RunKeepsConsistent | server/src/db/mod.rs:1683-1820 | in every run, under either policy, each row's status and reviewer columns equal the replay of its log |
| ReviewTables.RunOnlyAppends | server/src/db/mod.rs:1659-1668 | the log only grows, each event carrying a request's decision and reviewer |
| ReviewTables.FourEyesInEveryRun | server/src/db/mod.rs:1671-1682 | with second review on, a confirmed or rejected candidate ends in two finalising decisions by different reviewers, the last one its status |
| ReviewTables.OneReviewerFinalizesNothing | server/src/db/mod.rs:1671-1682 | a run in which one reviewer acts finalises no candidate |
| ReviewTables.ForbiddenIff | server/src/db/mod.rs:1697-1723 | SameReviewerForbidden is answered iff the second review is on, the ids resolve, the requested candidate waits for it and its last reviewer sends a finalising decision; it changes nothing |
| ReviewTables.NotFoundLeavesATraceIff | server/src/db/mod.rs:1810-1819 | NotFound with a changed log happens iff the decision was accepted and the id was not canonical or the candidate's record is gone |
| ReviewTables.HiddenReview | server/src/db/mod.rs:1810-1819 | a decision sent under another spelling of a candidate id is committed and answered NotFound |
| Sessions.SessionStore.IssueSession | server/src/db/session.rs:66-117 | adds one row; until it expires the issued token, and of its family no token with another hash, renews the session of an active user; no other session changes |
| Sessions.SessionStore.Refresh | server/src/auth.rs:793-905 | succeeds exactly for the current token of a live, unexpired session of an active user; the session then lasts until the new expiry and only the new token renews it; a refusal revokes the session unless the user could not be read; no other session changes |
| Sessions.SessionStore.Logout | server/src/auth.rs:1118-1142 | afterwards no token of the shown token's family renews, whichever of its tokens was shown; under unique ids no other session changes |
| Sessions.SessionStore.RevokeSessions | server/src/db/session.rs:216-372 | no token of a selected session renews afterwards, earlier revocations keep their instant, other rows stay, and the answer says whether anything changed |
| Sessions.SessionStore.RevokeOwnSession | server/src/db/session.rs:333-372 | revokes the session with the id only when it is the user's, and says whether anything changed |
| Sessions.SessionStore.PurgeExpired | server/src/db/session.rs:384-415 | keeps exactly the sessions that have not expired |
| SessionRuns.LoginIsAcceptable | server/src/auth.rs:597-626 | a login creates a session of the user whose token is acceptable, with the given expiry |
| SessionRuns.UndisturbedRefresh | server/src/auth.rs:793-905 | a refresh whose statements are not interleaved with others is the refresh that runs alone |
| SessionRuns.RunKeepsConsistent | server/src/db/session.rs:180-265 | in every interleaving each row stores the hash of its family's newest token and counts the rotations, and requests in flight refer to the row of their family |
| SessionRuns.AcceptableInEveryRun | server/src/auth.rs:812-813 | in every run a token is acceptable iff its session is live and it is the token stored last, so one per family at most |
| SessionRuns.NeverAcceptableAgain | server/src/db/session.rs:180-214 | once a signed token is not acceptable no interleaving makes it acceptable again |
| SessionRuns.RevocationIsFinal | server/src/db/session.rs:180-265 | a revoked row never changes again and its family never comes back |
| SessionRuns.ReplayKillsFamily | server/src/auth.rs:805-826 | after a refresh with a superseded or revoked token, whatever is interleaved, no token of the family is ever acceptable |
| SessionRuns.LookupDecides | server/src/auth.rs:802-874 | under every interleaving a refresh answers with a token iff its own token was acceptable in the state of its lookup, unexpired, and its user active |
| SessionRuns.FinishSupersedes | server/src/auth.rs:864-874 | finishing a refresh leaves its token unacceptable for good, and on a live row sets the new expiry and makes the new token the only acceptable one |
| SessionRuns.LookedUpBeforeSucceeds | server/src/auth.rs:802-874 | a second refresh with the same token that looked up before the first finished succeeds, whatever is interleaved |
| SessionRuns.LookedUpAfterFails | server/src/auth.rs:802-826 | one that looks up after the first finished is refused, whatever is interleaved |
| SingleUse.AccountStore.ConsumeApprovalToken | server/src/auth.rs:305-333 | consumes an unused, unexpired link for the user it names, and nothing otherwise |
| SingleUse.AccountStore.PeekApprovalToken | server/src/auth.rs:338-360 | names the user exactly when consuming the link now would, and consumes nothing |
| SingleUse.AccountStore.ResetPassword | server/src/auth.rs:1057-1111 | consumes the token first; only when the account exists sets its password, leaves it no live session and touches nobody else's |
| SingleUse.AccountStore.PurgeExpiredRecords | server/src/db/session.rs:384-415 | keeps exactly the tokens and sessions that have not expired |
| SingleUseRuns.PassesIff | server/src/auth.rs:314-325 | a request passes the checks iff its token is found, unconsumed, unexpired, and names its user or is meant for a reset |
| SingleUseRuns.EachTokenIsGrantedOnce | server/src/db/session.rs:510-539 | in every interleaving each token is granted to one request at most, also after the purge, and a recorded result is that request's |
| SingleUseRuns.FirstWriterWins | server/src/auth.rs:317-331 | of all requests past their checks the first to write is granted the token, and whatever follows nobody else ever is |
| Mfa.MfaStore.BeginEnrollment | server/src/mfa.rs:258-280 | stores the new secret or emailed code as pending; refused for the email method without an address; nobody else's credential changes |
| Mfa.MfaStore.Disable | server/src/db/mfa.rs:447-474 | removes the credential and every recovery code of the user alone |
| Mfa.MfaStore.ReplaceRecoveryCodes | server/src/db/mfa.rs:478-518 | leaves exactly the new codes, all unused |
| Mfa.MfaStore.ConfirmEnrollment | server/src/mfa.rs:331-398 | enables the credential only for a right code, clears a used emailed code, replaces the recovery codes, after which logins are challenged by that method; every refusal changes nothing |
| Mfa.MfaStore.VerifyCode | server/src/mfa.rs:419-460 | accepts the primary code first, then an unused recovery code; what is accepted is used up and noted, the credential stays enabled, and a refused code changes nothing |
| Mfa.MfaStore.ResendEmailCode | server/src/mfa.rs:283-302 | for an email credential the new code, until it expires, becomes the only emailed code that matches; any other credential and user is left alone |
| Mfa.RestartKeepsLoginOutcomeIff | server/src/db/mfa.rs:184-270 | restarting enrolment leaves the login outcome alone iff no credential was enabled, and never leaves a challenge |
| MfaRuns.RestartSuspendsUntilConfirmed | server/src/mfa.rs:90-113 | from a restart until some confirmation, whatever is interleaved, logins of the account are not challenged |
| MfaRuns.UndisturbedConfirmation | server/src/mfa.rs:331-389 | the steps of a confirmation nobody disturbs enable the credential for a right code and change no credential for a wrong one |
| MfaRuns.SpendingIsCounted | server/src/db/mfa.rs:349-555 | a stored, unexpired code is accepted and counted as spent, any other is not |
| MfaRuns.RunKeepsSound | server/src/db/mfa.rs:191-555 | in every interleaving rows agree with what was checked and issued codes are conserved |
| MfaRuns.AnyRun | server/src/db/mfa.rs:191-555 | a TOTP row has no emailed code, an email row no secret, an enabled TOTP secret was checked, and no emailed or recovery code is accepted more often than it was issued |
| MfaRuns.CheckedMeansMatched | server/src/mfa.rs:367-384 | a secret counts as checked only if some step of the run matched a code against that very secret |
| MfaRuns.EnabledMeansMatched | server/src/mfa.rs:367-389 | in every run an enabled TOTP credential holds a secret that a code in the run was matched against |
| RateLimit.RateLimiter.Check | server/src/ratelimit.rs:34-54 | cleans up, opens or resets the key's window, and admits and counts, or refuses, the call |
| RateLimit.KeyRunHolds | server/src/ratelimit.rs:44-53 | after every run of calls on one key its windows and all intervals of a window's length are bounded |
| RateLimitRuns.RefusalIsEarned | server/src/ratelimit.rs:34-54 | in every run, whatever the limits and the cleanup, a refused call had its limit of admissions within its window |
| RateLimitRuns.OpenEntryDroppedIff | server/src/ratelimit.rs:38-43 | a call drops an open entry iff the map has more than 10,000 entries and the entry is older than the call's window |
| RateLimitRuns.SparedBySize | server/src/ratelimit.rs:38-43 | no open entry of a key is dropped while cleanup acts only for calls with windows no shorter than the key's |
| RateLimitRuns.SparedKeyIsAlone | server/src/ratelimit.rs:34-54 | a key none of whose open entries is dropped is served as by a limiter of its own that never cleans up |
| RateLimitCleanup.AloneIffSpared | server/src/ratelimit.rs:34-54 | a key is served as by a limiter of its own at every point of a run, however often it is called there, iff its limit is zero or no call drops its open entry |
| RateLimitRuns.AnyIntervalIsBounded | server/src/ratelimit.rs:34-54 | unless cleanup drops an open entry of the key, any interval as long as its window admits at most twice the limit less one |
| RateLimitRuns.OpenWindowIsBounded | server/src/ratelimit.rs:44-53 | likewise the open window has admitted exactly what its entry counts, at most the limit |
| RateLimitCleanup.ShorterWindowForgets | server/src/ratelimit.rs:38-43 | for any two window lengths a run from the empty map in which a key with limit one is admitted twice within its window |

## Left out

- IEEE 754 rounding, NaN and `f32` storage: all arithmetic is over exact reals, and scores are finite.
- Integer widths: `i32`, `i64`, `u32` and `usize` counters and sizes are unbounded, so no wrap-around is modelled.
- The vector query is exact: approximate HNSW search is not modelled.
- An undefined score is never written on SQLite, whose scan yields numbers only; binding one there is not modelled.
- JSON storage of embeddings is a faithful copy; a row whose JSON does not parse is not modelled.
- AuditWriters.AnyInterleavingVerifies: speaks of the rows as hashed; what PostgreSQL keeps of actor ids and metadata is in AuditStorage, where its two conversions are parameters.
- Organisation columns and the sequence number are outside the audit hash, so nothing is proved about edits to them.
- Truncating the end of the audit log is not detected, since the verifier does not read the stored tip; the prefix theorems say so.
- A call that names another limit for the same key, as none in the server does, is outside the interval bounds of the rate limiter.
- SHA-256, JWT, bcrypt, AES-GCM, HMAC and the TOTP algorithm: parameters with laws, or a token set that only signing extends.
- Timestamps other than the audit log's are integers; the SQLite text comparison of expiry times is not modelled.
- Audit events written by the session, review and second-factor requests, and HTTP, e-mail and metrics.
- SQLite's busy error is a rollback of the audit writer, without retry or timeout.
- Review.FourEyesIff: one policy setting for the whole log; a restart with the other setting in the middle is not modelled.
- ReviewTables.ReviewStore.RecordReviewDecision: the read-back after the commit is part of the same step, so another reviewer's write in between is not shown.
- MfaRuns.AnyRun: rate limits on guessing codes and the challenge token are not part of this model.
- Inference of the neural networks, decoding of the detector's grid, and the score threshold before sorting.
- Last-administrator guard, pagination, password rules, masking, OSINT providers, the circuit breaker and the web client: single-branch facts or network clients.
