# Verification of the AGOS flood-alert decision path

A Dafny 4.11 model of the backend's decisions, from a camera frame to the notes it sends: detection boxes,
coverage percentage, confidence tier, fused risk score, alert and recommendation machines, delivery rows,
escalation, responder sign-up, and the nightly and trend aggregations. `dafny verify dfyconfig.toml` checks all
of it.

| file | models |
|---|---|
| Common, Rounding (in Common.dfy) | options, lists, Python's `round` in exact arithmetic |
| Greedy, Detection | non-maximum suppression, overlap, letterbox and post-processing |
| Coverage | the sort-and-merge sweep, its percentage and per-frame status |
| Confidence, Throttle, MlService | rolling window and tiers, adaptive throttle, the service object that keeps both |
| FusionScoring | anomaly engine, circuit breakers, score, alert level |
| AlertState, AlertRuns | the per-location state object and its runs |
| Pipeline | the whole camera path, including the frame handler |
| Delivery, Escalation | one row per responder, bounded re-notification |
| Responders, ResponderTables | one-time passwords, activation, groups |
| Trend, Nightly | bucketing, downsampling, nightly extremes |
| Evacuation, Retention | the double-dispatch guard under interleaving, audit retention |

Conventions. Coverage, scores and clock readings in seconds are exact reals; database times are integer ticks.
Objects the backend changes in place are classes; each method is proved equal to a step function on values, and
the lemmas then speak about that function over all runs. Library effects are inputs: the order numpy's sort
delivers, the network's output, the outcome of each push or template send, the order of a query's result, and
`str.strip` / `str.casefold` as arbitrary functions.

## What the code does not promise

Some properties one would expect are false of the code. The model keeps the code and proves where the line runs.

- The image is resized to whole pixels (app/services/ml_service.py:208), but boxes are read back with the unrounded
  scale (:239-241). The round trip is the identity exactly if the scale leaves no fraction on either side, in integers
  one divisibility (`ExactFitDivides`); otherwise coordinates come back too small, by less than one canvas pixel
  (`LetterboxRoundTrip`), and a box on grey padding can cover a column (`PaddingCoversNothing`).
- A frame's inference may return before that of an earlier frame of the same camera (the await at
  app/services/ml_service.py:123). The window then holds readings in the order they were graded, and an alert need not
  rest on frames accepted in a row (`OvertakenEvidence`). It does as long as no frame overtakes (`InOrderExactly`,
  `InOrderEvidence`); in every interleaving it rests on K different accepted frames (`SustainedEvidence`).
- Rounding to hundredths moves the status limits: a frame is blocked from 59.995 % and not clear from 19.995 %
  (`StatusLimits`), while the comment at app/services/ml_service.py:24-26 says 60 and 20.
- `_apply_blind_camera_downgrade` suppresses nothing for a status without a confidence object, as loaded at
  start-up; in a step with BLIND_CAMERA a note is wanted exactly then (`BlindStepWants`,
  `HydratedStatusEscapesSuppression`), although app/core/state.py:192-193 says it is suppressed entirely.
- The downgrade lowers the tier but not the status: the handler's answer has a status that fits its tier exactly when
  the step flags no blind camera (`Pipeline.ProcessFrame`). Until the camera delivers again, each later step without
  BLIND_CAMERA counts the obstruction's full 30 points although no note goes out (`DowngradedStatusCountsAgain`), so
  lighter rain can turn a normal alert into a warning (`LighterRainRaisesAlert`).
- A rapid rise above 90 % with a clear camera and no rain scores 0: GHOST_FLOOD then always comes with
  OBSTRUCTED_SENSOR (`AnomalyCaps`). The score is monotone towards exactly the inputs without OBSTRUCTED_SENSOR,
  BLIND_CAMERA and STALE_SENSOR; a lone GHOST_FLOOD drops nothing (`ScoreMonotone`, example `BreakerDropsScore`).
- Alert levels are monotone in the score for exactly the thresholds of `AlertMonotone`; `tier_2_max + 1 >=
  tier_3_min` alone is not enough.
- One low score re-arms the evacuation recommendation at once: the cooldown holds between two recommendations exactly
  as long as no step between them scores below the limit (`RecommendationExact`, `DipRearmsRecommendation`).
- The timers start at zero, so a wanted note also waits until the monotonic clock reaches its cooldown
  (`SendRefinesHistory`).
- The escalation maximum bounds each delivery, not the responder: the rows a pass stores are critical deliveries
  with count zero, and runs of any length exist (`EscalationFeedsItself`, `NoBoundPerResponder`).
- A confirmation refused for an empty message has already armed the guard: refused is exactly what follows a guard
  pass of the same place and kind within 60 s, whatever became of it (`RefusedIffArmedBefore`,
  `EmptyMessageBlocksRetry`).
- The default group can never be updated, not even with its own name: `validate_group_name` rejects it first
  (`UpdateGroupKeeps`).
- The docstring at app/services/ml_service.py:45-46 still speaks of 2-of-3 smoothing; the code grades a window of
  `OBSTRUCTION_WINDOW_K` readings.

## Model

| member | source | states |
|---|---|---|
| Detection.Nms | app/services/ml_service.py:255-278 | the shrinking-order loop returns exactly the greedy list for the sort order it is given |
| Detection.NmsIsTheGreedySet | app/services/ml_service.py:255-278 | an index is kept iff no kept index before it overlaps it above the threshold; no other set has that property |
| Detection.NmsKeepsNoOverlap | app/services/ml_service.py:269-278 | kept indices are distinct, by falling score, and pairwise overlap at most the threshold in both directions |
| Detection.NmsDropsOnlyOverlapped | app/services/ml_service.py:264-278 | every dropped box has a kept suppressor of at least its score |
| Detection.NmsIdempotent | app/services/ml_service.py:255-278 | suppressing the kept boxes again, in any order, keeps them all |
| Detection.IoUInUnit | app/services/ml_service.py:269-276 | for well-ordered boxes the denominator is positive and 0 <= IoU < 1 |
| Detection.OverlapOfPoints | app/services/ml_service.py:269-277 | boxes that share a point have a common part made of exactly the shared points, and its area over that of the union plus 1e-9 decides suppression |
| Detection.ApartNeverSuppress | app/services/ml_service.py:269-277 | boxes without a common interior point never suppress each other |
| Detection.DroppedBoxOverlapsKept | app/services/ml_service.py:264-278 | every dropped box shares an interior point with a kept box of at least its score |
| Detection.SelfOverlap | app/services/ml_service.py:276-277 | a duplicate box is suppressed iff its area is large against the 1e-9 guard |
| Detection.LetterboxFits | app/services/ml_service.py:205-216 | the resized image fits the canvas, touches it in one dimension, and the paste stays inside, in the middle up to one pixel |
| Detection.LetterboxPositive | app/services/ml_service.py:207-208 | the target size is positive in both dimensions iff neither side is out of proportion |
| Detection.LetterboxRoundTrip | app/services/ml_service.py:205-241 | un-letterboxing gives every box of the image back iff resizing to whole pixels loses nothing; otherwise coordinates fall short by less than one canvas pixel |
| Detection.ExactFitDivides | app/services/ml_service.py:207-208 | resizing loses nothing iff the side that does not fill the canvas scales without remainder |
| Detection.ClipFacts | app/services/ml_service.py:243-245 | clipping puts both corners inside the image, keeps well-ordered boxes so, and is the identity exactly on boxes inside it |
| Detection.Postprocess | app/services/ml_service.py:222-253 | the detections are the masked, mapped, clipped rows that suppression keeps |
| Detection.EveryMaskedRowIsCandidate | app/services/ml_service.py:226-245 | each row at or above the threshold, and no other, becomes in its turn a candidate with its own confidence, centre and side lengths in units of the scale |
| Detection.CandidatesInside | app/services/ml_service.py:226-245 | mapped rows pass the confidence threshold and lie inside the image |
| Detection.CandidatesOrdered | app/services/ml_service.py:232-245 | rows of nonnegative size become well-ordered boxes |
| Coverage.MergeSpans | app/services/ml_service.py:297-302 | merged spans are non-empty, sorted, strictly separated, and cover the same columns |
| Coverage.SeparatedMeasure | app/services/ml_service.py:304 | the summed widths are the number of covered columns |
| Coverage.ComputeCoveragePct | app/services/ml_service.py:281-305 | the sweep returns the rounded share of pixel columns that some box with height covers |
| Coverage.SortedIsOrderedArrangement | app/services/ml_service.py:296 | the sorted spans are an ordered arrangement of the same multiset |
| Coverage.PctInRange | app/services/ml_service.py:304-305 | the percentage lies in [0, 100] |
| Coverage.PctNearShare | app/services/ml_service.py:291-305 | the percentage is within 0.005 of the exact share of columns that some box with height spans to their end |
| Coverage.CoverageOfTheSet | app/services/ml_service.py:281-305 | order and repetition of boxes do not matter |
| Coverage.CoverageMonotone | app/services/ml_service.py:281-313 | more boxes never lower the percentage or the status |
| Coverage.CoverageSubadditive | app/services/ml_service.py:281-304 | widths of two groups add up at most, with equality iff their columns are disjoint |
| Coverage.SuppressionLowersCoverage | app/services/ml_service.py:247-305 | suppression never raises the percentage or the status |
| Coverage.StatusLimits | app/services/ml_service.py:304-313 | the exact column counts from which a frame is blocked, and not clear |
| Coverage.PaddingCoversNothing | app/services/ml_service.py:212-245 | no detection wholly on grey padding covers a column, iff resizing to whole pixels loses nothing |
| Coverage.RunInference | app/services/ml_service.py:177-198 | a failed inference is a clear frame, a successful one the covered share of the kept detections |
| Confidence.WindowRefinesHistory | app/services/ml_service.py:335-340 | after any interleaving of cameras and changes of K each window is the newest part of that camera's own statuses |
| Confidence.WindowIsLastK | app/services/ml_service.py:335-340 | with constant K the window is the last min(n, K) statuses |
| Confidence.AlertingTierMeansEvidence | app/services/ml_service.py:348-375 | a tier past possible, and with it a blocked status, iff the window is full and its weighted sum reaches the lower limit |
| Confidence.TierFromCounts | app/services/ml_service.py:340-371 | each tier and its status from the counts of blocked and partial readings alone |
| Confidence.ScoreFromCounts | app/services/ml_service.py:340-360 | the score is the counted share times the covered share, capped at one and rounded to ten-thousandths |
| Confidence.ColdStart | app/services/ml_service.py:349-358 | before the window is full the tier is possible iff some reading is flagged, and the status never blocked |
| Confidence.DefaultEvidence | app/services/ml_service.py:342-358 | with the defaults of app/core/config.py:23-26 an alerting window has five readings, three flagged, one blocked |
| Confidence.PartialsNeverAlert | app/services/ml_service.py:343-358 | partial readings alone never pass possible, for exactly the settings whose partial weight is below both limits |
| Confidence.TierMonotone | app/services/ml_service.py:342-375 | a pointwise worse window never has a lower tier or a better status |
| Confidence.NoTierJump | app/services/ml_service.py:339-358 | in a full window one reading never skips the likely tier when the limits are one reading apart |
| Confidence.DefaultsNoTierJump | app/services/ml_service.py:339-358 | so it is with the defaults of app/core/config.py:23-26 |
| Confidence.ScoreInUnit | app/services/ml_service.py:360 | the confidence score lies in [0, 1] |
| Throttle.FastRefinesHistory | app/services/ml_service.py:60-75 | the fast interval applies iff this call, or one of the camera's calls less than 300 s earlier, saw an elevated alert |
| Throttle.IntervalRefinesHistory | app/services/ml_service.py:60-75 | the interval returned is the fast one exactly for such calls |
| Throttle.AcceptanceRefinesHistory | app/services/ml_service.py:113-121 | after a camera's last accepted frame the next is accepted iff it comes that interval less 5 s later |
| Throttle.FirstFrameAccepted | app/services/ml_service.py:115-116 | a camera's first frame is accepted |
| Throttle.AcceptedFramesSpaced | app/services/ml_service.py:113-121 | the k-th accepted frame after another comes k minimal gaps later, on any wall clock |
| Throttle.AcceptedFramesBounded | app/services/ml_service.py:113-121 | with the defaults accepted frames are 25 s apart and at most floor(T / 25) + 1 in T seconds |
| Throttle.RelaxedFramesSpaced | app/services/ml_service.py:72-119 | with nothing elevated for 300 s consecutive accepted frames are the slow interval less the slack apart |
| Throttle.LateFramesAccepted | app/services/ml_service.py:115-121 | first frames and late frames are always accepted |
| MlService.MLService.CaptureIntervalSeconds | app/services/ml_service.py:60-75 | interval and new deadline, also for frames that end up rejected |
| MlService.MLService.AdmitFrame | app/services/ml_service.py:113-121 | decision and both dictionaries after the throttle |
| MlService.MLService.ComputeConfidence | app/services/ml_service.py:326-366 | the pushed window and the grade of exactly that window |
| FusionScoring.CalculateFusionData | app/core/fusion_scoring.py:18-170 | score, alert level and anomaly list for every combination of present and missing sources |
| FusionScoring.AnomaliesExact | app/core/fusion_scoring.py:47-80 | the anomaly list holds each suspected anomaly once and nothing else |
| FusionScoring.AnomalySigns | app/core/fusion_scoring.py:18-80 | what each anomaly takes in plain numbers; those of clear sky and of heavy rain exclude each other, none without level and rain |
| FusionScoring.ScoreAddsLimits | app/core/fusion_scoring.py:82-131 | the score is the sum of the points of the limits reached, and a breaker takes out its whole source |
| FusionScoring.AlertByTier | app/core/fusion_scoring.py:36-149 | unavailable iff no source is present, warning and critical iff the score lies in their tier |
| FusionScoring.ScoreInRange | app/core/fusion_scoring.py:82-131 | the score lies in [0, 100], with 100 for exactly one combination |
| FusionScoring.AnomalyCaps | app/core/fusion_scoring.py:57-125 | any anomaly caps the score at 50, blind camera and ghost flood at 35, an obstructed sensor at 0 |
| FusionScoring.AnomalousBelowLimit | app/core/fusion_scoring.py:57-125 | suspect data stays below a score limit for exactly the limits above 50 |
| FusionScoring.ScoreMonotone | app/core/fusion_scoring.py:82-131 | no less alarming inputs, missing sources included, score higher iff neither OBSTRUCTED_SENSOR, BLIND_CAMERA nor STALE_SENSOR is suspected |
| FusionScoring.HighScoreNeedsLevel | app/core/fusion_scoring.py:82-131 | a score at the limit means a level of at least half the critical one and no tripped breaker, for exactly the limits above 60 |
| FusionScoring.BreakerDropsScore | app/core/fusion_scoring.py:59-61 | a concrete rise of the level that drops the score to 0 |
| FusionScoring.AlertMonotone | app/core/fusion_scoring.py:145-149 | the exact thresholds for which the alert level is monotone in the score |
| AlertState.FusionAnalysisState.CalculateVisualStatusScore | app/core/state.py:135-143 | the whole new state and what was sent, with the caller's confidence object shared |
| AlertState.FusionAnalysisState.BroadcastAndNotify | app/core/state.py:181-199 | the notify step in its order: alert note, downgrade, obstruction note, recommendation |
| AlertState.FusionAnalysisState.AutoNotify | app/core/state.py:286-324 | the timer is armed only by a delivered send after the cooldown |
| AlertState.FusionAnalysisState.ApplyBlindCameraDowngrade | app/core/state.py:236-245 | the shared tier falls to possible iff a blind camera is flagged and it was above |
| AlertState.FusionAnalysisState.MaybeEmitEvacuationRecommendation | app/core/state.py:201-234 | when a recommendation goes out and what each exit leaves behind |
| AlertRuns.SendsSpaced | app/core/state.py:286-324 | over any run two delivered notes of a kind are its cooldown apart, on any clock |
| AlertRuns.NotesApart | app/core/state.py:19-21 | in numbers: four hours between obstruction notes, half an hour between warnings and between critical notes |
| AlertRuns.FailedSendKeepsTimer | app/core/state.py:292-298 | a send that fails or raises leaves the timer unchanged |
| AlertRuns.SendRefinesHistory | app/core/state.py:286-324 | from the initial state a note goes out iff it is wanted, delivered, and a cooldown has passed since clock zero and since every earlier note of its kind |
| AlertRuns.NothingSentEarly | app/core/state.py:40-42 | no note while the monotonic clock is below the cooldown |
| AlertRuns.StepScoresNewest | app/core/state.py:135-179 | over any run a step scores exactly the newest reading of each source |
| AlertRuns.NotesByTier | app/core/state.py:181-191 | a warning is wanted iff the newest readings score in the second tier, a critical note iff in the third alone, and neither before the first reading |
| AlertRuns.RecommendationExact | app/core/state.py:201-234 | after a recommendation the next one comes iff the score reaches the limit, the send works, and the cooldown has passed or a step in between scored below the limit |
| AlertRuns.FirstRecommendation | app/core/state.py:201-234 | the first one waits only for score and send |
| AlertRuns.RecommendationsSpaced | app/core/state.py:201-234 | two recommendations are a cooldown apart unless a step between them scored below the limit |
| AlertRuns.DipRearmsRecommendation | app/core/state.py:209-211 | in every run, after a step below the limit the next recommendation does not wait for the cooldown |
| AlertRuns.AnomalyBlocksEvacuation | app/core/state.py:186-211 | with a third tier and a recommendation score above 50 (scripts/seed_db.py:58 has 76, the default is 70): a step that flags an anomaly is not Critical, sends no critical note, recommends nothing and clears the recommendation |
| AlertRuns.RecommendationRestsOnLevel | app/core/state.py:201-234 | with a recommendation score above 50 every recommendation has a last level reading, and above 60 that reading is at least half the critical level and no breaker trips |
| AlertRuns.BlindStepWants | app/core/state.py:192-252 | with a blind camera an obstruction note is wanted iff the status has no confidence |
| AlertRuns.ObstructionStep | app/core/state.py:236-252 | a note is wanted iff the confidence is likely or confirmed and no blind camera is flagged, or without confidence iff the status is blocked |
| AlertRuns.HydratedStatusEscapesSuppression | app/core/state.py:251-252 | such a note is wanted for a status loaded at start-up, and goes out if the send is delivered |
| AlertRuns.TierOnlyFalls | app/core/state.py:236-245 | without a new camera status the tier never rises |
| AlertRuns.DowngradeSticks | app/core/state.py:192-245 | after a blind camera no obstruction note until the camera delivers again, anomaly or not |
| AlertRuns.DowngradedStatusCountsAgain | app/core/state.py:236-245 | after a downgrade and without a new camera status each step counts 30 points for the obstruction iff it flags no blind camera, and sends no obstruction note |
| AlertRuns.LighterRainRaisesAlert | app/core/state.py:236-245 | such a run: normal under heavy rain, then warning with tier possible under lighter rain |
| Pipeline.InvariantHolds | app/services/ml_service.py:107-166 | accepting, grading and delivering frames in every interleaving: windows, pending statuses and fusion tier agree with the readings as graded, each of a different accepted frame |
| Pipeline.SustainedEvidence | app/core/state.py:192-252 | an obstruction note with a confidence rests on K readings of one camera graded in a row whose weighted sum reaches the limit, of K different accepted frames over at least K - 1 minimal gaps |
| Pipeline.SentNoteHasEvidence | app/core/state.py:192-196 | so it is when a step wants to send: the evidence is that of the reading it delivers, or of the one in force |
| Pipeline.DefaultSustainedEvidence | app/core/state.py:192-252 | with the defaults of app/core/config.py:17-26: five readings of the camera in force, three flagged and one blocked, of five frames over 100 s |
| Pipeline.ObstructionNoteExact | app/core/state.py:192-252 | from the delivery of a camera's n-th reading until the next status, a step wants an obstruction note iff the last K readings up to the n-th reach the lower limit and no step since has flagged a blind camera |
| Pipeline.PendingIsHistory | app/services/ml_service.py:123-126 | each grading produces one status, the i-th that of the i-th reading |
| Pipeline.InOrderExactly | app/services/ml_service.py:121-124 | readings are graded in the order of acceptance iff no frame is graded before an earlier one |
| Pipeline.InOrderEvidence | app/services/ml_service.py:121-124 | in that order the evidence is K frames accepted in a row, the first and last K - 1 minimal gaps apart |
| Pipeline.OvertakenEvidence | app/services/ml_service.py:121-124 | a run with an overtaking frame: an alerting tier although no five frames accepted in a row reach the limit |
| Pipeline.ProcessFrame | app/services/ml_service.py:107-166 | without another event in between the objects take exactly the system's steps for a frame, its grading and its delivery; the answer shares the confidence object, and its status fits its tier iff no blind camera is flagged |
| Delivery.SendToSubscribers | app/services/notification_service.py:30-117 | one exact row per distinct responder, and the gone subscriptions in order |
| Delivery.RowDetermined | app/services/notification_service.py:65-108 | outcomes in order determine each row |
| Delivery.SentIffReached | app/services/notification_service.py:65-108 | a row is SENT iff one of the responder's subscriptions was delivered to |
| Delivery.RowSays | app/services/notification_service.py:65-108 | time, reason and subscription of a row in terms of what was delivered and how the last attempt ended |
| Delivery.ReachedInAnyOrder | app/services/notification_service.py:60-108 | whom a dispatch reaches does not depend on the order of subscriptions |
| Delivery.NoDanglingReference | app/services/notification_service.py:76-111 | no row references a subscription the same dispatch removes |
| Escalation.EscalationJob.EscalationCheck | app/core/escalation.py:14-67 | one pass: new rows for the overdue responders, one count up for every overdue row, nothing on any early exit |
| Escalation.DistinctResponders | app/core/escalation.py:34-46 | each overdue responder exactly once |
| Escalation.UpsertKeepsCounts | app/crud/notification_delivery.py:15-39 | storing results again keeps count and acknowledgement and touches no other row |
| Escalation.StepCounts | app/crud/notification_delivery.py:96-136 | a pass counts up exactly the overdue rows below the maximum that are not acknowledged |
| Escalation.OneNewRowPerResponder | app/core/escalation.py:38-58 | a pass stores at most one row per responder, and only for overdue ones |
| Escalation.EscalationsBounded | app/core/escalation.py:25-62 | a delivery's count is the number of passes that escalated it, at most the maximum |
| Escalation.NeverAfterAcknowledgement | app/crud/notification_delivery.py:113-121 | an acknowledged delivery is never escalated again |
| Escalation.EscalationFeedsItself | app/core/escalation.py:48-58 | over any run, a pass's own row is selected by a later pass iff it was sent before the cutoff, was not acknowledged in between, and its count is below the maximum |
| Escalation.SelectedIffCriticalAndOverdue | app/crud/notification_delivery.py:96-122 | over any run a pass selects a stored row iff a critical notification or a pass stored it, it was sent before the cutoff, not acknowledged since, and its count is below the maximum |
| Escalation.AnnouncementsNeverEscalate | app/crud/notification_delivery.py:117 | rows of other notifications are never escalated |
| Escalation.EveryRowWasStored | app/core/escalation.py:48-58 | every delivery stems from such an event |
| Escalation.NoBoundPerResponder | app/core/escalation.py:25-62 | a run of n passes that each escalate the same responder, for every n |
| Responders.StepKeepsValid | app/services/responder/responder_app_service.py:170-257 | every operation keeps the invariant, attempts below the limit included |
| Responders.RunKeepsValid | app/services/responder/responder_app_service.py:170-257 | over every run of sign-up and group operations stored attempts stay below the limit, group names unique, and active responders the default group's members |
| Responders.ActiveIffInDefaultGroup | app/services/responder/responder_app_service.py:243-248 | after any run a responder is active iff it is in the default group |
| Responders.DefaultGroupProtected | app/services/responder_group/service.py:116-221 | the default group keeps id and name; only a successful verification changes it, by the responder it activates |
| Responders.DefaultGroupOverRun | app/services/responder_group/service.py:116-221 | between any two points of a run it keeps id, name and members and gains only responders verified in between |
| Responders.UpdateGroupKeeps | app/services/responder_group/service.py:109-171 | an update keeps the invariant, and one of the default group is always refused |
| Responders.BudgetStep | app/services/responder/responder_app_service.py:226-248 | without a new code each checked guess uses up budget, and success all of it |
| Responders.IssuedCodeAdmitsFewGuesses | app/services/responder/responder_app_service.py:170-257 | from one issued code to the next at most the limit of guesses is checked and at most one succeeds |
| Responders.VerifyAnswersExactly | app/services/responder/responder_app_service.py:201-257 | over any run a try is answered by the last issued code alone: its expiry, the code presented and the number of tries since, and it verifies iff it presents that live code in time |
| Responders.ActiveIffPresentedCode | app/services/responder/responder_app_service.py:226-248 | a responder is active, and in the default group, iff it once presented its live code in time |
| Responders.RegisteredIsHistory | app/services/responder/responder_app_service.py:192-198 | codes are issued to exactly the responders created before, and no responder is created twice |
| Responders.GroupReplies | app/services/responder_group/service.py:53-242 | which group operations go through, in terms of name, members and existing groups |
| Responders.GroupHoldsLastWrite | app/services/responder_group/service.py:53-206 | over any run a group has the name and exactly the members of its last creation or update |
| Responders.DeletedForGood | app/services/responder_group/service.py:208-242 | a deleted group never comes back |
| ResponderTables.Tables.VerifyOtp | app/services/responder/responder_app_service.py:201-257 | tables and answer of the flow, with the insert into the default group free of duplicates |
| ResponderTables.Tables.SendOtp | app/crud/responder_otp_verification.py:33-41 | a new code replaces the old record and its attempts |
| ResponderTables.Tables.EnsureExists | app/crud/responder_group.py:97-116 | the default group's id, created if missing |
| ResponderTables.Tables.UpdateWithMembers | app/crud/responder_group.py:46-86 | the group has exactly the wanted members and name; counts of added and removed |
| ResponderTables.Tables.CreateGroup | app/services/responder_group/service.py:53-107 | a new group under a free, unreserved name with existing members, or no change |
| ResponderTables.Tables.UpdateGroup | app/services/responder_group/service.py:109-206 | the renamed group with the wanted members, or no change and the reason |
| ResponderTables.Tables.DeleteGroup | app/services/responder_group/service.py:208-242 | the group is gone, or no change for a missing or reserved one |
| Trend.ProcessTrendData | app/services/sensor_reading/trend_service.py:38-71 | labels and levels have the predicted equal length, each level the rounded average of its bucket or 0 |
| Trend.ChartConserves | app/services/sensor_reading/trend_service.py:46-69 | over the chart bucket counts and sums equal those of the readings in the spanned interval, which contains start and end |
| Trend.AveragesConserve | app/services/sensor_reading/trend_service.py:53-69 | bucket averages times counts add up to the readings' total, exactly before rounding and within 0.005 per reading as shown |
| Trend.OneBucketPerReading | app/services/sensor_reading/trend_service.py:46-61 | each reading in range falls into exactly one visited bucket |
| Trend.Downsample | app/crud/sensor_reading.py:153-156 | exactly max_points rows of a longer series, the series itself otherwise, and the division error at 0 |
| Trend.SamplesIncrease | app/crud/sensor_reading.py:155-156 | sampled indices start at 0 and increase strictly |
| Trend.SampleAtShare | app/crud/sensor_reading.py:155-156 | the i-th sample is the row at the i-th share of the series, rounded down |
| Trend.SampleGap | app/crud/sensor_reading.py:155-156 | neighbouring samples are len / max_points apart, rounded down or up |
| Nightly.FindClosest | app/services/daily_summary/summary_generator.py:50-67 | the first nearest reading strictly inside the gap, None iff there is none |
| Nightly.Closest | app/services/daily_summary/summary_generator.py:60-67 | the nearest reading's defining property |
| Nightly.CalculateRiskScores | app/services/daily_summary/summary_generator.py:88-136 | bounds of all scores, each with the time of its first occurrence |
| Nightly.ExtremesUnique | app/services/daily_summary/summary_generator.py:98-126 | the four reported values are determined by the day |
| Nightly.ExtremesInRange | app/services/daily_summary/summary_generator.py:88-136 | reported scores lie in [0, 95]: from 10 up with level readings, at most 50 without |
| Nightly.LiveAgreesWithNightly | app/services/daily_summary/summary_generator.py:103-107 | the live score is the nightly one plus 5 if rising, iff neither OBSTRUCTED_SENSOR, BLIND_CAMERA nor STALE_SENSOR is suspected; otherwise it is lower |
| Nightly.NightlyIsLiveWithoutBreakers | app/services/daily_summary/summary_generator.py:88-136 | on days driven by any source a row's score is its live score iff no breaker trips, and otherwise higher; without levels none trips |
| Nightly.DriverTimes | app/services/daily_summary/summary_generator.py:88-136 | the rows that drive a day are all its level rows, else all camera rows, else all weather rows, at their own times |
| Evacuation.EvacuationService.GuardDoubleDispatch | app/services/evacuation_service.py:61-70 | refusal iff the last armed time is less than 60 s ago; a refusal does not extend the window |
| Evacuation.EvacuationService.BeginConfirm | app/services/evacuation_service.py:85-118 | the answer and the confirmation under way up to the first await |
| Evacuation.AuthorisationsSpaced | app/services/evacuation_service.py:61-70 | in every interleaving guard passes of one place and kind are 60 s apart |
| Evacuation.RefusedIffArmedBefore | app/services/evacuation_service.py:61-70 | in every interleaving a confirmation is refused iff an earlier one of its place and kind passed the guard less than 60 s before |
| Evacuation.RepliesExactly | app/services/evacuation_service.py:61-111 | the answer follows from the recent guard passes and then the message |
| Evacuation.EmptyMessageBlocksRetry | app/services/evacuation_service.py:91-111 | an empty message arms the guard against the corrected retry |
| Evacuation.EveryInterleaving | app/services/evacuation_service.py:115-196 | the audit rows are exactly one for each finished confirmation, and the public history is what was broadcast live minus the confirmations whose row is still to come |
| Evacuation.TasksAreAccepted | app/services/evacuation_service.py:85-118 | the confirmations under way or done are the accepted ones, in order and each once |
| Evacuation.OnlyAcceptedIsAnnounced | app/services/evacuation_service.py:93-196 | every alert broadcast or shown in the history carries the words, level and data of an accepted confirmation |
| Retention.AuditTable.Prune | app/crud/evacuation_event.py:61-96 | the surviving rows and the number deleted |
| Retention.PruneKeepsNewest | app/crud/evacuation_event.py:68-94 | of each location exactly the newest min(N, in-window) rows survive |
| Retention.SurvivesByCount | app/crud/evacuation_event.py:49-94 | with distinct times a row survives iff it is in the window and fewer than N of its location are newer; the history shows it iff fewer than the limit are |
| Retention.PruneDropsOldest | app/crud/evacuation_event.py:68-94 | no surviving row is older than a deleted in-window row of its location |
| Retention.PruneIdempotent | app/crud/evacuation_event.py:61-96 | pruning again deletes nothing, however ties are ordered |
| Retention.HistoryAfterPrune | app/services/evacuation_service.py:170-196 | for every limit the public history after a prune is the newest of the rows kept; up to N rows it is the one before minus what the window dropped |

## Left out

- ONNX inference, decoding, drawing, uploads, web push, SMS, Groq and weather HTTP: their results are inputs.
- HTTP endpoints, authentication, schemas, migrations, scripts and paginated listings: nothing hard to prove.
- Bit-level floating point: reals are exact, so limits that a float computation meets or misses by an ulp are not covered.
- The texts of triggered conditions, audit messages and chart labels; only anomalies, scores, levels and bucket starts are kept.
- Several locations and start-up loading: one location's state is followed, from any state whose status carries no confidence.
- Public pushes to citizen subscribers: only the stages of a confirmation are kept, not who received it.
- Overlapping notify steps of one location: app/core/state.py:140-143 notifies outside the lock and arms timers after an await, so spacing is stated for steps that do not overlap.
- Liveness of automatic template notes: app/services/notification_service.py:186-190 rejects every non-announcement template; that a send is ever delivered is an input, not a result.
- Concurrent OTP checks of one responder and the race inside `ensure_exists`: operations run one after the other.
- Crashes inside an escalation pass, between storing the rows and counting up: a pass is atomic.
- Agreement of the threshold and sensor caches with the database: not a property of the code.
- SortedIsOrderedArrangement: the library sort is modelled by an insertion sort on values; only its result matters to the sweep.
- Nms: the sort order is an input with the properties of a descending argsort, because numpy leaves the order of ties open.
- CalculateRiskScores: the source's three loops, which differ only in how a row is scored, are one loop over the driving rows.
- AutoNotify: the three `_auto_notify_*` methods are one method with the kind of note as parameter.
- Tables: bulk creation and the removal of expired codes are steps of `Responders.Step` without a method of their own.
- HistoryAfterPrune: stated for distinct creation times; with ties only the set of rows is determined.
- LetterboxPositive: what the imaging library does with an empty target size is not part of this model; any failure is an absent output of `RunInference`.
