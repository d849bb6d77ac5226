# A verified model of the DWN server's coordination logic

This project models the parts of the DWN server that keep state over time, and proves what every
run of them keeps:

* **the adaptive proof-of-work manager**: a feedback controller over unbounded integers, a
  one-minute replay cache that also measures the solve rate, a rotating window of challenge nonces
  (random, or derived from a seed that the nodes of a cluster share), and a 64-digit hexadecimal
  printer;
* **tenant registration and the tenant gate**, as a protocol on top of it: an atomic admission step
  and a database upsert that lands later, in any order;
* **the Web5 Connect request/response exchange** over a cache with a time to live, whose database
  operations are issued without being waited for (the shape of section 2.2 of RFC 9126, with the
  one-time use advised in its section 4);
* **WebSocket subscriptions** (check, await, act), connections and their heartbeat (sections 5.5.2
  and 5.5.3 of RFC 6455);
* **the building of nested query options from dotted parameter names**, by descent and assignment
  in place.

`dafny verify dfyconfig.toml` verifies everything.

## How it is put together

Classes whose methods change fields are Dafny classes with those fields. Each method is proved
against a function of the old state, and whole runs are sequences of events over the same
functions. For the proof-of-work manager, the cache, the connect server and the heartbeat, `Perform`
methods carry out one event on the object and show that it goes through exactly the states of the
run, so what is proved of runs holds of these objects. Registration and subscriptions interleave at
awaits, which methods that run to completion do not show: there the objects are tied to the runs for
uninterrupted requests and messages (`PerformRequest`, `PerformTerms`, and `CompletedSubscribe` and
`CompletedClose` beside the contracts of the two handlers), and the interleavings are a matter of the
runs alone.

| modules | content |
|---|---|
| `Wrappers`, `BigInt`, `JsMap` | options and results; bigint division (truncating) and floors of quotients; insertion-ordered maps |
| `Difficulty`, `DifficultyRange`, `DifficultyConvergence`, `DifficultyBounce` | the controller: its range, its convergence under load, what an overload does with a large multiplier |
| `DifficultyRecovery`, `DifficultyReturn` | its way back after a hardening, and which configurations always come back |
| `Hex`, `ProofOfWork` | hexadecimal text; hashing, the server's verification, the client's search |
| `PowState`, `ProofOfWorkManager`, `ManagerRuns`, `SpacedEvaluations`, `ManagerAlone`, `Cluster` | the manager's state and operations; the object; whole runs; the difficulty's range on managers whose evaluations are a period apart; a manager left alone; nodes that share a seed |
| `RegistrationManager`, `RegistrationRuns` | store, manager and gate; interleaved runs |
| `TtlCache`, `TtlCacheRuns` | the cache; what callers can see of its cleanups |
| `Web5Connect`, `Web5ConnectOnce`, `Web5ConnectUses`, `Web5ConnectReset` | the un-awaited exchange; the life of a key set once; how often it can be retrieved; setting a key again |
| `SubscriptionRuns`, `SubscriptionLosses` | interleaved subscription handlers; exactly when a subscription can be lost |
| `SocketConnection`, `ConnectionManager`, `Heartbeat` | the objects; the heartbeat |
| `DottedPaths`, `Unflatten`, `UnflattenRoundTrip` | splitting and joining; the in-place build; what the result is worth |

## Where the code does not do what its comments say

Each of these is a theorem: the exact condition under which the promise holds, and what happens
otherwise. E is the number of evaluations per minute, M the whole part of the multiplier and I the
initial value.

* "The difficulty will never be lower than the initial difficulty" (proof-of-work-manager.ts:234)
  holds of a manager whose evaluations come at the pace it is configured with if and only if M <= 2E,
  for every I above 2(E - 1). Otherwise an ordinary overload breaks it: two evaluations that both see
  twice the desired number of solutions take the value through zero and beyond I. With E = 2 and M = 6
  twenty proofs take it from 1000 to -1751 to 3067. The one exception is a gap of more than 60,000 ms,
  which E = 1 has as soon as a timer is a millisecond late: below zero no proof is accepted, so the
  next evaluation finds an empty cache and eases (`ManagerNeverEasierUnderLoad`,
  `ManagerNeverEasierAtItsPeriod`, `BounceOnManager`; `ManagerNeverEasierIff` for every I).
* "Scale 1 (hardest)" (proof-of-work-manager.ts:230): a manager keeps the value at 1 or more if and
  only if I >= 1 and M < E, and at 0 or more if and only if I * (M - E) < E, which above 2(E - 1) is
  M <= E; the same overload is enough where M > E (`ManagerNeverZeroIff`, `ManagerNeverNegativeIff`).
  A negative value prints as text that is not hexadecimal.
* "Back to initial difficulty in minutes" (proof-of-work-manager.ts:276): in damped configurations the
  value comes back after every run, once the load stays away, if and only if the smallest hardening of
  I leaves a gap of at least 10E, or I * M < E (`AlwaysComesBackIff`). With the server's own settings,
  10 solutions a minute, M = 1 and E = 6, that is I >= 3950 or I < 6 (`ServerComesBackIff`), so with
  its own initial value it always does. A smaller gap rounds to a step of 0 and stays: with E = 1,
  eleven solutions take 20 to 18 for good (`StuckExample`).
* "The request ID can only be used once" (web5-connect-server.ts:83): at any point of any run an
  object can be handed out once more if and only if its 600 seconds are not over and its row is in
  the table or with a caller not yet resumed (`RetrievedAgainIff`). So two polls in flight at once
  both retrieve it (`SecondUseIsReachable`); it is used once when operations complete in the order in
  which they were issued, no delete fails, and each poll waits for the one before (`InTurnMeansOnce`).
* "Only delete if the object exists" (web5-connect-server.ts:113-115) does not protect a response
  whose `state` is set a second time. Setting it is safe if and only if the row of the first object is
  gone, no insert or delete of it is under way, and no caller holds it (`SafeToSetIff`); two
  overlapping polls are enough to lose the second object unread (`StaleDeleteHitsNewObject`).
* A subscription that the DWN opened can be lost while still open: by a rejected duplicate add, by a
  delete that finishes after its id was registered again, or by being registered on a connection that
  has been closed. `CanLoseIff` says exactly in which states what is already under way can do so,
  `LateRegistrationIsReachable`, `DuplicateIsReachable` and `SweepIsReachable` are runs that do,
  `OrderlyIffNothingCanBeLost` says which messages lead into such states, and `CloseLeavesNothingOpenIff`
  when closing the connection leaves nothing open for good.
* A query parameter whose name continues another one's with a dot is lost or makes the build throw,
  depending on the order (`RoundTripIffPrefixFree`, `OrderMattersOtherwise`).
* The repository's README.md:334 speaks of challenges that expire after 5 minutes and of a
  complexity that follows the last hour. The code refreshes challenges every 10 minutes, accepts the
  previous one too, and looks at the last minute; the model follows the code.

* A server with a store and no terms file admits requests that carry no hash either, because undefined
  equals undefined, and then never lets their tenants in (`WithoutTermsTheGateStaysShut`).

## Assumptions

* The digest is a parameter: any function from text to 64 hexadecimal digits. Where a result needs
  that it does not collide, it says so and for which few texts.
* Random nonces, request identifiers, clock readings and the DWN's answers are inputs. Clock readings
  never decrease along a run.
* E is a whole number of at least 1, as the code assumes; desired solve counts are positive and
  multipliers at least 1. Solve rates are exact reals.
* `verifyProofOfWork` contains no await, so its checks and the recording are one step.

## Model

| member | source | states |
|---|---|---|
| SpacedEvaluations.ManagerNeverEasierUnderLoad | src/registration/proof-of-work-manager.ts:228-291 | for I above 2(E - 1), over all runs of a manager with evaluations at least `gap` ms apart, the value never exceeds the initial one ("never lower than the initial difficulty") if and only if M <= 2E or the gap exceeds 60,000 ms; for the failing half it takes no more than twice the desired number of solved puzzles, under whatever digest |
| SpacedEvaluations.ManagerNeverEasierIff | src/registration/proof-of-work-manager.ts:228-291 | for every I the condition is that the configuration is contained or the gap exceeds 60,000 ms; only where I is at most 2(E - 1) does the failing half take a flood |
| SpacedEvaluations.ManagerNeverEasierAtItsPeriod | src/registration/proof-of-work-manager.ts:189-291 | at the pace of 60,000 / E ms that the configuration sets, M <= 2E is the exact condition |
| SpacedEvaluations.ManagerNeverNegativeIff | src/registration/proof-of-work-manager.ts:236-291 | over all runs of such a manager the value is never negative if and only if I * (M - E) < E, whatever the gap, which for I above 2(E - 1) is M <= E; twice the desired number of solutions is enough for the failing half there |
| SpacedEvaluations.ManagerNeverZeroIff | src/registration/proof-of-work-manager.ts:230-291 | and at least 1, the documented hardest one, if and only if I >= 1 and M < E; a flood is needed only for M = E and for I at most 2(E - 1) |
| SpacedEvaluations.SlowRuns | src/registration/proof-of-work-manager.ts:165-291 | with evaluations more than a minute apart no run of any configuration exceeds the initial value, because a negative threshold accepts nothing |
| SpacedEvaluations.BouncesAbove | src/registration/proof-of-work-manager.ts:118-291 | in every uncontained configuration, whenever it is started, a manager that accepts the load before its second evaluation still has it in the cache at the third, and ends above the initial value |
| SpacedEvaluations.BounceOnManager | src/registration/proof-of-work-manager.ts:118-291 | a manager run of 20 accepted proofs and evaluations exactly 30 seconds apart that ends at 3067 after starting at 1000, under any digest with 20 such proofs |
| SpacedEvaluations.ZeroDigestSolves | src/registration/proof-of-work.ts:36-51 | there are digests under which any number of nonces up to 16^64 solve any challenge |
| DifficultyRange.NeverEasierIffContained | src/registration/proof-of-work-manager.ts:248-291 | the controller on its own, for arbitrary solve counts: it never exceeds the initial value if and only if M <= E or the overshoot of the overshoot of I stays within I |
| DifficultyRange.NeverNegativeIffDamped | src/registration/proof-of-work-manager.ts:248-263 | the controller on its own is never negative if and only if I * (M - E) < E |
| DifficultyRange.NeverZeroIff | src/registration/proof-of-work-manager.ts:230-263 | the controller on its own is at least 1 if and only if I >= 1 and M < E |
| DifficultyRange.ModerateMultiplierIsContained | src/registration/proof-of-work-manager.ts:234-263 | M <= 2E is enough for "never easier than initial", whatever I is |
| DifficultyBounce.DoubledFlip | src/registration/proof-of-work-manager.ts:248-263 | one evaluation at twice the desired rate takes a value above 2(E - 1) below zero if M > E, and further below than it was above if M > 2E |
| DifficultyBounce.DoubledTwice | src/registration/proof-of-work-manager.ts:248-263 | two such evaluations in a row end above the initial value if M > 2E |
| DifficultyBounce.HardenIsOdd | src/registration/proof-of-work-manager.ts:251-263 | with truncating division, hardening the negated value negates the hardened one |
| DifficultyBounce.ContainedIffModerate | src/registration/proof-of-work-manager.ts:248-263 | for I above 2(E - 1) the range condition is M <= 2E |
| DifficultyBounce.DampedIffSmall | src/registration/proof-of-work-manager.ts:248-263 | and damped means M <= E |
| DifficultyBounce.BounceExample | src/registration/proof-of-work-manager.ts:248-263 | the numbers of the run above: 1000 to -1751 to 3067 |
| DifficultyRange.TwoFloods | src/registration/proof-of-work-manager.ts:248-263 | in every uncontained configuration two floods in a row end above the initial value, by the overshoot of the overshoot |
| DifficultyRange.DampedRunsStayInRange | src/registration/proof-of-work-manager.ts:236-291 | any mixed run from any value in [0, I] stays in [0, I] in a damped configuration |
| DifficultyRange.ContainedRuns | src/registration/proof-of-work-manager.ts:236-291 | any run in a contained configuration stays between minus the overshoot of I (0 if damped) and I |
| DifficultyRange.HardenFromAbove | src/registration/proof-of-work-manager.ts:248-263 | one hardening of a non-negative value goes down, by no more than the overshoot below zero |
| DifficultyRange.HardenFromBelow | src/registration/proof-of-work-manager.ts:248-263 | one hardening of a negative value goes up, by no more than the overshoot of its magnitude (truncating division) |
| Difficulty.HardenExactly | src/registration/proof-of-work-manager.ts:248-263 | for any count above the desired one and the one whole number k with k * desired <= count * multiplier * 1,000,000 < (k + 1) * desired, the new value is current - (current - current * 1,000,000 / k) * M / E, all divisions truncating (and rounding down on non-negative values) |
| Difficulty.ScaledRateExactly | src/registration/proof-of-work-manager.ts:250-256 | that number exists and is unique: it is the scaled rate |
| BigInt.DivTruncates | src/registration/proof-of-work-manager.ts:254-263 | for a positive divisor the quotient is the whole number next to the exact one on the side of zero |
| DifficultyConvergence.FallsExactlyWhen | src/registration/proof-of-work-manager.ts:248-263 | the value strictly falls if and only if the multiplied drop is at least E |
| DifficultyConvergence.DoubledStep | src/registration/proof-of-work-manager.ts:248-263 | one evaluation at double rate keeps at most (2E-1)/2E of the distance to 2(E-1), and lowers any larger value |
| DifficultyConvergence.HardensGeometrically | src/registration/proof-of-work-manager.ts:248-263 | after t evaluations at double rate (2E)^t * (C - 2(E-1)) <= (2E-1)^t * (C0 - 2(E-1)) |
| DifficultyConvergence.ReachesFloorGeometrically | src/registration/proof-of-work-manager.ts:248-263 | once that bound is below one unit the value is at or below 2(E-1) |
| DifficultyConvergence.FallsToFloor | src/registration/proof-of-work-manager.ts:248-263 | under sustained double rate the value falls at every evaluation until it is at or below 2(E-1), and never rises above it again |
| DifficultyConvergence.HardenKeepsOrderIffDamped | src/registration/proof-of-work-manager.ts:248-263 | hardening is monotone on the values from 0 to I, through all floor divisions, if and only if the configuration is damped |
| DifficultyConvergence.SmallMultiplierKeepsOrder | src/registration/proof-of-work-manager.ts:248-263 | for M <= E it is monotone on all non-negative values |
| DifficultyConvergence.HardenAntitoneInCount | src/registration/proof-of-work-manager.ts:248-263 | more solutions never leave an easier puzzle |
| DifficultyConvergence.LoadKeepsOrder | src/registration/proof-of-work-manager.ts:248-263 | two controllers under load in a damped configuration keep their order over whole runs, and neither value rises |
| DifficultyRecovery.EasedValue | src/registration/proof-of-work-manager.ts:267-290 | after a hardening to `base`, n quiet evaluations leave min(I, base + n * floor((I - base) / 10E)) |
| DifficultyRecovery.AfterLastHardening | src/registration/proof-of-work-manager.ts:248-290 | the same closed form after any run that ends in a hardening, in a contained configuration |
| DifficultyRecovery.QuietFromStart | src/registration/proof-of-work-manager.ts:270-273 | before any hardening nothing changes, the initial increment of 1 included |
| DifficultyRecovery.RecoversExactlyAt | src/registration/proof-of-work-manager.ts:267-290 | for a gap of at least 10E the value is back at I exactly from ceil(gap / floor(gap / 10E)) quiet evaluations on |
| DifficultyRecovery.RecoveryTimeBounds | src/registration/proof-of-work-manager.ts:276-280 | that is never fewer than 10E evaluations, the intended ten minutes, and at most 10E + 1 once the step is at least 10E - 1 |
| DifficultyReturn.AlwaysComesBackIff | src/registration/proof-of-work-manager.ts:267-290 | in damped configurations, after every run some quiet stretch brings the value back to I if and only if the smallest hardening of I, by floor(desired) + 1 solutions, leaves a gap of at least 10E, or I * M < E |
| DifficultyReturn.ServerComesBackIff | src/registration/registration-manager.ts:72-77 | with the server's settings that is I >= 3950 or I < 6 |
| DifficultyReturn.StuckExample | src/registration/proof-of-work-manager.ts:275-290 | a run from the start that leaves 18 of 20 and never comes back |
| DifficultyReturn.GapShrinks | src/registration/proof-of-work-manager.ts:267-290 | how other configurations get stuck: hardened almost home, again and again, the gap falls below 10E |
| ManagerAlone.LeftAloneMeasuresNothing | src/registration/proof-of-work-manager.ts:199-240 | after the last acceptance at t, evaluations past t + 60,000 measure 0 on every manager, and its difficulty goes through the controller's silence |
| ManagerAlone.LeftAloneRecoversExactlyAt | src/registration/proof-of-work-manager.ts:199-290 | from a hardening on, a manager left alone is back at I exactly from the recovery time on, in evaluations |
| ManagerAlone.LeftAloneComesBack | src/registration/proof-of-work-manager.ts:199-290 | under the condition above every reachable manager left alone is back from some number of evaluations on |
| DifficultyRecovery.RecoversIffGapFillsSpan | src/registration/proof-of-work-manager.ts:275-290 | from a value just hardened, some quiet run brings I back if and only if the gap is 0 or at least 10E |
| DifficultyRecovery.EasingSwapsOrder | src/registration/proof-of-work-manager.ts:267-290 | easing, unlike hardening, can make the harder of two controllers the easier one |
| Hex.BigIntToHexString | src/registration/proof-of-work-manager.ts:309-316 | the padding loop ends with the digits behind as many zeros as are missing to 64 |
| Hex.PrintThenParse | src/registration/proof-of-work-manager.ts:301-316 | for every non-negative value the text is hexadecimal and parses back to it; it has 64 digits if and only if the value is below 16^64 |
| Hex.PrintIsHexIffNonNegative | src/registration/proof-of-work-manager.ts:301-316 | a printed value is hexadecimal text if and only if it is not negative |
| Hex.ParseThenPrint | src/registration/proof-of-work-manager.ts:309-316 | every 64-digit upper-case text is what its value prints as |
| Hex.ParseInjective | src/registration/proof-of-work.ts:43-66 | upper-case texts of one length with one value are equal |
| Hex.DigitsLength | src/registration/proof-of-work-manager.ts:310-312 | a value has at most k digits if and only if it is below 16^k |
| Hex.DigitValues | src/registration/proof-of-work-manager.ts:301-312 | the i-th of 0123456789abcdef and of 0123456789ABCDEF both have value i, and the upper-case one is printed for it |
| Hex.OnlyDigits | src/registration/proof-of-work-manager.ts:301-303 | no other character is a hexadecimal digit |
| Hex.ParsePlaces | src/registration/proof-of-work.ts:43-66 | a text followed by another stands for the first value times 16 to the length of the second, plus the second value, so with the single digits every text has its positional value |
| Hex.ParseIgnoresCase | src/registration/proof-of-work.ts:43-66 | texts with the same digits in different case have one value |
| ProofOfWork.HashAsHexString | src/registration/proof-of-work.ts:24-31 | hashing item by item is hashing the concatenation |
| ProofOfWork.ConcatSplits | src/registration/proof-of-work.ts:24-31 | the items of two lists, one list after the other, are the two texts, one after the other |
| ProofOfWork.ComputeHash | src/registration/proof-of-work.ts:12-19 | the hash is the digest of challenge nonce + response nonce + request data, and its value lies below 2^256 |
| ProofOfWork.VerifyResponseNonce | src/registration/proof-of-work.ts:36-51 | sufficient if and only if the value of the digest of challenge nonce + response nonce + request data is at most the maximum |
| ProofOfWork.FindQualifiedResponseNonce | src/registration/proof-of-work.ts:58-91 | returns the first drawn nonce that qualifies; the digest of challenge nonce + nonce + request data is at most the maximum, and if any drawn nonce has such a digest one is found |
| ProofOfWork.HashInputDecodes | src/registration/proof-of-work.ts:17-18 | with both nonces 64 characters long, equal hash inputs are equal proofs |
| ProofOfWork.LengthCheckNeeded | src/registration/proof-of-work-manager.ts:147-153 | without the length requirement every solved puzzle is solved again under every shorter nonce, for every challenge |
| PowState.SinceMembers | src/registration/proof-of-work-manager.ts:199-206 | cleaning keeps exactly the entries not older than the cutoff |
| PowState.SinceSince | src/registration/proof-of-work-manager.ts:199-206 | cleaning twice is cleaning once at the later cutoff |
| PowState.SinceCounts | src/registration/proof-of-work-manager.ts:199-240 | the number kept is the number of recent positions |
| ProofOfWorkManager.ProofOfWorkManager.constructor | src/registration/proof-of-work-manager.ts:55-73 | a new manager is at the initial value with an increment of 1, an empty cache and one nonce |
| ProofOfWorkManager.ProofOfWorkManager.GetProofOfWorkChallenge | src/registration/proof-of-work-manager.ts:123-128 | the challenge has the current nonce and, for a non-negative threshold, text that parses back to it |
| ProofOfWorkManager.ProofOfWorkManager.VerifyProofOfWork | src/registration/proof-of-work-manager.ts:133-169 | each of the four refusals and the acceptance, each if and only if: the nonce is in the cache; it is not 64 hexadecimal digits; the challenge is empty or not in the window; the digest of challenge + nonce + data is above the threshold; none of these, the earlier ones being false each time; exactly an acceptance is recorded |
| ProofOfWorkManager.ProofOfWorkManager.AcceptableChallengeNonces | src/registration/proof-of-work-manager.ts:155-157 | exactly the defined, non-empty nonces of the window |
| ProofOfWorkManager.ProofOfWorkManager.RecordProofOfWork | src/registration/proof-of-work-manager.ts:175-177 | sets the clock reading of the nonce and keeps all other entries in place |
| ProofOfWorkManager.ProofOfWorkManager.RemoveProofOfWorkOlderThanOneMinute | src/registration/proof-of-work-manager.ts:199-206 | deleting while walking over the live keys skips nothing: exactly the entries of the last 60,000 ms remain, in order |
| ProofOfWorkManager.CleanupStep | src/registration/proof-of-work-manager.ts:201-205 | when the entry under the cursor is deleted the cursor is on the next one |
| ProofOfWorkManager.ProofOfWorkManager.RefreshChallengeNonce | src/registration/proof-of-work-manager.ts:208-226 | with a seed the three nonces are the digests of seed + i + seed for i the interval id of the clock reading, the one before and the one after; without one the window shifts by the drawn nonce |
| ProofOfWorkManager.ProofOfWorkManager.NonceOfInterval | src/registration/proof-of-work-manager.ts:215-217 | the digest of seed + decimal interval id + seed |
| ProofOfWorkManager.ProofOfWorkManager.RefreshMaximumAllowedHashValue | src/registration/proof-of-work-manager.ts:236-291 | keeps exactly the entries of the last 60,000 ms, then hardens if their number exceeds the desired one and eases otherwise; nothing else changes |
| ProofOfWorkManager.ProofOfWorkManager.MakeHarder | src/registration/proof-of-work-manager.ts:248-266 | for the one k with k * desired <= count * multiplier * 1,000,000 < (k + 1) * desired, the new value is current - (current - current * 1,000,000 / k) * M / E; the increment is forgotten |
| ProofOfWorkManager.ProofOfWorkManager.MakeEasier | src/registration/proof-of-work-manager.ts:267-290 | at I nothing changes; otherwise the value comes closer to I by the increment but not past it, and the increment is computed as (I - current) / 10E only when it was forgotten |
| ProofOfWorkManager.ProofOfWorkManager.StartTimers | src/registration/proof-of-work-manager.ts:118-121 | starting refreshes the nonces and then evaluates the difficulty, at once |
| ManagerRuns.Perform | src/registration/proof-of-work-manager.ts:133-291 | every event on the manager object takes it to the next state of the run |
| ManagerRuns.ReplaySafety | src/registration/proof-of-work-manager.ts:140-206 | over all interleavings, two acceptances of one response nonce are more than 60,000 ms apart |
| ManagerRuns.ReplayWindowIsExact | src/registration/proof-of-work-manager.ts:199-206 | an accepted nonce is still refused after an evaluation at u if and only if u is at most 60,000 ms after its last acceptance |
| ManagerRuns.LoggedNoncesAreHex | src/registration/proof-of-work-manager.ts:140-169 | over all runs every response nonce ever recorded is 64 hexadecimal digits |
| ManagerRuns.MeasuredRateIsExact | src/registration/proof-of-work-manager.ts:236-240 | right after the cleanup at u the cache is as large as the number of acceptances since u - 60,000, and the controller acts on that number |
| ManagerRuns.DifficultyStaysInRange | src/registration/proof-of-work-manager.ts:228-291 | over whole manager runs the difficulty is the controller's on the true counts, within the ranges above |
| ManagerRuns.IssuedThresholdIsExact | src/registration/proof-of-work-manager.ts:123-128 | with I < 2^256 and a damped configuration every challenge states the real threshold in 64 digits |
| ManagerRuns.WindowNoncesAreFull | src/registration/proof-of-work-manager.ts:155-226 | every acceptable challenge nonce, seeded or not, has 64 characters |
| ManagerRuns.AcceptableAreLastTwo | src/registration/proof-of-work-manager.ts:155-226 | without a seed the acceptable nonces are always exactly the last two generated |
| ManagerRuns.ChallengeLifetime | src/registration/proof-of-work-manager.ts:208-226 | without a seed and without repeated draws, an issued challenge is acceptable if and only if at most one refresh followed |
| ManagerRuns.IssuedSurvivesOneRefresh | src/registration/proof-of-work-manager.ts:208-226 | it survives one refresh even if draws repeat |
| ManagerRuns.FoundNonceIsAccepted | src/registration/proof-of-work.ts:58-91 | a nonce found for the printed challenge is accepted wherever the challenge is in the window, the nonce is not cached and the threshold has not fallen |
| ManagerRuns.ChallengeToAcceptance | src/registration/proof-of-work-manager.ts:123-169 | the same from challenge to acceptance on one manager, over any run with at most one refresh in between |
| Cluster.DecimalInjective | src/registration/proof-of-work-manager.ts:215-217 | different interval ids, negative ones included, have different decimal texts |
| Cluster.SeedInputInjective | src/registration/proof-of-work-manager.ts:215-217 | for one seed, seed + decimal + seed determines the interval id |
| Cluster.SeedInputKeepsSeed | src/registration/proof-of-work-manager.ts:215-217 | for one interval id it determines the seed |
| PowState.DecimalReadsBack | src/registration/proof-of-work-manager.ts:215-217 | the decimal digits of an interval id read back to it, without leading zeros; a negative one has a minus sign |
| Cluster.WindowFollowsClock | src/registration/proof-of-work-manager.ts:210-219 | a seeded window depends on nothing but the clock reading of the last refresh |
| Cluster.WindowHoldsIffAdjacent | src/registration/proof-of-work-manager.ts:155-163 | the window of interval j holds the nonce of interval i if, and without collisions only if, they differ by at most 1 |
| Cluster.AcceptsIffAdjacent | src/registration/proof-of-work-manager.ts:155-219 | the same for the challenge of one node at another |
| Cluster.ClusterAgreement | src/registration/proof-of-work-manager.ts:24-219 | last refreshes at most one period apart: each node accepts the other's current challenge |
| Cluster.AgreementAtEveryInstant | src/registration/proof-of-work-manager.ts:179-219 | so it does at every instant of a shared clock at which no refresh is overdue, whatever the phases |
| Cluster.PeriodIsTheBound | src/registration/proof-of-work-manager.ts:211-213 | one period is exactly the drift that all pairs of readings tolerate |
| Cluster.NodesAcceptIffAdjacent | src/registration/proof-of-work-manager.ts:155-219 | over any runs of two nodes, without collisions, one accepts the other's challenge if and only if the intervals of their last refreshes are adjacent |
| Cluster.RefusedBeyondPeriod | src/registration/proof-of-work-manager.ts:155-219 | beyond one period the refusal is real: for every larger drift there are readings at which neither node accepts the other's challenge |
| Cluster.SeededLifetime | src/registration/proof-of-work-manager.ts:208-219 | k refreshes one period apart: a seeded challenge is still acceptable if and only if k <= 1, without collisions |
| Cluster.SolveHereAcceptThere | src/registration/proof-of-work-manager.ts:123-169 | a challenge of one node, solved, is accepted by another whose last refresh is within one period |
| RegistrationManager.RegistrationStore.InsertOrUpdateTenantRegistration | src/registration/registration-store.ts:40-51 | the row of the DID has the new hash, all others stay |
| RegistrationManager.RegistrationStore.GetTenantRegistration | src/registration/registration-store.ts:56-69 | found if and only if there is a row, with its hash |
| RegistrationManager.RegistrationManager.UpdateTermsOfService | src/registration/registration-manager.ts:39-42 | stores the text and its digest |
| RegistrationManager.RegistrationManager.HandleRegistrationRequest | src/registration/registration-manager.ts:98-116 | refused for its terms if and only if the hashes differ; otherwise the result is that of verifying challenge nonce, response nonce and the JSON text of the data, and the nonce is recorded and the row written exactly on acceptance |
| RegistrationManager.RegistrationManager.IsActiveTenant | src/registration/registration-manager.ts:129-152 | open without a store; otherwise active if and only if the row carries the current hash |
| RegistrationRuns.PerformRequest | src/registration/registration-manager.ts:98-116 | a request handled on the objects is an admission followed by its landing |
| RegistrationRuns.PerformTerms | src/registration/registration-manager.ts:39-152 | new terms and the gate on the objects are those of the run |
| RegistrationRuns.PendingUpsertLandsOrIsLost | src/registration/registration-store.ts:40-51 | a pending upsert that lands writes its row and no other, one that fails writes none, and either is then no longer pending |
| RegistrationRuns.PowPartIsManagerRun | src/registration/registration-manager.ts:98-112 | the proof-of-work part of every registration run is a run of the manager |
| RegistrationRuns.UpsertsAreConserved | src/registration/registration-manager.ts:98-124 | every admitted request's upsert is pending, landed or lost exactly once, and one proof is logged for each |
| RegistrationRuns.WhenAdmitted | src/registration/registration-manager.ts:98-112 | at an admission the terms were current and the proof's hash at most the threshold |
| RegistrationRuns.RowsWereAdmitted | src/registration/registration-manager.ts:98-124 | every stored row goes back to an admission with its data, under current terms, with a hash of at most the threshold, which is at most I |
| RegistrationRuns.NoMoreTenantsThanProofs | src/registration/registration-manager.ts:98-124 | rows and pending upserts together never outnumber accepted proofs |
| RegistrationRuns.AdmittedInputsDecode | src/registration/registration-manager.ts:106-112 | admitted requests with equal hash inputs are equal |
| RegistrationRuns.AdmissionsWithOneNonceAreApart | src/registration/registration-manager.ts:98-112 | two admissions with one response nonce are more than 60,000 ms apart |
| RegistrationRuns.AdmissionsOfOnePuzzleAreApart | src/registration/registration-manager.ts:98-112 | so are two admissions of one solved puzzle |
| RegistrationRuns.RunsKeepTable | src/registration/registration-store.ts:40-51 | at every reachable state the table holds the last landed registration of each DID |
| RegistrationRuns.ActiveIffLatestLandedIsCurrent | src/registration/registration-manager.ts:129-152 | a tenant is active if and only if its last landed registration carries the hash of the current terms |
| RegistrationRuns.WithoutTermsTheGateStaysShut | src/registration/registration-manager.ts:98-149 | without terms a request without a hash is admitted, its row holds a null, and its tenant is active neither then nor after terms are set |
| RegistrationRuns.NewTermsShutEveryoneOut | src/registration/registration-manager.ts:39-152 | in every state, new terms deactivate every tenant until a later admission of its own if and only if no row and no pending upsert carries their hash |
| RegistrationRuns.PendingUpsertActivatesLater | src/registration/registration-manager.ts:98-152 | a run from the start in which an upsert pending while the terms go to others and back activates its tenant |
| TtlCache.SqlTtlCache.Insert | src/web5-connect/sql-ttl-cache.ts:70-79 | a taken key, stale or not, is a conflict and changes nothing; otherwise the row expires ttl seconds from now |
| TtlCache.SqlTtlCache.Get | src/web5-connect/sql-ttl-cache.ts:84-106 | found if and only if there is a row with now < expiry; otherwise the key is gone afterwards |
| TtlCache.SqlTtlCache.Delete | src/web5-connect/sql-ttl-cache.ts:111-116 | removes the key and nothing else |
| TtlCache.SqlTtlCache.CleanUpExpiredEntries | src/web5-connect/sql-ttl-cache.ts:121-126 | a key stays if and only if its expiry is not before now, with its row |
| TtlCacheRuns.Perform | src/web5-connect/sql-ttl-cache.ts:70-126 | every operation on the cache object has the table and the answer of the run |
| TtlCacheRuns.CleanUpsInvisibleIff | src/web5-connect/sql-ttl-cache.ts:60-126 | sprinkling any cleanups over a run changes no output if and only if no insert hits a row whose expiry lies strictly before it |
| TtlCacheRuns.CleanUpsOnlyThin | src/web5-connect/sql-ttl-cache.ts:121-126 | with cleanups the table is the one without them minus expired rows |
| TtlCacheRuns.FreshKeysHideCleanUps | src/web5-connect/sql-ttl-cache.ts:60-126 | if each key is inserted at most once, two runs that differ only in cleanups have equal outputs |
| TtlCacheRuns.PlainMapIff | src/web5-connect/sql-ttl-cache.ts:70-126 | the cache refines a plain map whose entries end at their expiry if and only if no insert hits a dead row not yet removed |
| Web5Connect.KeysAreSeparate | src/web5-connect/web5-connect-server.ts:74-117 | request and response rows never collide, whatever the identifiers |
| Web5Connect.Web5ConnectServer.SetWeb5ConnectRequest | src/web5-connect/web5-connect-server.ts:68-80 | issues the insert under `request:` and the id, expiring 600,000 ms from now, and returns the request URI |
| Web5Connect.Web5ConnectServer.SetWeb5ConnectResponse | src/web5-connect/web5-connect-server.ts:102-104 | issues the insert under `response:` and the state, expiring 600,000 ms from now |
| Web5Connect.Web5ConnectServer.GetWeb5ConnectRequest | src/web5-connect/web5-connect-server.ts:85-86 | up to its await: issues a read under `request:` and the id |
| Web5Connect.Web5ConnectServer.GetWeb5ConnectResponse | src/web5-connect/web5-connect-server.ts:109-110 | up to its await: issues a read under `response:` and the state |
| Web5Connect.Web5ConnectServer.FinishGet | src/web5-connect/web5-connect-server.ts:85-97 | a resumed get returns the row it read if the clock is before its expiry, and issues a delete of its key exactly when a row was found, expired or not |
| Web5Connect.Web5ConnectServer.CompletePending | src/web5-connect/sql-ttl-cache.ts:75-126 | key by key what the table is after each pending operation lands, and that a read gets the row there is then |
| Web5Connect.Perform | src/web5-connect/web5-connect-server.ts:68-121 | every event on the server object has the table, the pending operations and the answer of the run |
| Web5Connect.FailedOperationIsGone | src/web5-connect/web5-connect-server.ts:68-121 | an operation that fails is no longer pending and has changed nothing |
| Web5Connect.OnlyStoredRows | src/web5-connect/web5-connect-server.ts:68-121 | whatever the interleaving, every row in the table, under way or handed out was set as it is |
| Web5Connect.ReturnedAsStoredInTime | src/web5-connect/web5-connect-server.ts:68-121 | an object is returned only as stored, and only before its set time plus 600,000 ms |
| Web5ConnectOnce.RunsKeepLife | src/web5-connect/web5-connect-server.ts:68-97 | the invariant of a key that is set at most once, over every interleaving |
| Web5ConnectOnce.LiveObjectIsThere | src/web5-connect/web5-connect-server.ts:88-94 | failed polls, cleanups and failed operations never remove an object that is live and not retrieved |
| Web5ConnectOnce.ReadFindsUntilDelete | src/web5-connect/web5-connect-server.ts:85-97 | before the expiry a read finds the object if and only if it has arrived and no delete of it has landed |
| Web5ConnectOnce.GoneForGood | src/web5-connect/web5-connect-server.ts:92-94 | no read that lands after a landed delete sees the object again |
| Web5ConnectUses.RetrievedAgainIff | src/web5-connect/web5-connect-server.ts:82-97 | at any point of any run that sets the key at most once, its object can be handed out once more if and only if it is not expired and its row is in the table or with a caller not yet resumed |
| Web5ConnectUses.InTurnMeansOnce | src/web5-connect/web5-connect-server.ts:82-97 | a request id is retrieved at most once if operations complete in the order of their issue, no delete of it fails, and it is polled only after the previous caller was resumed |
| Web5ConnectUses.SecondUseIsReachable | src/web5-connect/web5-connect-server.ts:82-97 | a run from the start, within a millisecond, in which one object is retrieved twice |
| Web5ConnectOnce.RetrievedAtMostOnce | src/web5-connect/web5-connect-server.ts:82-97 | the schedules behind that: at most one retrieval if no read lands over an unfinished poll and no delete fails |
| Web5ConnectOnce.LiveReadRetrieves | src/web5-connect/web5-connect-server.ts:85-97 | in every state a read that lands on a live row ends in a retrieval, no matter how many there were |
| Web5ConnectOnce.OverlappingPollsBothRetrieve | src/web5-connect/web5-connect-server.ts:82-97 | so in every state two polls in flight on a live row both retrieve it |
| Web5ConnectReset.SafeToSetIff | src/web5-connect/web5-connect-server.ts:102-121 | in every reachable state, a newly set object is sure to be stored and to stay until it itself is handed out or expires, however the run goes on, if and only if the row of the key is gone, no insert or delete of it is under way and no caller holds it |
| Web5ConnectReset.EndedIsKept | src/web5-connect/web5-connect-server.ts:102-121 | the safe half: what an ended exchange leaves behind cannot touch the new object |
| Web5ConnectReset.CallerSpoils | src/web5-connect/web5-connect-server.ts:109-121 | one of the four ways to lose it: a caller that still holds the old row, whether it hands the old object out or finds it expired |
| Web5ConnectReset.StaleDeleteHitsNewObject | src/web5-connect/web5-connect-server.ts:102-121 | a run from the start, within two milliseconds, in which two overlapping polls lose the response that is set anew |
| SubscriptionRuns.CompletedSubscribe | src/json-rpc-handlers/dwn/process-message.ts:65-103 | a subscribe handled without interruption registers the new handle, or changes nothing if the id is in use |
| SubscriptionRuns.DeclinedSubscribe | src/json-rpc-handlers/dwn/process-message.ts:65-103 | a subscribe the DWN turns down leaves nothing behind |
| SubscriptionRuns.CompletedClose | src/connection/socket-connection.ts:79-90 | a close handled without interruption asks for the handle's close and forgets the id |
| SubscriptionRuns.HandlesAreAccountedFor | src/connection/socket-connection.ts:55-117 | under every interleaving a handle not asked to close is in exactly one of four places: in flight, in the map, dropped as a duplicate, swept by a late delete |
| SubscriptionLosses.CloseLeavesNothingOpenIff | src/connection/socket-connection.ts:95-117 | closing the connection leaves nothing open, over every continuation without a new subscribe, if and only if no subscribe was waiting for the DWN or for its registration and nothing had been dropped |
| SubscriptionRuns.NothingOpenAtCloseIff | src/connection/socket-connection.ts:95-108 | at the instant of closing nothing is open if and only if no opened handle was in flight and nothing had been dropped |
| SubscriptionLosses.CanLoseIff | src/connection/socket-connection.ts:55-117 | in every reachable state, some continuation without new messages loses one more handle (dropped, swept, or registered on a closed connection) if and only if a subscribe under way meets a closed connection, a registered id or another message with its id, or a close under way meets its id registered anew |
| SubscriptionLosses.OrderlyIffNothingCanBeLost | src/connection/socket-connection.ts:55-117 | a run never is in such a state if and only if every subscribe past the in-use test was the only message under way with its id, on an open connection, and the connection was closed with no subscribe under way |
| SubscriptionLosses.OrderlyRunsDropNothing | src/connection/socket-connection.ts:55-117 | in such runs a handle not asked to close is in flight or in the map of an open connection |
| SubscriptionRuns.RegisteredAfterClose | src/json-rpc-handlers/dwn/process-message.ts:77-101 | a subscription in flight when the connection closes is registered on the closed connection and stays open |
| SubscriptionRuns.LateRegistrationIsReachable | src/json-rpc-handlers/dwn/process-message.ts:77-101 | a run from the start that ends so |
| SubscriptionRuns.DuplicateIsDropped | src/json-rpc-handlers/dwn/process-message.ts:68-101 | of two subscribes with one id, both past the in-use test, the second handle is dropped open |
| SubscriptionRuns.DuplicateIsReachable | src/json-rpc-handlers/dwn/process-message.ts:68-101 | a run from the start that ends so |
| SubscriptionRuns.ReRegisteredIsSwept | src/connection/socket-connection.ts:79-90 | a delete that resumes after its id was registered again drops the new handle open |
| SubscriptionRuns.SweepIsReachable | src/connection/socket-connection.ts:79-90 | a run from the start that ends so |
| SocketConnection.SocketConnection.AddSubscription | src/connection/socket-connection.ts:63-72 | refuses a used id, otherwise adds the reference |
| SocketConnection.SocketConnection.CloseSubscription | src/connection/socket-connection.ts:79-90 | refuses an unknown id, otherwise closes its handle on the DWN and forgets it; the map keeps exactly the open handles |
| SocketConnection.SocketConnection.Close | src/connection/socket-connection.ts:95-117 | deleting while walking over the map leaves it empty, and no handle opened through the connection stays open |
| SocketConnection.SocketConnection.HeartbeatTick | src/connection/socket-connection.ts:42-49 | closes the connection exactly when no pong came since the last tick |
| SocketConnection.SubscribesOnlyOverWs | src/connection/socket-connection.ts:207-217 | a subscribe message gets to the DWN if and only if it comes over a WebSocket, under a subscribe method, with an id not in use |
| SocketConnection.HandleDwnProcessMessage | src/json-rpc-handlers/dwn/process-message.ts:21-123 | each response if and only if its condition, over every message: -32602 for a RecordsWrite not over HTTP, a subscription not over a WebSocket or an id in use, -32600 for a subscribe message without a subscription request, -32603 if the DWN throws, success otherwise, the earlier test winning; and the registration of exactly the handle the DWN opened |
| SocketConnection.SubscriptionRequest | src/connection/socket-connection.ts:207-217 | there is a subscription request if and only if the method begins with `rpc.subscribe.`, a subscription is given and the message is a subscribe; it is then the one given |
| SocketConnection.HandleSubscriptionsClose | src/json-rpc-handlers/subscription/close.ts:23-59 | which response is given when, and the id is gone afterwards |
| ConnectionManager.InMemoryConnectionManager.Connect | src/connection/connection-manager.ts:25-32 | adds a fresh connection under its socket |
| ConnectionManager.InMemoryConnectionManager.Perform | src/connection/socket-connection.ts:37-172 | whatever comes in on one connection, the manager stays valid and the handles of the others are neither opened nor closed; a pong marks the connection alive, a heartbeat tick closes it exactly if it was not, and messages do neither |
| ConnectionManager.InMemoryConnectionManager.Disconnect | src/connection/connection-manager.ts:25-29 | a closed socket's connection is closed, with its handles alone, and leaves the map |
| ConnectionManager.InMemoryConnectionManager.CloseAll | src/connection/connection-manager.ts:34-38 | all connections are closed and removed; exactly handles opened through them are closed |
| Heartbeat.Perform | src/connection/socket-connection.ts:42-125 | pongs and ticks on the connection object are those of the trace |
| Heartbeat.AliveSinceTick | src/connection/socket-connection.ts:42-125 | alive if and only if a pong followed every tick so far |
| Heartbeat.SurvivesIffAnswered | src/connection/socket-connection.ts:37-49 | a connection survives a trace if and only if a pong lies between any two ticks |
| DottedPaths.JoinSplit | src/http-api.ts:264-266 | joining undoes splitting at dots |
| DottedPaths.SplitJoin | src/http-api.ts:264-266 | splitting undoes joining dotless parts |
| DottedPaths.PrefixIffDotted | src/http-api.ts:264-267 | one path leads through the end of another if and only if its name continues the other's with a dot |
| Unflatten.ObjectGraph.constructor | src/http-api.ts:156-263 | the empty object, with an empty `filter` object on the read route |
| Unflatten.ObjectGraph.Build | src/http-api.ts:255-269 | the loop succeeds if and only if no descent is stopped by an earlier text, and then every path shows what the last parameter that concerns it left there |
| Unflatten.ObjectGraph.Put | src/http-api.ts:265-268 | one parameter: it throws if and only if a non-empty text is at a proper beginning of its path; otherwise its path holds the text, the beginnings are objects, nothing is below, and all else is as before |
| Unflatten.AssignmentIsLocal | src/http-api.ts:267-268 | an assignment in the object graph changes what lies at and below one path and nothing else |
| UnflattenRoundTrip.RoundTripIffPrefixFree | src/http-api.ts:255-269 | the build succeeds and every parameter is read back at its path if and only if no name continues another with a dot |
| UnflattenRoundTrip.LeavesAreParams | src/http-api.ts:255-269 | every leaf comes from a parameter with that path and value |
| UnflattenRoundTrip.ReachedThroughObjects | src/http-api.ts:255-269 | whatever is there is reached through objects |
| UnflattenRoundTrip.ObjectsOfPrefixFree | src/http-api.ts:156-162 | for such names the objects are exactly the beginnings of parameter paths and the seeded ones not replaced |
| UnflattenRoundTrip.OrderDoesNotMatter | src/http-api.ts:255-269 | for such names the result does not depend on the order of the parameters |
| UnflattenRoundTrip.OrderMattersOtherwise | src/http-api.ts:264-269 | `a` and `a.b`: in one order it throws if and only if the text of `a` is not empty, and an empty one is lost; in the other the parameter `a.b` is silently lost |

## Left out

- ProofOfWork.FindQualifiedResponseNonce: the search is cut off at the end of a list of draws; that a qualifying nonce exists, or is ever drawn, is a matter of probability. A maximum that is not hexadecimal, on which the original throws, is excluded.
- Difficulty.ScaledRate: rates and multipliers are exact reals, so the rounding of binary floating point inside `Math.floor` is not modelled.
- SpacedEvaluations.ManagerNeverEasierIff: the number of evaluations per minute is whole. Otherwise every hardening throws in the original, and so does an easing away from the initial value that has to compute its increment when ten times the number is not whole; such configurations are excluded, as are desired counts that are not positive. The failing half needs a digest under which that many different nonces, each with request data of its own, solve one challenge; which digests these are is not part of the model.
- ProofOfWorkManager.ProofOfWorkManager.constructor: an initial value that is not hexadecimal text throws in the original and is excluded.
- Cluster.SeedInputInjective: interval ids are printed digit by digit; the exponent notation that numbers of 10^21 and more would get does not occur with real clocks.
- DifficultyReturn.AlwaysComesBackIff: damped configurations, so all with M <= E; in others the value leaves the range from 0 to I, and where it then gets stuck is not described.
- RegistrationManager.RegistrationManager.HandleRegistrationRequest: the hash of a request is text or missing, and a missing one is stored as a null; other JSON values, which the original refuses as unequal to any hash, are not modelled. The JSON text of the data is a parameter, and the route that exists only with a store is assumed to be called only then. `updateTermsOfService` without a store only sets two fields nobody reads.
- RegistrationRuns.ActiveIffLatestLandedIsCurrent: the gate's read of the table and its comparison with the terms are one step; a change of terms between the two is not modelled.
- Web5Connect.Web5ConnectServer.SetWeb5ConnectRequest: the random request identifier is a parameter.
- Web5ConnectOnce.RetrievedAtMostOnce: sufficient only; what is exact is RetrievedAgainIff. A database that fails is modelled as operations that never take effect; half-done operations are not.
- Web5ConnectReset.SafeToSetIff: continuations in which the database fails are left out, as a failed insert loses the object whatever was there before.
- SocketConnection.HandleDwnProcessMessage: the DWN is an oracle that throws, or answers with or without a subscription, and gives one out only for a subscribe message; closing a subscription does not throw. The data stream that is split off the reply is not modelled.
- SocketConnection.HandleSubscriptionsClose: the branch for other errors stays unreached, as closing does not throw.
- SubscriptionRuns.RegisteredAfterClose: messages whose handling has begun go on after the socket's listeners are removed; events of the socket itself end there.
- ConnectionManager.InMemoryConnectionManager.Connect: every connection event brings a socket not seen before.
- ConnectionManager.InMemoryConnectionManager.CloseAll: all closes are finished before the close callbacks run, as `close` awaits its subscriptions first.
- Unflatten.ObjectGraph.Build: the nested objects are numbered records of one graph instead of separate heap objects, so their sharing is by number; parameter values are text. Names that are inherited from the object prototype, and values that are arrays or objects, depend on the query parser and are not modelled.
- SHA-256 (section 6.2 of FIPS 180-4), its text encoding, and random generation.
- SQL dialects, schema creation, storage and plugin loading, configuration.
- HTTP routing apart from the two loops, JSON-RPC framing, streaming, metrics, logging, start and stop of the server, the shutdown handler.
- `recordProofOfWork` and `recordTenantRegistration` called from outside, which are public for testing only, are not part of runs.
