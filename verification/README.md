# Clinical-trial contracts: a verified model

This project models the two contracts of a decentralized clinical-trial
management system as they are exercised in the repository: the
**patient-enrollment** contract (a trial registry with capacity-bounded
enrollment and consent gating) and the **result-analysis** contract
(per-patient raw submissions and per-trial published summaries). Each
contract is a dispatcher over a flat key-value store: one call, from one
sender, is handled at a time. The model makes the store an explicit
immutable record and each call a pure function from (store, call) to
(reply, next store).

- `common.dfy` (`Common`): trial ids, caller identities, `Option`, the reply
  shape `Ok(value)` / `Err(error)`, the error values 404, 403 and
  `"Unknown method"`, the store read `Lookup` (the stored record, or absent
  for a key never written, as a map read returns `undefined`), and the
  map-framing predicate `SameExcept`.
- `enrollment.dfy` (`PatientEnrollment`): trials, patient records, the
  registry store with its trial-id nonce, the operations `create-trial`,
  `enroll-patient`, `give-consent`, `get-patient-data` and
  `get-trial-data`, the dispatcher `Step`, and `Run`, which applies a
  history of calls.
- `enrollment_proofs.dfy` (`PatientEnrollmentProofs`): the store invariant
  and proofs about whole histories.
- `results.dfy` (`ResultAnalysis`): data points, patient results, trial
  results, the results store, and the dispatcher `Step` with its
  `submit-patient-results`, `publish-trial-results`, `get-patient-results`
  and `get-trial-results` cases.
- `results_proofs.dfy` (`ResultAnalysisProofs`): read-after-write against
  reference definitions that scan the history (`LastSubmission`,
  `LastPublication`), plus the published-flag invariant.

The sender is an explicit parameter of every call. Store keys are typed:
trial ids are `int`, identities are `string`, and patient results are keyed
by a `(trial id, identity)` pair.

## Behaviour worth noting

- `create-trial` stores `maxParticipants` as given and nothing checks that
  it is positive (tests/patient-enrollment.test.ts:17-21). The guard at
  tests/patient-enrollment.test.ts:28 then refuses every enrollment with 403
  when the capacity is 0 or less. The capacity invariant is therefore stated
  as `0 <= current` and (`current <= max` or `current == 0`). That gives
  `current <= max` whenever `max >= 0`.
- `enroll-patient` always overwrites the sender's record with
  `{enrolled: true, consent-given: false}` (tests/patient-enrollment.test.ts:31).
  Consent given earlier is cleared when the caller enrolls again
  (`ReenrollmentClearsConsent`).
- A sender who enrolls twice takes a second place in the trial
  (tests/patient-enrollment.test.ts:31-32). There is one patient record per
  identity, shared by all trials.
- `give-consent` reads no argument (tests/patient-enrollment.test.ts:35-39).
  Callers pass it a trial id anyway (`[1]` at
  tests/patient-enrollment.test.ts:67), and the id is ignored.

## Model

| member | source | states |
|---|---|---|
| PatientEnrollment.CreateTrialOp | tests/patient-enrollment.test.ts:14-22 | returns id nonce+1 and advances the nonce to it; the new id maps to the given name and capacity with 0 participants; every other trial and every patient record is unchanged |
| PatientEnrollment.EnrollPatientOp | tests/patient-enrollment.test.ts:24-33 | 404 exactly when the trial is absent; 403 exactly when it exists with current >= max; success exactly otherwise; a failure leaves the store unchanged; a success adds exactly one participant to that trial only, keeps its name and capacity, sets the sender's record to enrolled without consent (replacing any earlier one), and leaves other patients and the nonce alone |
| PatientEnrollment.GiveConsentOp | tests/patient-enrollment.test.ts:35-39 | succeeds exactly when the sender has a record saying enrolled; otherwise 403 with the store unchanged; a success sets only that record's consent flag |
| PatientEnrollment.Step | tests/patient-enrollment.test.ts:12-50 | the two reads always succeed, return the stored record or absent, and leave the store unchanged; an unknown method fails with "Unknown method" and no change; no failing call changes the store |
| PatientEnrollmentProofs.StepPreservesValid | tests/patient-enrollment.test.ts:14-39 | every kind of call preserves the invariant: dense ids 1..nonce, every trial within capacity, every patient record enrolled |
| PatientEnrollmentProofs.RunPreservesValid | tests/patient-enrollment.test.ts:12-50 | any history of calls preserves that invariant |
| PatientEnrollmentProofs.ReachableInvariants | tests/patient-enrollment.test.ts:26-38 | in every store reachable from the empty one, each trial has 0 <= current, current <= max when max >= 0, and consent implies enrolled |
| PatientEnrollmentProofs.NonceCountsCreations | tests/patient-enrollment.test.ts:16-22 | after any history the nonce equals the number of create-trial calls |
| PatientEnrollmentProofs.CreateReturnsNextId | tests/patient-enrollment.test.ts:16-22 | after any history the trial ids in use are exactly 1..(number created); the next create-trial returns the next id, which was not yet in use, and stores the trial there with 0 participants |
| PatientEnrollmentProofs.ParticipantsCountEnrollments | tests/patient-enrollment.test.ts:24-33 | a trial's participant count equals the number of successful enroll-patient calls into it; no enrollment ever succeeds into a trial that does not exist |
| PatientEnrollmentProofs.FillTrial | tests/patient-enrollment.test.ts:28-32 | n enrollment attempts into a trial holding c of m places end with min(c+n, m) participants, with name and capacity unchanged |
| PatientEnrollmentProofs.FillTrialReplies | tests/patient-enrollment.test.ts:28-33 | the i-th of those attempts succeeds exactly when c+i < m and otherwise fails with 403 |
| PatientEnrollmentProofs.HundredAndOneEnrollments | tests/patient-enrollment.test.ts:24-33 | a fresh trial of capacity 100 accepts the first 100 of 101 enrollment attempts, refuses the 101st with 403, and holds 100 participants |
| PatientEnrollmentProofs.GiveConsentIdempotent | tests/patient-enrollment.test.ts:35-39 | after a successful give-consent, repeating it succeeds again and changes nothing |
| PatientEnrollmentProofs.ReenrollmentClearsConsent | tests/patient-enrollment.test.ts:31 | enrolling a consented patient again succeeds and clears the consent flag |
| PatientEnrollmentProofs.ExampleRuns | tests/patient-enrollment.test.ts:52-89 | the repository's scenarios: first id is 1; the new trial reads back as ("Test Trial", 100, 0); enrollment and consent succeed; the patient reads back as enrolled with consent |
| ResultAnalysis.Step | tests/result-analysis.test.ts:10-43 | only an unknown method fails, with "Unknown method" and no change; a submission stores the data under (trial, sender) and a publication stores (summary, conclusion, published) under the trial, each replacing any earlier record and changing no other key; reads return the stored record or absent and change nothing; the published-flag invariant is preserved |
| ResultAnalysisProofs.RunPreservesValid | tests/result-analysis.test.ts:17-24 | after any history every stored trial summary is marked published |
| ResultAnalysisProofs.SubmissionsAreLastWrites | tests/result-analysis.test.ts:12-15 | after any history the store holds, under (t, p), exactly the data of p's last submission for t, and nothing if there was none |
| ResultAnalysisProofs.PublicationsAreLastWrites | tests/result-analysis.test.ts:17-24 | after any history the store holds, under t, the summary and conclusion of t's last publication with published = true, and nothing if there was none |
| ResultAnalysisProofs.GetPatientResultsAfter | tests/result-analysis.test.ts:26-31 | get-patient-results(t, p) by any caller, after any history, returns p's last submission for t (or absent) and leaves the store unchanged |
| ResultAnalysisProofs.GetTrialResultsAfter | tests/result-analysis.test.ts:33-38 | get-trial-results(t) by any caller, after any history, returns t's last publication marked published (or absent) and leaves the store unchanged |
| ResultAnalysisProofs.ResubmissionOverwrites | tests/result-analysis.test.ts:12-15 | two submissions under the same key leave only the second payload retrievable |
| ResultAnalysisProofs.ExampleRuns | tests/result-analysis.test.ts:45-77 | the repository's scenarios: the blood-pressure submission and the publication succeed and read back exactly as written |

## Left out

- String-encoded store keys (`trial-…`, `patient-…`, `patient-results-…-…`,
  `trial-results-…`) are left out. They become typed keys in separate maps.
  With integer trial ids the encodings are injective, so this changes nothing
  observable.
- JavaScript number semantics are left out: fractional or non-numeric
  trial ids, `NaN`, and the loss of precision above 2^53. Trial ids,
  capacities and counts are unbounded integers.
- PatientEnrollmentProofs.ReachableInvariants: `current <= max` holds only
  because capacities are integers. In the source, a capacity of 2.5 admits 3
  participants under the `>=` guard at tests/patient-enrollment.test.ts:28.
  A `NaN` or missing capacity admits any number, since `n >= NaN` is false.
- Loosely typed argument arrays are left out. Each dispatcher case takes
  typed arguments instead. A data point is a (data-type, value) pair of
  strings.
- In-place mutation of stored objects and reads returning live references
  are left out. The functional map updates have the same observable effect
  on later calls.
- Matching on method names is left out. `Unrecognised(name)` stands for any
  method name that matches no case. The model does not tie a name to the
  constructor it would select.
- The test harness itself (`describe`, `it`, `beforeEach`, `expect`) is left
  out. Its scenarios appear as the `ExampleRuns` lemmas.
- The on-ledger contracts, transaction signing and caller authentication are
  left out. None of them are in the modelled files, and the sender is taken
  as given.
