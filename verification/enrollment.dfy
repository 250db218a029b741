/** The patient-enrollment contract: a trial registry with capacity-bounded
    enrollment and consent gating, over a store that holds the trial-id nonce,
    the trials keyed by id and the patient records keyed by caller identity. */
module PatientEnrollment {
  import opened Common

  /** A registered trial. `maxParticipants` is stored as given: the contract
      does not check that it is positive. */
  datatype Trial = Trial(name: string, maxParticipants: int, currentParticipants: int)

  /** The one patient record of a caller, shared by every trial. */
  datatype Patient = Patient(enrolled: bool, consentGiven: bool)

  /** The contract's storage. `nonce` is the id of the last trial created. */
  datatype Registry = Registry(nonce: nat, trials: map<TrialId, Trial>, patients: map<Identity, Patient>)

  /** What a successful call returns: nothing, a new trial id, or a stored
      record (absent when the key was never written). */
  datatype Value =
    | NoValue
    | NewTrialId(id: TrialId)
    | PatientData(patient: Option<Patient>)
    | TrialData(trial: Option<Trial>)

  /** One case of the dispatcher with its typed arguments; `Unrecognised`
      stands for every method name the dispatcher has no case for. */
  datatype Request =
    | CreateTrial(name: string, maxParticipants: int)
    | EnrollPatient(trialId: TrialId)
    | GiveConsent
    | GetPatientData(identity: Identity)
    | GetTrialData(trialId: TrialId)
    | Unrecognised(methodName: string)

  /** One call: who sends it and what it asks for. */
  datatype Call = Call(sender: Identity, request: Request)

  type Outcome = Transition<Value, Registry>

  /** The store before any call: no trials, no patients, nonce 0. */
  const Empty: Registry := Registry(0, map[], map[])

  /** Capacity as the enrollment guard maintains it: the count never goes
      negative and passes `maxParticipants` only for a trial whose capacity
      is not positive, which keeps its count at 0. */
  predicate WithinCapacity(t: Trial)
  {
    0 <= t.currentParticipants && (t.currentParticipants <= t.maxParticipants || t.currentParticipants == 0)
  }

  /** The invariant every reachable store keeps: trial ids are exactly
      1..nonce, every trial is within capacity, and every stored patient
      record says enrolled (so consent never stands without enrollment). */
  ghost predicate Valid(s: Registry)
  {
    && (forall t :: t in s.trials <==> 1 <= t <= s.nonce)
    && (forall t :: t in s.trials ==> WithinCapacity(s.trials[t]))
    && (forall p :: p in s.patients ==> s.patients[p].enrolled)
  }

  /** The enrollment guard: a trial accepts a new patient while its count is
      below its capacity. */
  predicate HasRoom(t: Trial)
  {
    t.currentParticipants < t.maxParticipants
  }

  /** `create-trial`: advances the nonce and stores a trial with no
      participants under the new id, which it returns. */
  function CreateTrialOp(s: Registry, name: string, maxParticipants: int): (out: Outcome)
    ensures out.reply.Ok? && out.reply.value.NewTrialId?
    ensures out.reply.value.id == s.nonce + 1 == out.next.nonce
    ensures out.reply.value.id in out.next.trials
    ensures out.next.trials[out.reply.value.id] == Trial(name, maxParticipants, 0)
    ensures SameExcept(s.trials, out.next.trials, out.reply.value.id)
    ensures out.next.patients == s.patients
  {
    var id := s.nonce + 1;
    Transition(Ok(NewTrialId(id)), s.(nonce := id, trials := s.trials[id := Trial(name, maxParticipants, 0)]))
  }

  /** `enroll-patient`: 404 for an unknown trial, 403 for a full one;
      otherwise the sender's record becomes enrolled without consent
      (replacing any earlier record) and the trial gains one participant. */
  function EnrollPatientOp(s: Registry, sender: Identity, trialId: TrialId): (out: Outcome)
    ensures out.reply == Err(NotFound) <==> trialId !in s.trials
    ensures out.reply == Err(Forbidden) <==> trialId in s.trials && !HasRoom(s.trials[trialId])
    ensures out.reply.Err? ==> out.next == s
    ensures out.reply.Ok? ==> out.reply.value == NoValue
    ensures out.reply.Ok? <==> trialId in s.trials && HasRoom(s.trials[trialId])
    ensures out.reply.Ok? ==>
              && trialId in out.next.trials
              && var before, after := s.trials[trialId], out.next.trials[trialId];
              && after.currentParticipants == before.currentParticipants + 1
              && after.name == before.name
              && after.maxParticipants == before.maxParticipants
    ensures out.reply.Ok? ==>
              && SameExcept(s.trials, out.next.trials, trialId)
              && sender in out.next.patients
              && out.next.patients[sender] == Patient(true, false)
              && SameExcept(s.patients, out.next.patients, sender)
              && out.next.nonce == s.nonce
  {
    if trialId !in s.trials then
      Transition(Err(NotFound), s)
    else
      var trial := s.trials[trialId];
      if trial.currentParticipants >= trial.maxParticipants then
        Transition(Err(Forbidden), s)
      else
        var grown := trial.(currentParticipants := trial.currentParticipants + 1);
        Transition(Ok(NoValue), s.(trials := s.trials[trialId := grown],
                                   patients := s.patients[sender := Patient(true, false)]))
  }

  /** `give-consent`: 403 unless the sender has a record that says enrolled;
      otherwise sets that record's consent flag and nothing else. */
  function GiveConsentOp(s: Registry, sender: Identity): (out: Outcome)
    ensures out.reply.Ok? <==> sender in s.patients && s.patients[sender].enrolled
    ensures out.reply.Err? ==> out.reply == Err(Forbidden) && out.next == s
    ensures out.reply.Ok? ==>
              && out.reply.value == NoValue
              && sender in out.next.patients
              && out.next.patients[sender] == s.patients[sender].(consentGiven := true)
              && SameExcept(s.patients, out.next.patients, sender)
              && out.next.trials == s.trials
              && out.next.nonce == s.nonce
  {
    if sender !in s.patients || !s.patients[sender].enrolled then
      Transition(Err(Forbidden), s)
    else
      var patient := s.patients[sender];
      Transition(Ok(NoValue), s.(patients := s.patients[sender := patient.(consentGiven := true)]))
  }

  /** The dispatcher: routes one call to its case. The reads
      (`get-patient-data`, `get-trial-data`) always succeed with the stored
      record or an absent value; an unknown method fails. */
  function Step(s: Registry, c: Call): (out: Outcome)
    ensures c.request.GetPatientData? ==>
              out == Transition(Ok(PatientData(Lookup(s.patients, c.request.identity))), s)
    ensures c.request.GetTrialData? ==>
              out == Transition(Ok(TrialData(Lookup(s.trials, c.request.trialId))), s)
    ensures c.request.Unrecognised? ==> out == Transition(Err(UnknownMethod), s)
    ensures out.reply.Err? ==> out.next == s
  {
    match c.request
    case CreateTrial(name, maxParticipants) => CreateTrialOp(s, name, maxParticipants)
    case EnrollPatient(trialId) => EnrollPatientOp(s, c.sender, trialId)
    case GiveConsent => GiveConsentOp(s, c.sender)
    case GetPatientData(identity) => Transition(Ok(PatientData(Lookup(s.patients, identity))), s)
    case GetTrialData(trialId) => Transition(Ok(TrialData(Lookup(s.trials, trialId))), s)
    case Unrecognised(_) => Transition(Err(UnknownMethod), s)
  }

  /** The store after a history of calls, applied in order from `s`. */
  function Run(s: Registry, h: seq<Call>): Registry
    decreases |h|
  {
    if h == [] then s else Step(Run(s, h[..|h| - 1]), h[|h| - 1]).next
  }

  /** The reply the `i`-th call of history `h` received. */
  function ReplyAt(s: Registry, h: seq<Call>, i: nat): Reply<Value>
    requires i < |h|
  {
    Step(Run(s, h[..i]), h[i]).reply
  }
}
