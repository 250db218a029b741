/** The result-analysis contract: raw per-patient submissions keyed by
    (trial id, submitting caller) and published per-trial summaries keyed by
    trial id. Both are overwritten on every write and no call is refused
    except an unknown method. */
module ResultAnalysis {
  import opened Common

  /** One measurement a patient submits: its kind and its value, as text. */
  datatype DataPoint = DataPoint(dataType: string, value: string)

  /** A patient's stored submission for one trial. */
  datatype PatientResults = PatientResults(data: seq<DataPoint>)

  /** A trial's published summary. */
  datatype TrialResults = TrialResults(summary: string, conclusion: string, published: bool)

  /** The contract's storage. */
  datatype Store = Store(
    submissions: map<(TrialId, Identity), PatientResults>,
    publications: map<TrialId, TrialResults>)

  /** What a successful call returns: nothing, or a stored record (absent
      when the key was never written). */
  datatype Value =
    | NoValue
    | PatientResultsData(patientResults: Option<PatientResults>)
    | TrialResultsData(trialResults: Option<TrialResults>)

  /** One case of the dispatcher with its typed arguments; `Unrecognised`
      stands for every method name the dispatcher has no case for. */
  datatype Request =
    | SubmitPatientResults(trialId: TrialId, data: seq<DataPoint>)
    | PublishTrialResults(trialId: TrialId, summary: string, conclusion: string)
    | GetPatientResults(trialId: TrialId, patient: Identity)
    | GetTrialResults(trialId: TrialId)
    | Unrecognised(methodName: string)

  /** One call: who sends it and what it asks for. */
  datatype Call = Call(sender: Identity, request: Request)

  type Outcome = Transition<Value, Store>

  /** The store before any call. */
  const Empty: Store := Store(map[], map[])

  /** The invariant every reachable store keeps: a stored trial summary is
      marked published. */
  ghost predicate Valid(s: Store)
  {
    forall t :: t in s.publications ==> s.publications[t].published
  }

  /** The dispatcher. `submit-patient-results` stores the data under the
      trial id and the sender, `publish-trial-results` stores a published
      summary under the trial id (each replacing whatever was there); the
      reads return the stored record or an absent value; an unknown method
      fails. Only that last case fails, and nothing but the written key
      ever changes. */
  function Step(s: Store, c: Call): (out: Outcome)
    ensures out.reply.Err? <==> c.request.Unrecognised?
    ensures out.reply.Err? ==> out == Transition(Err(UnknownMethod), s)
    ensures c.request.SubmitPatientResults? ==>
              && out.reply == Ok(NoValue)
              && var key := (c.request.trialId, c.sender);
              && key in out.next.submissions
              && out.next.submissions[key].data == c.request.data
              && SameExcept(s.submissions, out.next.submissions, key)
              && out.next.publications == s.publications
    ensures c.request.PublishTrialResults? ==>
              && out.reply == Ok(NoValue)
              && c.request.trialId in out.next.publications
              && out.next.publications[c.request.trialId]
                 == TrialResults(c.request.summary, c.request.conclusion, true)
              && SameExcept(s.publications, out.next.publications, c.request.trialId)
              && out.next.submissions == s.submissions
    ensures c.request.GetPatientResults? ==>
              && out.next == s
              && out.reply.Ok? && out.reply.value.PatientResultsData?
              && var r := out.reply.value.patientResults;
              && (r.Some? <==> (c.request.trialId, c.request.patient) in s.submissions)
              && (r.Some? ==> r.value == s.submissions[(c.request.trialId, c.request.patient)])
    ensures c.request.GetTrialResults? ==>
              && out.next == s
              && out.reply.Ok? && out.reply.value.TrialResultsData?
              && var r := out.reply.value.trialResults;
              && (r.Some? <==> c.request.trialId in s.publications)
              && (r.Some? ==> r.value == s.publications[c.request.trialId])
    ensures Valid(s) ==> Valid(out.next)
  {
    match c.request
    case SubmitPatientResults(trialId, data) =>
      Transition(Ok(NoValue), s.(submissions := s.submissions[(trialId, c.sender) := PatientResults(data)]))
    case PublishTrialResults(trialId, summary, conclusion) =>
      Transition(Ok(NoValue), s.(publications := s.publications[trialId := TrialResults(summary, conclusion, true)]))
    case GetPatientResults(trialId, patient) =>
      Transition(Ok(PatientResultsData(Lookup(s.submissions, (trialId, patient)))), s)
    case GetTrialResults(trialId) =>
      Transition(Ok(TrialResultsData(Lookup(s.publications, trialId))), s)
    case Unrecognised(_) =>
      Transition(Err(UnknownMethod), s)
  }

  /** The store after a history of calls, applied in order from `s`. */
  function Run(s: Store, h: seq<Call>): Store
    decreases |h|
  {
    if h == [] then s else Step(Run(s, h[..|h| - 1]), h[|h| - 1]).next
  }
}
