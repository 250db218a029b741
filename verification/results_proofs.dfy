/** Properties of the result-analysis contract over whole histories of
    calls: every read returns what the last matching write stored (checked
    against a definition that scans the history instead of the store), every
    stored summary is published, and the contract's own example runs. */
module ResultAnalysisProofs {
  import opened Common
  import opened ResultAnalysis

  /** The data of the last `submit-patient-results` that caller `p` sent
      for trial `t` in history `h`, if there is one. */
  function LastSubmission(h: seq<Call>, t: TrialId, p: Identity): Option<seq<DataPoint>>
    decreases |h|
  {
    if h == [] then None
    else
      var c := h[|h| - 1];
      if c.sender == p && c.request.SubmitPatientResults? && c.request.trialId == t
      then Some(c.request.data)
      else LastSubmission(h[..|h| - 1], t, p)
  }

  /** The summary and conclusion of the last `publish-trial-results` for
      trial `t` in history `h`, if there is one. */
  function LastPublication(h: seq<Call>, t: TrialId): Option<(string, string)>
    decreases |h|
  {
    if h == [] then None
    else
      var c := h[|h| - 1];
      if c.request.PublishTrialResults? && c.request.trialId == t
      then Some((c.request.summary, c.request.conclusion))
      else LastPublication(h[..|h| - 1], t)
  }

  /** Any history keeps every stored summary marked published. */
  lemma {:induction false} RunPreservesValid(s: Store, h: seq<Call>)
    requires Valid(s)
    ensures Valid(Run(s, h))
    decreases |h|
  {
    if h != [] {
      RunPreservesValid(s, h[..|h| - 1]);
    }
  }

  /** The store holds, for each (trial, caller) key, exactly the data of
      that caller's last submission for that trial, and nothing for a key
      never submitted; submissions under other keys do not interfere. */
  lemma {:induction false} SubmissionsAreLastWrites(h: seq<Call>, t: TrialId, p: Identity)
    ensures (t, p) in Run(Empty, h).submissions <==> LastSubmission(h, t, p).Some?
    ensures LastSubmission(h, t, p).Some? ==>
              Run(Empty, h).submissions[(t, p)] == PatientResults(LastSubmission(h, t, p).value)
    decreases |h|
  {
    if h != [] {
      SubmissionsAreLastWrites(h[..|h| - 1], t, p);
    }
  }

  /** The store holds, for each trial, the summary and conclusion of its
      last publication, marked published, and nothing for a trial never
      published. */
  lemma {:induction false} PublicationsAreLastWrites(h: seq<Call>, t: TrialId)
    ensures t in Run(Empty, h).publications <==> LastPublication(h, t).Some?
    ensures LastPublication(h, t).Some? ==>
              var (summary, conclusion) := LastPublication(h, t).value;
              Run(Empty, h).publications[t] == TrialResults(summary, conclusion, true)
    decreases |h|
  {
    if h != [] {
      PublicationsAreLastWrites(h[..|h| - 1], t);
    }
  }

  /** `get-patient-results(t, p)` after any history, by any caller, returns
      the data of p's last submission for t, or an absent value. */
  lemma {:induction false} GetPatientResultsAfter(h: seq<Call>, reader: Identity, t: TrialId, p: Identity)
    ensures var out := Step(Run(Empty, h), Call(reader, GetPatientResults(t, p)));
            && out.next == Run(Empty, h)
            && out.reply == Ok(PatientResultsData(
                 match LastSubmission(h, t, p)
                 case None => None
                 case Some(data) => Some(PatientResults(data))))
  {
    SubmissionsAreLastWrites(h, t, p);
  }

  /** `get-trial-results(t)` after any history, by any caller, returns the
      last publication for t, marked published, or an absent value. */
  lemma {:induction false} GetTrialResultsAfter(h: seq<Call>, reader: Identity, t: TrialId)
    ensures var out := Step(Run(Empty, h), Call(reader, GetTrialResults(t)));
            && out.next == Run(Empty, h)
            && out.reply == Ok(TrialResultsData(
                 match LastPublication(h, t)
                 case None => None
                 case Some((summary, conclusion)) => Some(TrialResults(summary, conclusion, true))))
  {
    PublicationsAreLastWrites(h, t);
  }

  /** Submitting twice under the same key leaves only the second payload
      retrievable. */
  lemma ResubmissionOverwrites(s: Store, p: Identity, t: TrialId, first: seq<DataPoint>, second: seq<DataPoint>)
    ensures var s1 := Step(s, Call(p, SubmitPatientResults(t, first))).next;
            var s2 := Step(s1, Call(p, SubmitPatientResults(t, second))).next;
            Step(s2, Call(p, GetPatientResults(t, p))).reply
            == Ok(PatientResultsData(Some(PatientResults(second))))
  {
  }

  /** The contract's example runs: a submission and a publication succeed,
      and reading them back returns exactly what was written. */
  lemma ExampleRuns()
    ensures var bp := [DataPoint("blood_pressure", "120/80")];
            var h := [Call("patient1", SubmitPatientResults(1, bp))];
            && Step(Empty, h[0]).reply == Ok(NoValue)
            && Step(Run(Empty, h), Call("anyone", GetPatientResults(1, "patient1"))).reply
               == Ok(PatientResultsData(Some(PatientResults(bp))))
    ensures var h := [Call("owner", PublishTrialResults(1, "Trial summary", "Trial conclusion"))];
            && Step(Empty, h[0]).reply == Ok(NoValue)
            && Step(Run(Empty, h), Call("anyone", GetTrialResults(1))).reply
               == Ok(TrialResultsData(Some(TrialResults("Trial summary", "Trial conclusion", true))))
  {
  }
}
