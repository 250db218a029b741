/** Properties of the patient-enrollment contract over whole histories of
    calls: the store invariant, dense trial ids, participant counting,
    capacity exhaustion, consent idempotence, and the contract's own
    example scenarios. */
module PatientEnrollmentProofs {
  import opened Common
  import opened PatientEnrollment

  /** Number of `create-trial` calls in a history. */
  function CountCreates(h: seq<Call>): nat
    decreases |h|
  {
    if h == [] then 0
    else CountCreates(h[..|h| - 1]) + (if h[|h| - 1].request.CreateTrial? then 1 else 0)
  }

  /** Number of calls in `h`, run from `s`, that enrolled a patient into
      trial `t` successfully. */
  function EnrollSuccesses(s: Registry, h: seq<Call>, t: TrialId): nat
    decreases |h|
  {
    if h == [] then 0
    else
      var k := |h| - 1;
      EnrollSuccesses(s, h[..k], t)
        + (if h[k].request == EnrollPatient(t) && ReplyAt(s, h, k).Ok? then 1 else 0)
  }

  /** Every call of `h` is an enrollment into trial `t`. */
  ghost predicate AllEnroll(h: seq<Call>, t: TrialId)
  {
    forall i :: 0 <= i < |h| ==> h[i].request == EnrollPatient(t)
  }

  /** One call of any kind keeps the store invariant. */
  lemma StepPreservesValid(s: Registry, c: Call)
    requires Valid(s)
    ensures Valid(Step(s, c).next)
  {
  }

  /** Any history of calls keeps the store invariant. */
  lemma {:induction false} RunPreservesValid(s: Registry, h: seq<Call>)
    requires Valid(s)
    ensures Valid(Run(s, h))
    decreases |h|
  {
    if h != [] {
      RunPreservesValid(s, h[..|h| - 1]);
      StepPreservesValid(Run(s, h[..|h| - 1]), h[|h| - 1]);
    }
  }

  /** Every store reachable from the empty one keeps each trial within
      capacity (and at most its maximum when that is not negative) and
      never records consent for a caller who is not enrolled. */
  lemma {:induction false} ReachableInvariants(h: seq<Call>)
    ensures Valid(Run(Empty, h))
    ensures forall t :: t in Run(Empty, h).trials ==>
              var trial := Run(Empty, h).trials[t];
              0 <= trial.currentParticipants
              && (0 <= trial.maxParticipants ==> trial.currentParticipants <= trial.maxParticipants)
    ensures forall p :: p in Run(Empty, h).patients ==>
              (Run(Empty, h).patients[p].consentGiven ==> Run(Empty, h).patients[p].enrolled)
  {
    RunPreservesValid(Empty, h);
  }

  /** The nonce counts the trials created so far. */
  lemma {:induction false} NonceCountsCreations(h: seq<Call>)
    ensures Run(Empty, h).nonce == CountCreates(h)
    decreases |h|
  {
    if h != [] {
      NonceCountsCreations(h[..|h| - 1]);
    }
  }

  /** After any history, the trial ids in use are exactly 1 .. the number
      of trials created, and the next `create-trial` returns the next one,
      an id not yet in use. */
  lemma {:induction false} CreateReturnsNextId(h: seq<Call>, sender: Identity, name: string, maxParticipants: int)
    ensures forall t :: t in Run(Empty, h).trials <==> 1 <= t <= CountCreates(h)
    ensures var out := Step(Run(Empty, h), Call(sender, CreateTrial(name, maxParticipants)));
            && out.reply == Ok(NewTrialId(CountCreates(h) + 1))
            && CountCreates(h) + 1 !in Run(Empty, h).trials
            && out.next.trials[CountCreates(h) + 1] == Trial(name, maxParticipants, 0)
  {
    NonceCountsCreations(h);
    RunPreservesValid(Empty, h);
  }

  /** A trial's participant count is the number of successful enrollments
      into it; no enrollment succeeds into a trial that does not exist. */
  lemma {:induction false} ParticipantsCountEnrollments(h: seq<Call>, t: TrialId)
    ensures EnrollSuccesses(Empty, h, t)
            == if t in Run(Empty, h).trials then Run(Empty, h).trials[t].currentParticipants else 0
    decreases |h|
  {
    if h != [] {
      var k := |h| - 1;
      var before := Run(Empty, h[..k]);
      ParticipantsCountEnrollments(h[..k], t);
      RunPreservesValid(Empty, h[..k]);
      var after := Step(before, h[k]).next;
      assert after == Run(Empty, h);
      match h[k].request
      case CreateTrial(_, _) =>
        if t == before.nonce + 1 {
          assert t !in before.trials;
        } else {
          assert t in after.trials <==> t in before.trials;
        }
      case EnrollPatient(u) =>
        if u != t && Step(before, h[k]).reply.Ok? {
          assert t in after.trials <==> t in before.trials;
        }
      case _ =>
    }
  }

  /** Enrolling into a trial that starts with `c` participants out of a
      capacity `m` (0 <= c <= m): after `n` attempts the count is
      min(c + n, m), and the name and capacity are untouched. */
  lemma {:induction false} FillTrial(s: Registry, h: seq<Call>, t: TrialId)
    requires AllEnroll(h, t)
    requires t in s.trials
    requires 0 <= s.trials[t].currentParticipants <= s.trials[t].maxParticipants
    ensures t in Run(s, h).trials
    ensures var before, after := s.trials[t], Run(s, h).trials[t];
            && after.name == before.name
            && after.maxParticipants == before.maxParticipants
            && after.currentParticipants
               == if before.currentParticipants + |h| <= before.maxParticipants
                  then before.currentParticipants + |h| else before.maxParticipants
    decreases |h|
  {
    if h != [] {
      var k := |h| - 1;
      assert AllEnroll(h[..k], t) by {
        forall i | 0 <= i < k ensures h[..k][i].request == EnrollPatient(t) {
          assert h[..k][i] == h[i];
        }
      }
      FillTrial(s, h[..k], t);
      assert h[k].request == EnrollPatient(t);
    }
  }

  /** Enrolling into a trial with `c` of `m` places taken: the `i`-th
      attempt succeeds exactly when c + i < m and is refused with 403
      otherwise. */
  lemma FillTrialReplies(s: Registry, h: seq<Call>, t: TrialId)
    requires AllEnroll(h, t)
    requires t in s.trials
    requires 0 <= s.trials[t].currentParticipants <= s.trials[t].maxParticipants
    ensures forall i :: 0 <= i < |h| ==>
              ReplyAt(s, h, i)
              == if s.trials[t].currentParticipants + i < s.trials[t].maxParticipants
                 then Ok(NoValue) else Err(Forbidden)
  {
    forall i | 0 <= i < |h|
      ensures ReplyAt(s, h, i)
              == if s.trials[t].currentParticipants + i < s.trials[t].maxParticipants
                 then Ok(NoValue) else Err(Forbidden)
    {
      assert AllEnroll(h[..i], t) by {
        forall j | 0 <= j < i ensures h[..i][j].request == EnrollPatient(t) {
          assert h[..i][j] == h[j];
        }
      }
      FillTrial(s, h[..i], t);
      assert h[i].request == EnrollPatient(t);
    }
  }

  /** A trial of capacity 100, freshly created, accepts the first 100 of
      101 enrollment attempts and refuses the 101st with 403, ending with
      exactly 100 participants. */
  lemma HundredAndOneEnrollments(h: seq<Call>)
    requires |h| == 101
    requires AllEnroll(h, 1)
    ensures var s := Step(Empty, Call("owner", CreateTrial("Test Trial", 100))).next;
            && (forall i :: 0 <= i < 100 ==> ReplyAt(s, h, i) == Ok(NoValue))
            && ReplyAt(s, h, 100) == Err(Forbidden)
            && Run(s, h).trials[1] == Trial("Test Trial", 100, 100)
  {
    var s := Step(Empty, Call("owner", CreateTrial("Test Trial", 100))).next;
    FillTrial(s, h, 1);
    FillTrialReplies(s, h, 1);
  }

  /** A second `give-consent` by the same caller succeeds again and changes
      nothing. */
  lemma GiveConsentIdempotent(s: Registry, sender: Identity)
    requires Step(s, Call(sender, GiveConsent)).reply.Ok?
    ensures var once := Step(s, Call(sender, GiveConsent));
            var twice := Step(once.next, Call(sender, GiveConsent));
            twice == once
  {
    var once := Step(s, Call(sender, GiveConsent));
    assert once.next.patients[sender := once.next.patients[sender]] == once.next.patients;
  }

  /** Enrolling again (into any trial with room) replaces the caller's
      record with one that has no consent: consent given earlier is lost. */
  lemma ReenrollmentClearsConsent(s: Registry, sender: Identity, t: TrialId)
    requires sender in s.patients && s.patients[sender].consentGiven
    requires t in s.trials && HasRoom(s.trials[t])
    ensures var out := Step(s, Call(sender, EnrollPatient(t)));
            && out.reply.Ok?
            && !out.next.patients[sender].consentGiven
  {
  }

  /** The contract's example runs: the first trial gets id 1 and is stored
      with no participants; enrolling, consenting and reading back the
      patient record yields enrolled with consent. */
  lemma ExampleRuns()
    ensures Step(Empty, Call("owner", CreateTrial("Test Trial", 100))).reply == Ok(NewTrialId(1))
    ensures var h := [Call("owner", CreateTrial("Test Trial", 100))];
            Step(Run(Empty, h), Call("anyone", GetTrialData(1))).reply
            == Ok(TrialData(Some(Trial("Test Trial", 100, 0))))
    ensures var h := [Call("owner", CreateTrial("Test Trial", 100))];
            Step(Run(Empty, h), Call("patient1", EnrollPatient(1))).reply == Ok(NoValue)
    ensures var h := [Call("owner", CreateTrial("Test Trial", 100)), Call("patient1", EnrollPatient(1))];
            Step(Run(Empty, h), Call("patient1", GiveConsent)).reply == Ok(NoValue)
    ensures var h := [Call("owner", CreateTrial("Test Trial", 100)), Call("patient1", EnrollPatient(1)),
                      Call("patient1", GiveConsent)];
            Step(Run(Empty, h), Call("anyone", GetPatientData("patient1"))).reply
            == Ok(PatientData(Some(Patient(true, true))))
  {
  }
}
