/** research/gemini_vps_web_worker/storage.py and worker.py as objects updated in place: the job
    store on disk and one worker's `run_once`, on every exit path. */
module JobWorker {
  import opened Basics
  import opened JobQueue
  import C = Composite

  class JobStore {
    var directories: set<Id>               // the job directories
    var jobs: map<Id, Status>              // job.json of each job
    var markers: set<(Place, Id)>          // the queue directories
    var candidates: map<Id, bool>          // metadata["training_candidate"] of each job

    constructor ()
      ensures directories == {} && jobs == map[] && markers == {} && candidates == map[] && Consistent()
    {
      directories, jobs, markers, candidates := {}, map[], {}, map[];
    }

    /** Every job has its directory; every marker has its job, in one place, with a status that belongs
        there. */
    ghost predicate Consistent()
      reads this
    {
      && jobs.Keys <= directories
      && (forall p, j :: (p, j) in markers ==> j in jobs && Belongs(jobs[j], p))
      && (forall p, r, j :: (p, j) in markers && (r, j) in markers ==> p == r)
    }

    /** A new job is queued once and an existing one returned untouched. An empty upload raises, but
        leaves a directory behind, and any later upload under its id raises too. */
    method Create(job: Id, bytes: nat) returns (outcome: Creation)
      requires Consistent()
      modifies this
      ensures Consistent() && candidates == old(candidates) && directories == old(directories) + {job}
      ensures outcome == if job in old(jobs) then Existing else if job in old(directories) then DirectoryInTheWay
                         else if bytes == 0 then EmptyUpload else Created
      ensures outcome == Created ==> jobs == old(jobs)[job := Queued] && markers == old(markers) + {(Pending, job)}
      ensures outcome != Created ==> jobs == old(jobs) && markers == old(markers)
    {
      if job in directories {
        return if job in jobs then Existing else DirectoryInTheWay;
      }
      directories := directories + {job};
      if bytes == 0 { return EmptyUpload; }
      jobs := jobs[job := Queued];
      markers := markers + {(Pending, job)};
      return Created;
    }

    method Update(job: Id, status: Status)
      modifies `jobs
      ensures jobs == old(jobs)[job := status]
    {
      jobs := jobs[job := status];
    }

    /** Claims the first of the listed names still pending; names already taken are skipped. */
    method ClaimNext(names: seq<Id>) returns (job: Option<Id>)
      requires Consistent()
      modifies `jobs, `markers
      ensures job == FirstPending(names, old(markers))
      ensures job.None? ==> jobs == old(jobs) && markers == old(markers)
      ensures job.Some? ==> job.value in old(jobs) && jobs == old(jobs)[job.value := Preparing]
                            && markers == old(markers) - {(Pending, job.value)} + {(Processing, job.value)}
    {
      for k := 0 to |names|
        invariant jobs == old(jobs) && markers == old(markers)
        invariant FirstPending(names, markers) == FirstPending(names[k..], markers)
      {
        if (Pending, names[k]) in markers {
          markers := markers - {(Pending, names[k])} + {(Processing, names[k])};
          if names[k] in jobs {
            Update(names[k], Preparing);
            return Some(names[k]);
          }
        }
      }
      return None;
    }

    method MoveMarker(job: Id, place: Place)
      modifies `markers
      ensures markers == if (Processing, job) in old(markers)
                         then old(markers) - {(Processing, job)} + {(place, job)} else old(markers)
    {
      if (Processing, job) in markers {
        markers := markers - {(Processing, job)} + {(place, job)};
      }
    }
  }

  function FirstPending(names: seq<Id>, markers: set<(Place, Id)>): (first: Option<Id>)
    ensures first.Some? ==> first.value in names && (Pending, first.value) in markers
    ensures first.None? ==> forall j :: j in names ==> (Pending, j) !in markers
  {
    if names == [] then None
    else if (Pending, names[0]) in markers then Some(names[0]) else FirstPending(names[1..], markers)
  }

  /** How a creation ends; all but the first two stand for exceptions. */
  datatype Creation = Created | Existing | DirectoryInTheWay | EmptyUpload

  /** What an exception is to the `except` clauses. */
  datatype Exn = LoginNeeded | ValueProblem | OtherProblem

  /** What happens inside the `try` block: the input, the provider or the validation raises, or a
      picture comes back whose validation reads everything it asks for. */
  datatype Attempt =
    | InputRaises(exn: Exn)
    | ProviderRaises(exn: Exn)
    | ValidationRaises(exn: Exn)
    | Returned(submission: C.Submission)

  ghost predicate Sane(a: Attempt) { a.Returned? ==> a.submission.Valid() }

  /** A picture that does not decode, or a needed mask that does not fit its page: a ValueError. */
  predicate Unusable(s: C.Submission)
    requires s.rawHeight > 0 && s.original.height > 0
  {
    !s.sfxProtected && (!s.rawDecodes || (!s.rawTransparent && s.mask.Some? && s.SameShape() && s.Placed().Err?))
  }

  ghost function Raised(a: Attempt): Option<Exn>
    requires Sane(a)
  {
    if !a.Returned? then Some(a.exn) else if Unusable(a.submission) then Some(ValueProblem) else None
  }

  /** The result of validating what came back. */
  ghost predicate Succeeds(a: Attempt)
    requires Sane(a)
  {
    && a.Returned?
    && (var s := a.submission;
        && !s.sfxProtected && s.rawDecodes && !s.rawTransparent && s.mask.Some? && s.SameShape() && s.Placed().Ok?
        && s.identity.Complete() && s.seamPass && s.textRemoval == C.Pass)
  }

  /** The `except` clause that catches an exception. */
  function Caught(exn: Exn): Ending {
    match exn
    case LoginNeeded => AuthNeeded
    case ValueProblem => Invalid
    case OtherProblem => Crashed
  }

  /** How a claimed job ends. */
  ghost function EndingOf(a: Attempt): (ending: Ending)
    requires Sane(a)
    ensures ending == Accepted <==> Succeeds(a)
    ensures ending == AuthNeeded <==> Raised(a) == Some(LoginNeeded)
    ensures ending == Invalid <==> Raised(a) == Some(ValueProblem)
    ensures ending == Crashed <==> Raised(a) == Some(OtherProblem)
  {
    if Raised(a).Some? then Caught(Raised(a).value) else if Succeeds(a) then Accepted else NeedsReview
  }

  /** The validation of what came back; None stands for its ValueError. */
  method Judge(s: C.Submission) returns (validation: Option<C.Validation>)
    requires s.Valid()
    ensures validation.None? <==> Raised(Returned(s)).Some?
    ensures EndingOf(Returned(s)) == if validation.None? then Invalid
                                     else if validation.value.quality == C.Acceptable then Accepted else NeedsReview
    ensures validation.Some? ==> (C.TrainingCandidate(validation.value) <==> validation.value.quality == C.Acceptable)
  {
    var v, _ := C.ValidateAndComposite(s);
    validation := if v.Err? then None else Some(v.value);
  }

  /** The status and the directory a job ends with, by what was raised or validated. */
  ghost predicate EndsAs(status: Status, markers: set<(Place, Id)>, job: Id, a: Attempt)
    requires Sane(a)
  {
    var raised := Raised(a);
    && (raised == Some(LoginNeeded) ==> status == AuthInteractionRequired && (FailedDir, job) in markers)
    && (raised == Some(ValueProblem) ==> status == ReviewRequired && (ReviewDir, job) in markers)
    && (raised == Some(OtherProblem) ==> status == Failed && (FailedDir, job) in markers)
    && (raised == None && Succeeds(a) ==> status == Completed && (CompletedDir, job) in markers)
    && (raised == None && !Succeeds(a) ==> status == ReviewRequired && (ReviewDir, job) in markers)
  }

  class JobRunner {
    const store: JobStore

    constructor (store: JobStore)
      ensures this.store == store
    {
      this.store := store;
    }

    /** The `try` block after the claim: intermediate statuses, then how it ends. */
    method Work(job: Id, attempt: Attempt) returns (ending: Ending)
      requires Sane(attempt) && job in store.jobs
      modifies store`jobs, store`candidates
      ensures job in store.jobs && store.jobs == old(store.jobs)[job := store.jobs[job]]
      ensures ending == EndingOf(attempt)
      ensures store.candidates == if Raised(attempt).Some? then old(store.candidates)
                                  else old(store.candidates)[job := ending == Accepted]
    {
      if attempt.InputRaises? { return Caught(attempt.exn); }
      store.Update(job, Uploading);
      if attempt.ProviderRaises? { return Caught(attempt.exn); }
      ending := Recover(job, attempt);
    }

    /** What the `try` block does once the provider has returned. */
    method Recover(job: Id, attempt: Attempt) returns (ending: Ending)
      requires Sane(attempt) && job in store.jobs && !attempt.InputRaises? && !attempt.ProviderRaises?
      modifies store`jobs, store`candidates
      ensures job in store.jobs && store.jobs == old(store.jobs)[job := store.jobs[job]]
      ensures ending == EndingOf(attempt)
      ensures store.candidates == if Raised(attempt).Some? then old(store.candidates)
                                  else old(store.candidates)[job := ending == Accepted]
    {
      store.Update(job, RecoveringOutput);
      store.Update(job, Aligning);
      store.Update(job, Compositing);
      if attempt.ValidationRaises? { return Caught(attempt.exn); }
      ending := Validate(job, attempt.submission);
    }

    /** What the `try` block does with a picture that came back. */
    method Validate(job: Id, submission: C.Submission) returns (ending: Ending)
      requires submission.Valid() && job in store.jobs
      modifies store`jobs, store`candidates
      ensures job in store.jobs && store.jobs == old(store.jobs)[job := store.jobs[job]]
      ensures ending == EndingOf(Returned(submission))
      ensures store.candidates == if Raised(Returned(submission)).Some? then old(store.candidates)
                                  else old(store.candidates)[job := ending == Accepted]
    {
      var validation := Judge(submission);
      if validation.None? { return Caught(ValueProblem); }
      store.Update(job, Validating);
      store.candidates := store.candidates[job := C.TrainingCandidate(validation.value)];
      ending := if validation.value.quality == C.Acceptable then Accepted else NeedsReview;
    }

    /** From a claimed job to its final status and directory. */
    method Finish(job: Id, attempt: Attempt) returns (ending: Ending)
      requires Sane(attempt) && job in store.jobs && (Processing, job) in store.markers
      modifies store`jobs, store`markers, store`candidates
      ensures ending == EndingOf(attempt)
      ensures store.jobs == old(store.jobs)[job := FinalStatus(ending)]
      ensures store.markers == old(store.markers) - {(Processing, job)} + {(FinalPlace(ending), job)}
      ensures store.candidates == if Raised(attempt).Some? then old(store.candidates)
                                  else old(store.candidates)[job := ending == Accepted]
    {
      ending := Work(job, attempt);
      store.Update(job, FinalStatus(ending));
      store.MoveMarker(job, FinalPlace(ending));
    }

    /** `run_once`: None when nothing was pending. Otherwise the first pending job listed leaves pending for
        the directory its final status belongs to, on every exit path, and ends as its attempt says:
        COMPLETED exactly when everything the training decision asks for holds, and then, and on a
        review for quality, the decision recorded says which. Nothing else changes. */
    method RunOnce(names: seq<Id>, attempt: Attempt) returns (ending: Option<Ending>)
      requires store.Consistent() && Sane(attempt)
      modifies store`jobs, store`markers, store`candidates
      ensures store.Consistent()
      ensures ending == if FirstPending(names, old(store.markers)).None? then None else Some(EndingOf(attempt))
      ensures ending.None? ==>
                && store.jobs == old(store.jobs) && store.markers == old(store.markers)
                && store.candidates == old(store.candidates)
      ensures ending.Some? ==>
                var job := FirstPending(names, old(store.markers)).value;
                && store.jobs == old(store.jobs)[job := FinalStatus(ending.value)]
                && store.markers == old(store.markers) - {(Pending, job)} + {(FinalPlace(ending.value), job)}
                && EndsAs(store.jobs[job], store.markers, job, attempt)
                && store.candidates == if Raised(attempt).Some? then old(store.candidates)
                                       else old(store.candidates)[job := Succeeds(attempt)]
    {
      var claimed := store.ClaimNext(names);
      if claimed.None? { return None; }
      var job := claimed.value;
      assert (Processing, job) !in old(store.markers);
      var end := Finish(job, attempt);
      assert store.markers == old(store.markers) - {(Pending, job)} + {(FinalPlace(end), job)};
      ending := Some(end);
    }
  }
}
