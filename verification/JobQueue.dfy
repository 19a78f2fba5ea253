/** research/gemini_vps_web_worker/storage.py and worker.py: a job queue of marker files claimed by
    renaming, shared by any number of workers.

    A rename is one atomic step and so is placing a new marker; every other step of a worker may
    interleave with the steps of the others. */
module JobQueue {

  type Id = string
  type Worker = nat

  datatype Status =
    | Queued | Preparing | Uploading | RecoveringOutput | Aligning | Compositing | Validating
    | Completed | ReviewRequired | Failed | AuthInteractionRequired

  datatype Place = Pending | Processing | CompletedDir | ReviewDir | FailedDir

  /** How `run_once` can end, in the order of its exit paths. */
  datatype Ending = Accepted | NeedsReview | AuthNeeded | Invalid | Crashed

  function FinalStatus(e: Ending): Status {
    match e
    case Accepted => Completed
    case NeedsReview => ReviewRequired
    case AuthNeeded => AuthInteractionRequired
    case Invalid => ReviewRequired
    case Crashed => Failed
  }

  function FinalPlace(e: Ending): Place {
    match e
    case Accepted => CompletedDir
    case NeedsReview => ReviewDir
    case AuthNeeded => FailedDir
    case Invalid => ReviewDir
    case Crashed => FailedDir
  }

  predicate Final(p: Place) { p != Pending && p != Processing }

  /** A job in a final directory has a status that belongs there. */
  predicate Belongs(status: Status, place: Place) {
    match place
    case CompletedDir => status == Completed
    case ReviewDir => status == ReviewRequired
    case FailedDir => status == Failed || status == AuthInteractionRequired
    case Pending => status == Queued
    case Processing => true
  }

  predicate Working(s: Status) { s in {Uploading, RecoveringOutput, Aligning, Compositing, Validating} }

  /** Where a worker is in `run_once`. */
  datatype Phase =
    | Scanning(names: seq<Id>)             // in `claim_next`, over a snapshot of the pending directory
    | Claimed(job: Id)                     // the rename succeeded
    | Busy(job: Id)                        // in the `try` block
    | Moving(job: Id, ending: Ending)      // final status written, marker still to move

  /** `(p, j) in markers`: directory p holds the marker of job j. `unplaced` are jobs written to disk
      whose marker is not placed yet; `claims` is the history of successful claims. */
  datatype Queue = Queue(
    jobs: map<Id, Status>, unplaced: set<Id>, markers: set<(Place, Id)>,
    workers: map<Worker, Phase>, claims: seq<(Worker, Id)>)
  {
    predicate In(p: Place, j: Id) { (p, j) in markers }

    predicate Placed(j: Id) {
      In(Pending, j) || In(Processing, j) || In(CompletedDir, j) || In(ReviewDir, j) || In(FailedDir, j)
    }

    predicate Holds(w: Worker, j: Id) { w in workers && !workers[w].Scanning? && workers[w].job == j }

    /** `os.replace` of a marker from one directory to another. */
    function Rename(j: Id, from: Place, to: Place): Queue { this.(markers := markers - {(from, j)} + {(to, j)}) }

    function Set(j: Id, status: Status): Queue { this.(jobs := jobs[j := status]) }

    function Go(w: Worker, phase: Phase): Queue { this.(workers := workers[w := phase]) }

    function Stop(w: Worker): Queue { this.(workers := workers - {w}) }
  }

  datatype Event =
    | Create(job: Id)
    | PlaceMarker(job: Id)
    | StartRun(worker: Worker, snapshot: seq<Id>)
    | TryNext(worker: Worker)
    | MarkPreparing(worker: Worker)
    | Progress(worker: Worker, status: Status)
    | Conclude(worker: Worker, ending: Ending)
    | MoveMarker(worker: Worker)

  function Step(q: Queue, e: Event): Queue {
    match e
    case Create(job) =>
      // an existing job is returned as it is
      if job in q.jobs then q else q.Set(job, Queued).(unplaced := q.unplaced + {job})
    case PlaceMarker(job) =>
      if job !in q.unplaced then q else q.(unplaced := q.unplaced - {job}, markers := q.markers + {(Pending, job)})
    case StartRun(w, snapshot) => if w in q.workers then q else q.Go(w, Scanning(snapshot))
    case TryNext(w) => if w in q.workers && q.workers[w].Scanning? then ScanStep(q, w) else q
    case MarkPreparing(w) =>
      if w in q.workers && q.workers[w].Claimed? && q.workers[w].job in q.jobs
      then q.Set(q.workers[w].job, Preparing).Go(w, Busy(q.workers[w].job)) else q
    case Progress(w, status) =>
      if w in q.workers && q.workers[w].Busy? && Working(status) then q.Set(q.workers[w].job, status) else q
    case Conclude(w, ending) =>
      if w in q.workers && q.workers[w].Busy?
      then q.Set(q.workers[w].job, FinalStatus(ending)).Go(w, Moving(q.workers[w].job, ending)) else q
    case MoveMarker(w) => if w in q.workers && q.workers[w].Moving? then MoveStep(q, w) else q
  }

  /** One name of the claim loop: a missing file is skipped. */
  function ScanStep(q: Queue, w: Worker): Queue
    requires w in q.workers && q.workers[w].Scanning?
  {
    var names := q.workers[w].names;
    if names == [] then q.Stop(w)
    else if q.In(Pending, names[0]) then Claim(q, w, names[0])
    else q.Go(w, Scanning(names[1..]))
  }

  function Claim(q: Queue, w: Worker, job: Id): Queue {
    q.Rename(job, Pending, Processing).Go(w, Claimed(job)).(claims := q.claims + [(w, job)])
  }

  function MoveStep(q: Queue, w: Worker): Queue
    requires w in q.workers && q.workers[w].Moving?
  {
    var job := q.workers[w].job;
    (if q.In(Processing, job) then q.Rename(job, Processing, FinalPlace(q.workers[w].ending)) else q).Stop(w)
  }

  // ---- the invariant --------------------------------------------------------------------------------

  /** Every job is waiting for its marker or has it in exactly one directory. */
  ghost predicate OnePlace(q: Queue) {
    && (forall p, j :: q.In(p, j) ==> j in q.jobs && j !in q.unplaced)
    && (forall p, r, j :: q.In(p, j) && q.In(r, j) ==> p == r)
    && (forall j :: j in q.jobs && j !in q.unplaced ==> q.Placed(j))
    && (forall j :: j in q.unplaced ==> j in q.jobs)
  }

  ghost predicate StatusesBelong(q: Queue) {
    && (forall p, j :: q.In(p, j) ==> j in q.jobs && Belongs(q.jobs[j], p))
    && (forall j :: j in q.unplaced ==> j in q.jobs && q.jobs[j] == Queued)
    && (forall w, j :: q.Holds(w, j) && q.workers[w].Moving? ==>
          j in q.jobs && q.jobs[j] == FinalStatus(q.workers[w].ending))
  }

  /** What a worker holds is in processing, and nobody else holds it. */
  ghost predicate HeldOnce(q: Queue) {
    && (forall w, j :: q.Holds(w, j) ==> q.In(Processing, j))
    && (forall v, w, j :: q.Holds(v, j) && q.Holds(w, j) ==> v == w)
  }

  ghost predicate HeldBySomeone(q: Queue) {
    forall j :: q.In(Processing, j) ==> exists w :: q.Holds(w, j)
  }

  /** A claimed job is past pending, and claimed once. */
  ghost predicate ClaimedOnce(q: Queue) {
    && (forall c :: c in q.claims ==> !q.In(Pending, c.1) && c.1 !in q.unplaced && c.1 in q.jobs)
    && (forall i, k :: 0 <= i < k < |q.claims| ==> q.claims[i].1 != q.claims[k].1)
  }

  ghost predicate Inv(q: Queue) {
    OnePlace(q) && StatusesBelong(q) && HeldOnce(q) && HeldBySomeone(q) && ClaimedOnce(q)
  }

  const EMPTY := Queue(map[], {}, {}, map[], [])

  lemma CreateKeepsInv(q: Queue, job: Id)
    requires Inv(q)
    ensures Inv(Step(q, Create(job)))
  {
    var r := Step(q, Create(job));
    assert forall p, j :: r.In(p, j) <==> q.In(p, j);
    assert forall w, j :: r.Holds(w, j) <==> q.Holds(w, j);
    assert forall j :: q.Placed(j) <==> r.Placed(j);
    forall j | r.In(Processing, j) ensures exists w :: r.Holds(w, j) { var w :| q.Holds(w, j); assert r.Holds(w, j); }
  }

  lemma PlaceKeepsInv(q: Queue, job: Id)
    requires Inv(q)
    ensures Inv(Step(q, PlaceMarker(job)))
  {
    var r := Step(q, PlaceMarker(job));
    assert forall p, j :: r.In(p, j) <==> q.In(p, j) || (job in q.unplaced && (p, j) == (Pending, job));
    assert forall w, j :: r.Holds(w, j) <==> q.Holds(w, j);
    assert job in q.unplaced ==> r.Placed(job);
    assert forall j :: q.Placed(j) ==> r.Placed(j);
    forall j | r.In(Processing, j) ensures exists w :: r.Holds(w, j) {
      assert q.In(Processing, j);
      var w :| q.Holds(w, j);
      assert r.Holds(w, j);
    }
  }

  /** A worker changing only its phase, holding what it held. */
  lemma PhaseKeepsInv(q: Queue, r: Queue, w: Worker)
    requires Inv(q) && r.(workers := q.workers) == q
    requires forall v :: v != w ==>
               (v in r.workers <==> v in q.workers) && (v in q.workers ==> r.workers[v] == q.workers[v])
    requires forall j :: !r.Holds(w, j) && !q.Holds(w, j)
    ensures Inv(r)
  {
    assert forall v, j :: r.Holds(v, j) <==> q.Holds(v, j);
    assert forall p, j :: r.In(p, j) <==> q.In(p, j);
    assert forall j :: r.Placed(j) <==> q.Placed(j);
    forall j | r.In(Processing, j) ensures exists v :: r.Holds(v, j) { var v :| q.Holds(v, j); assert r.Holds(v, j); }
  }

  /** A worker writing the status of the job it holds. */
  lemma StatusKeepsInv(q: Queue, w: Worker, job: Id, status: Status, phase: Phase)
    requires Inv(q) && q.Holds(w, job) && !phase.Scanning? && phase.job == job
    requires phase.Moving? ==> status == FinalStatus(phase.ending)
    ensures Inv(q.Set(job, status).Go(w, phase))
  {
    var r := q.Set(job, status).Go(w, phase);
    assert forall v, j :: r.Holds(v, j) <==> q.Holds(v, j);
    assert forall p, j :: r.In(p, j) <==> q.In(p, j);
    assert forall j :: r.Placed(j) <==> q.Placed(j);
    forall j | r.In(Processing, j) ensures exists v :: r.Holds(v, j) { var v :| q.Holds(v, j); assert r.Holds(v, j); }
  }

  lemma ClaimKeepsInv(q: Queue, w: Worker, job: Id)
    requires Inv(q) && w in q.workers && q.workers[w].Scanning? && q.In(Pending, job)
    ensures Inv(Claim(q, w, job))
  {
    var r := Claim(q, w, job);
    assert forall p, j :: r.In(p, j) <==> (q.In(p, j) && (p, j) != (Pending, job)) || (p, j) == (Processing, job);
    assert forall v, j :: r.Holds(v, j) <==> q.Holds(v, j) || (v == w && j == job);
    assert forall j :: q.Placed(j) ==> r.Placed(j);
    forall j | r.In(Processing, j) ensures exists v :: r.Holds(v, j) {
      if j == job { assert r.Holds(w, j); } else { var v :| q.Holds(v, j); assert r.Holds(v, j); }
    }
  }

  lemma MoveKeepsInv(q: Queue, w: Worker)
    requires Inv(q) && w in q.workers && q.workers[w].Moving?
    ensures Inv(MoveStep(q, w))
  {
    var r, job, place := MoveStep(q, w), q.workers[w].job, FinalPlace(q.workers[w].ending);
    assert q.Holds(w, job);
    assert forall p, j :: r.In(p, j) <==> (q.In(p, j) && (p, j) != (Processing, job)) || (p, j) == (place, job);
    assert forall v, j :: r.Holds(v, j) <==> q.Holds(v, j) && v != w;
    assert forall j :: q.Placed(j) ==> r.Placed(j);
    forall j | r.In(Processing, j) ensures exists v :: r.Holds(v, j) { var v :| q.Holds(v, j); assert r.Holds(v, j); }
  }

  lemma StepKeepsInv(q: Queue, e: Event)
    requires Inv(q)
    ensures Inv(Step(q, e))
  {
    match e
    case Create(job) => CreateKeepsInv(q, job);
    case PlaceMarker(job) => PlaceKeepsInv(q, job);
    case StartRun(w, snapshot) => if w !in q.workers { PhaseKeepsInv(q, Step(q, e), w); }
    case TryNext(w) =>
      if w in q.workers && q.workers[w].Scanning? {
        if q.workers[w].names != [] && q.In(Pending, q.workers[w].names[0]) {
          ClaimKeepsInv(q, w, q.workers[w].names[0]);
        } else {
          PhaseKeepsInv(q, Step(q, e), w);
        }
      }
    case MarkPreparing(w) =>
      if w in q.workers && q.workers[w].Claimed? {
        StatusKeepsInv(q, w, q.workers[w].job, Preparing, Busy(q.workers[w].job));
      }
    case Progress(w, status) =>
      if w in q.workers && q.workers[w].Busy? { ProgressKeepsInv(q, w, status); }
    case Conclude(w, ending) =>
      if w in q.workers && q.workers[w].Busy? {
        StatusKeepsInv(q, w, q.workers[w].job, FinalStatus(ending), Moving(q.workers[w].job, ending));
      }
    case MoveMarker(w) => if w in q.workers && q.workers[w].Moving? { MoveKeepsInv(q, w); }
  }

  lemma ProgressKeepsInv(q: Queue, w: Worker, status: Status)
    requires Inv(q) && w in q.workers && q.workers[w].Busy?
    ensures Inv(q.Set(q.workers[w].job, status))
  {
    StatusKeepsInv(q, w, q.workers[w].job, status, q.workers[w]);
    assert q.workers[w := q.workers[w]] == q.workers;
  }

  function Run(q: Queue, events: seq<Event>): Queue
    decreases |events|
  {
    if events == [] then q else Run(Step(q, events[0]), events[1..])
  }

  lemma {:induction false} RunKeepsInv(q: Queue, events: seq<Event>)
    requires Inv(q)
    ensures Inv(Run(q, events))
    decreases |events|
  {
    if events != [] {
      StepKeepsInv(q, events[0]);
      RunKeepsInv(Step(q, events[0]), events[1..]);
    }
  }

  /** A new job waits in pending once its marker is placed; creating it again changes nothing. */
  lemma CreatedJobWaits(q: Queue, job: Id)
    requires Inv(q)
    ensures job in q.jobs ==> Step(q, Create(job)) == q
    ensures job !in q.jobs ==>
              var r := Step(Step(q, Create(job)), PlaceMarker(job));
              && r.jobs == q.jobs[job := Queued] && r.markers == q.markers + {(Pending, job)}
              && r.unplaced == q.unplaced && r.workers == q.workers && r.claims == q.claims
  {
    if job !in q.jobs { assert q.unplaced + {job} - {job} == q.unplaced; }
  }

  /** A busy worker writes the intermediate statuses it reaches, and no final one. */
  lemma ProgressExactly(q: Queue, w: Worker, status: Status)
    ensures var r := Step(q, Progress(w, status));
            if w in q.workers && q.workers[w].Busy?
               && status !in {Queued, Preparing, Completed, ReviewRequired, Failed, AuthInteractionRequired}
            then r == q.(jobs := q.jobs[q.workers[w].job := status]) else r == q
  {}

  // ---- what holds in every interleaving --------------------------------------------------------------

  /** Every marker is in exactly one of the five directories; a final directory agrees with the job's
      status; every job in processing is held by exactly one worker; no job is claimed twice. */
  lemma EveryInterleaving(events: seq<Event>)
    ensures var q := Run(EMPTY, events);
            && (forall j :: j in q.jobs && j !in q.unplaced ==> q.Placed(j))
            && (forall p, r, j :: q.In(p, j) && q.In(r, j) ==> p == r)
            && (forall p, j :: q.In(p, j) ==> j in q.jobs && Belongs(q.jobs[j], p))
            && (forall j :: q.In(Processing, j) ==> exists w :: q.Holds(w, j))
            && (forall v, w, j :: q.Holds(v, j) && q.Holds(w, j) ==> v == w)
            && (forall i, k :: 0 <= i < k < |q.claims| ==> q.claims[i].1 != q.claims[k].1)
  {
    RunKeepsInv(EMPTY, events);
  }

  /** A finished job stays where it is, with the status it has, whatever happens later. */
  lemma {:induction false} FinishedForGood(q: Queue, events: seq<Event>, p: Place, job: Id)
    requires Inv(q) && Final(p) && q.In(p, job)
    ensures var r := Run(q, events); r.In(p, job) && job in r.jobs && job in q.jobs && r.jobs[job] == q.jobs[job]
    decreases |events|
  {
    if events != [] {
      StepKeepsInv(q, events[0]);
      FinishedStays(q, events[0], p, job);
      FinishedForGood(Step(q, events[0]), events[1..], p, job);
    }
  }

  lemma FinishedStays(q: Queue, e: Event, p: Place, job: Id)
    requires Inv(q) && Final(p) && q.In(p, job)
    ensures var r := Step(q, e); r.In(p, job) && job in r.jobs && job in q.jobs && r.jobs[job] == q.jobs[job]
  {
    assert !q.In(Processing, job) && !q.In(Pending, job);
    forall w ensures !q.Holds(w, job) { assert q.Holds(w, job) ==> q.In(Processing, job); }
    if e.TryNext? && e.worker in q.workers && q.workers[e.worker].Scanning? { assert Step(q, e).In(p, job); }
    if e.MoveMarker? && e.worker in q.workers && q.workers[e.worker].Moving? {
      assert q.Holds(e.worker, q.workers[e.worker].job);
    }
    if e.MarkPreparing? || e.Progress? || e.Conclude? {
      if e.worker in q.workers && !q.workers[e.worker].Scanning? { assert q.Holds(e.worker, q.workers[e.worker].job); }
    }
  }
}
