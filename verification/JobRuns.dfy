/** The two views of a worker agree: what `RunOnce` leaves behind is what a run of the interleaved steps
    leaves behind, from any state of the queue. */
module JobRuns {
  import opened Basics
  import opened JobQueue
  import opened JobWorker

  lemma {:induction false} RunConcat(q: Queue, a: seq<Event>, b: seq<Event>)
    ensures Run(q, a + b) == Run(Run(q, a), b)
    decreases |a|
  {
    if a == [] {
      assert a + b == b;
    } else {
      assert (a + b)[1..] == a[1..] + b;
      RunConcat(Step(q, a[0]), a[1..], b);
    }
  }

  lemma RunTwo(q: Queue, e: Event, f: Event)
    ensures Run(q, [e]) == Step(q, e) && Run(q, [e, f]) == Step(Step(q, e), f)
  {
    assert [e][1..] == [] && [e, f][1..] == [f] && [f][1..] == [];
    assert Run(q, [e, f]) == Run(Step(q, e), [f]);
  }

  /** The claim loop from a given list of names on: it claims the first one still pending, or stops. */
  lemma {:induction false} ScanRun(q: Queue, w: Worker, names: seq<Id>) returns (events: seq<Event>)
    ensures Run(q.Go(w, Scanning(names)), events) ==
              match FirstPending(names, q.markers)
              case None => q.Stop(w)
              case Some(job) => Claim(q, w, job)
    decreases |names|
  {
    var r := q.Go(w, Scanning(names));
    if names == [] || q.In(Pending, names[0]) {
      events := [TryNext(w)];
      RunTwo(r, TryNext(w), TryNext(w));
      if names == [] {
        assert r.workers - {w} == q.workers - {w};
      } else {
        assert r.workers[w := Claimed(names[0])] == q.workers[w := Claimed(names[0])];
      }
    } else {
      var rest := ScanRun(q, w, names[1..]);
      events := [TryNext(w)] + rest;
      assert r.workers[w := Scanning(names[1..])] == q.workers[w := Scanning(names[1..])];
      RunConcat(r, [TryNext(w)], rest);
      RunTwo(r, TryNext(w), TryNext(w));
    }
  }

  /** A claimed job worked on, concluded and moved, without interruption. */
  lemma FinishRun(q: Queue, w: Worker, job: Id, ending: Ending)
    requires q.In(Pending, job) && job in q.jobs && w !in q.workers
    ensures var r := Run(Claim(q, w, job), [MarkPreparing(w), Conclude(w, ending)] + [MoveMarker(w)]);
            && r.jobs == q.jobs[job := FinalStatus(ending)]
            && r.markers == q.markers - {(Pending, job)} - {(Processing, job)} + {(FinalPlace(ending), job)}
            && r.workers == q.workers && r.unplaced == q.unplaced && r.claims == q.claims + [(w, job)]
  {
    var c := Claim(q, w, job);
    var prepared := Step(c, MarkPreparing(w));
    var concluded := Step(prepared, Conclude(w, ending));
    RunConcat(c, [MarkPreparing(w), Conclude(w, ending)], [MoveMarker(w)]);
    RunTwo(c, MarkPreparing(w), Conclude(w, ending));
    RunTwo(concluded, MoveMarker(w), MoveMarker(w));
    assert concluded.workers[w] == Moving(job, ending);
    assert concluded.jobs == q.jobs[job := FinalStatus(ending)];
    assert concluded.workers - {w} == q.workers;
  }

  /** For every state of the queue, an idle worker, any listing of the pending directory and any
      attempt: some run of the interleaved steps changes jobs and markers as `RunOnce` does, and
      leaves nothing of the worker but its claim. */
  lemma RunOnceIsARun(q: Queue, w: Worker, names: seq<Id>, attempt: Attempt) returns (events: seq<Event>)
    requires Inv(q) && w !in q.workers && Sane(attempt)
    ensures var r, first := Run(q, events), FirstPending(names, q.markers);
            && r.workers == q.workers && r.unplaced == q.unplaced
            && (first.None? ==> r == q)
            && (first.Some? ==>
                  && r.jobs == q.jobs[first.value := FinalStatus(EndingOf(attempt))]
                  && r.markers == q.markers - {(Pending, first.value)} + {(FinalPlace(EndingOf(attempt)), first.value)}
                  && r.claims == q.claims + [(w, first.value)])
  {
    var scan := ScanRun(q, w, names);
    var start := [StartRun(w, names)] + scan;
    RunConcat(q, [StartRun(w, names)], scan);
    RunTwo(q, StartRun(w, names), StartRun(w, names));
    var first := FirstPending(names, q.markers);
    if first.None? {
      events := start;
      assert q.workers - {w} == q.workers;
    } else {
      var ending := EndingOf(attempt);
      var finish := [MarkPreparing(w), Conclude(w, ending)] + [MoveMarker(w)];
      events := start + finish;
      RunConcat(q, start, finish);
      assert q.In(Pending, first.value);
      assert !q.In(Processing, first.value);
      FinishRun(q, w, first.value, ending);
    }
  }
}
