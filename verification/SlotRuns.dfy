/** The two views of a browser call agree: what `SubmitAndRecover` leaves behind is what a run of the
    interleaved steps leaves behind, from any state of the pool. */
module SlotRuns {
  import opened SlotPool
  import opened SlotManager

  lemma {:induction false} RunConcat(p: Pool, a: seq<Event>, b: seq<Event>)
    requires InRange(p)
    ensures Run(p, a + b) == Run(Run(p, a), b)
    decreases |a|
  {
    if a == [] {
      assert a + b == b;
    } else {
      assert (a + b)[1..] == a[1..] + b;
      RunConcat(Step(p, a[0]), a[1..], b);
    }
  }

  lemma RunOne(p: Pool, e: Event)
    requires InRange(p)
    ensures Run(p, [e]) == Step(p, e)
  {
    assert [e][1..] == [];
  }

  /** The slot of a call after its first n slot calls. */
  function After(slot: Slot, n: nat): Slot {
    slot.(state := StateAt(n), generation := slot.generation + (if n >= 4 then 1 else 0))
  }

  lemma {:induction false} Proceeds(p: Pool, w: nat, n: nat) returns (events: seq<Event>)
    requires InRange(p) && w in p.calls && p.calls[w] == Trying(p.calls[w].slot, 0) && n <= LAST_STAGE
    requires p.slots[p.calls[w].slot].state == Acquired
    ensures var q, i := Run(p, events), p.calls[w].slot;
            && q.slots == p.slots[i := After(p.slots[i], n)] && q.calls == p.calls[w := Trying(i, n)]
  {
    var i := p.calls[w].slot;
    if n == 0 {
      events := [];
      assert p.calls[w := Trying(i, 0)] == p.calls && p.slots[i := After(p.slots[i], 0)] == p.slots;
    } else {
      var earlier := Proceeds(p, w, n - 1);
      events := earlier + [Proceed(w)];
      RunConcat(p, earlier, [Proceed(w)]);
      RunOne(Run(p, earlier), Proceed(w));
    }
  }

  /** How a call ends after its slot calls. */
  function Tail(w: nat, script: Script): seq<Event> {
    match OutcomeOf(script)
    case Success => [Proceed(w), Finish(w)]
    case Failure => [Raise(w), Handle(w), Finish(w)]
    case Stale => [FindStale(w), Handle(w), Finish(w)]
  }

  function Reached(script: Script): nat {
    if OutcomeOf(script) == Stale then 4 else if script.reaches > LAST_STAGE then LAST_STAGE else script.reaches
  }

  /** The slot calls after the `try` block, from the stage the call reached. */
  lemma TailEnds(p: Pool, w: nat, script: Script, was: Slot)
    requires InRange(p) && w in p.calls && p.calls[w] == Trying(p.calls[w].slot, Reached(script))
    requires p.slots[p.calls[w].slot].(job := "", request := "")
          == After(was, Reached(script)).(job := "", request := "")
    ensures var q, i := Run(p, Tail(w, script)), p.calls[w].slot;
            q.slots == p.slots[i := Ending(was, script)] && q.calls == p.calls - {w}
  {
    var tail := Tail(w, script);
    var p1 := Step(p, tail[0]);
    assert tail[1..][1..] == tail[2..];
    assert Run(p, tail) == Run(Step(p1, tail[1]), tail[2..]);
    if OutcomeOf(script) == Success {
      assert tail[2..] == [];
    } else {
      RunOne(Step(p1, tail[1]), Finish(w));
      assert tail[2..] == [Finish(w)];
    }
  }

  /** Acquiring a slot and finding its page. */
  lemma BeginRun(p: Pool, w: nat, job: string, request: string)
    requires InRange(p) && w !in p.calls && FirstFree(p.slots).Some?
    ensures var q, i := Run(p, [Start(w, job, request), LookUpPage(w, true)]), FirstFree(p.slots).value;
            && q.slots == p.slots[i := p.slots[i].(state := Acquired, job := job, request := request)]
            && q.calls == p.calls[w := Trying(i, 0)]
  {
    var i, begin := FirstFree(p.slots).value, [Start(w, job, request), LookUpPage(w, true)];
    var p1 := Step(p, begin[0]);
    assert begin[1..] == [begin[1]];
    RunOne(p1, begin[1]);
    assert p1.calls == p.calls[w := Holding(i)];
    assert p1.calls[w := Trying(i, 0)] == p.calls[w := Trying(i, 0)];
  }

  /** From the acquired slot to the end of the call. */
  lemma TryRun(p: Pool, w: nat, script: Script, was: Slot) returns (events: seq<Event>)
    requires InRange(p) && w in p.calls && p.calls[w] == Trying(p.calls[w].slot, 0)
    requires p.slots[p.calls[w].slot] == was.(state := Acquired, job := p.slots[p.calls[w].slot].job,
                                              request := p.slots[p.calls[w].slot].request)
    ensures var q, i := Run(p, events), p.calls[w].slot;
            q.slots == p.slots[i := Ending(was, script)] && q.calls == p.calls - {w}
  {
    var i := p.calls[w].slot;
    var middle := Proceeds(p, w, Reached(script));
    var r := Run(p, middle);
    RunConcat(p, middle, Tail(w, script));
    events := middle + Tail(w, script);
    TailEnds(r, w, script, was);
    assert r.slots[i := Ending(was, script)] == p.slots[i := Ending(was, script)];
    assert r.calls - {w} == p.calls - {w};
  }

  /** Every scripted call that gets a slot and finds its page is a run of the pool that ends with the slot as
      `SubmitAndRecover` leaves it, by what its browser does, and every other slot and call untouched. */
  lemma CallIsARun(p: Pool, w: nat, job: string, request: string, script: Script) returns (events: seq<Event>)
    requires InRange(p) && w !in p.calls && FirstFree(p.slots).Some? && script.pageFound
    ensures var i, q := FirstFree(p.slots).value, Run(p, events);
            && q.slots == p.slots[i := Ending(p.slots[i], script)] && q.calls == p.calls
            && EndsAsScripted(script, p.slots[i], q.slots[i], OutcomeOf(script))
  {
    var i, begin := FirstFree(p.slots).value, [Start(w, job, request), LookUpPage(w, true)];
    BeginRun(p, w, job, request);
    var r := Run(p, begin);
    var rest := TryRun(r, w, script, p.slots[i]);
    RunConcat(p, begin, rest);
    events := begin + rest;
    EndingMeans(script, p.slots[i]);
    assert r.slots[i := Ending(p.slots[i], script)] == p.slots[i := Ending(p.slots[i], script)];
    assert r.calls - {w} == p.calls;
  }
}
