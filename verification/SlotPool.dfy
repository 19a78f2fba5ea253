/** deploy/vps/multi_slot_manager.py and deploy/vps/two_slot_browser.py: two browser slots shared by
    any number of workers. Every manager method runs under one lock, so it is one atomic step;
    everything the browser does may raise at any point. */
module SlotPool {
  import opened Basics

  datatype SlotState =
    | Idle | Acquired | Uploading | Prompting | Generating | Recovering | Validating | Releasing
    | NeedsRotation | Broken

  datatype Slot = Slot(state: SlotState, job: string, request: string, generation: nat, rotations: nat, healthy: bool) {
    predicate Free() { healthy && state == Idle && job == "" }
    predicate Retired() { state == NeedsRotation || state == Broken }
  }

  // ---- the manager's operations on the two slots, in dictionary order ---------------------------

  function FirstFree(slots: seq<Slot>): (i: Option<nat>)
    requires |slots| == 2
    ensures i.Some? ==>
              && i.value < 2 && slots[i.value].healthy && slots[i.value].state == Idle && slots[i.value].job == ""
    ensures forall k :: 0 <= k < (if i.Some? then i.value else 2) ==>
              !slots[k].healthy || slots[k].state != Idle || slots[k].job != ""
  {
    if slots[0].Free() then Some(0) else if slots[1].Free() then Some(1) else None
  }

  function Acquire(slots: seq<Slot>, i: nat, job: string, request: string): seq<Slot>
    requires i < |slots|
  {
    slots[i := slots[i].(state := Acquired, job := job, request := request)]
  }

  function Transition(slots: seq<Slot>, i: nat, state: SlotState): seq<Slot>
    requires i < |slots|
  {
    slots[i := slots[i].(state := state)]
  }

  function Release(slots: seq<Slot>, i: nat, state: SlotState): seq<Slot>
    requires i < |slots|
  {
    slots[i := slots[i].(state := state, job := "", request := "")]
  }

  function MarkBroken(slots: seq<Slot>, i: nat): seq<Slot>
    requires i < |slots|
  {
    slots[i := slots[i].(state := Broken, job := "", request := "", healthy := false)]
  }

  function MarkRotation(slots: seq<Slot>, i: nat): seq<Slot>
    requires i < |slots|
  {
    slots[i := slots[i].(state := NeedsRotation, rotations := slots[i].rotations + 1)]
  }

  function NextGeneration(slots: seq<Slot>, i: nat): seq<Slot>
    requires i < |slots|
  {
    slots[i := slots[i].(generation := slots[i].generation + 1)]
  }

  /** The release of `finally`: a retired slot stays retired, any other becomes idle. */
  function FinallyRelease(slots: seq<Slot>, i: nat): seq<Slot>
    requires i < |slots|
  {
    Release(slots, i, if slots[i].Retired() then slots[i].state else Idle)
  }

  // ---- one `submit_and_recover` call, step by step -----------------------------------------------

  /** Stages of the `try` block: how many of its slot calls have been made. */
  const LAST_STAGE: nat := 6

  function StateAt(stage: nat): SlotState {
    match stage
    case 0 => Acquired
    case 1 => Uploading
    case 2 => Prompting
    case 3 => Generating
    case 4 => Generating     // the generation number has been taken
    case 5 => Recovering
    case _ => Validating
  }

  datatype Outcome = Success | Failure | Stale

  datatype Phase =
    | Holding(slot: nat)                       // acquired, page not looked up yet
    | Trying(slot: nat, stage: nat)            // inside `try`
    | Failing(slot: nat, rotation: bool)       // at the top of `except`
    | Finishing(slot: nat, outcome: Outcome)   // at the top of `finally`

  /** The pool: the slots, the calls in progress, the generation numbers handed out so far (slot,
      number), and the slots whose call died between acquiring and `try`. */
  datatype Pool = Pool(slots: seq<Slot>, calls: map<nat, Phase>, issued: seq<(nat, nat)>, lost: set<nat>)

  datatype Event =
    | Start(worker: nat, job: string, request: string)
    | LookUpPage(worker: nat, found: bool)
    | Proceed(worker: nat)
    | Raise(worker: nat)
    | FindStale(worker: nat)
    | Handle(worker: nat)
    | Finish(worker: nat)

  predicate InRange(p: Pool) {
    |p.slots| == 2 && forall w :: w in p.calls ==> p.calls[w].slot < 2
  }

  function Step(p: Pool, e: Event): (q: Pool)
    requires InRange(p)
    ensures InRange(q)
  {
    if e.Start? then Begin(p, e.worker, e.job, e.request)
    else if e.worker in p.calls then Continue(p, e, e.worker)
    else p
  }

  function Begin(p: Pool, w: nat, job: string, request: string): (q: Pool)
    requires InRange(p)
    ensures InRange(q)
  {
    var i := FirstFree(p.slots);
    if w in p.calls || i.None? then p
    else p.(slots := Acquire(p.slots, i.value, job, request), calls := p.calls[w := Holding(i.value)])
  }

  function Continue(p: Pool, e: Event, w: nat): (q: Pool)
    requires InRange(p) && w in p.calls
    ensures InRange(q)
  {
    var call, i := p.calls[w], p.calls[w].slot;
    match e
    case Start(_, _, _) => p
    case LookUpPage(_, found) =>
      if !call.Holding? then p
      else if found then p.(calls := p.calls[w := Trying(i, 0)])
      else p.(calls := p.calls - {w}, lost := p.lost + {i})
    case Proceed(_) => if call.Trying? then Advance(p, w) else p
    case Raise(_) => if call.Trying? then p.(calls := p.calls[w := Failing(i, false)]) else p
    case FindStale(_) =>
      if call.Trying? && call.stage == 4
      then p.(slots := MarkRotation(p.slots, i), calls := p.calls[w := Failing(i, true)])
      else p
    case Handle(_) =>
      if !call.Failing? then p
      else if call.rotation then p.(calls := p.calls[w := Finishing(i, Stale)])
      else p.(slots := MarkBroken(p.slots, i), calls := p.calls[w := Finishing(i, Failure)])
    case Finish(_) =>
      if call.Finishing? then p.(slots := FinallyRelease(p.slots, i), calls := p.calls - {w}) else p
  }

  /** The next slot call of the `try` block. */
  function Advance(p: Pool, w: nat): (q: Pool)
    requires InRange(p) && w in p.calls && p.calls[w].Trying?
    ensures InRange(q)
  {
    var i, stage := p.calls[w].slot, p.calls[w].stage;
    if stage >= LAST_STAGE then p.(calls := p.calls[w := Finishing(i, Success)])
    else if stage == 3 then
      p.(slots := NextGeneration(p.slots, i), calls := p.calls[w := Trying(i, 4)],
         issued := p.issued + [(i, p.slots[i].generation + 1)])
    else p.(slots := Transition(p.slots, i, StateAt(stage + 1)), calls := p.calls[w := Trying(i, stage + 1)])
  }

  // ---- the invariant -------------------------------------------------------------------------------

  /** What a call in progress implies about its slot. */
  ghost predicate Agrees(call: Phase, slot: Slot) {
    match call
    case Holding(_) => slot.state == Acquired
    case Trying(_, stage) => stage <= LAST_STAGE && slot.state == StateAt(stage)
    case Failing(_, rotation) =>
      slot.state != Idle && (rotation <==> slot.Retired()) && (rotation ==> slot.state == NeedsRotation)
    case Finishing(_, outcome) =>
      (match outcome
       case Success => slot.state == Validating
       case Failure => slot.state == Broken
       case Stale => slot.state == NeedsRotation)
  }

  ghost predicate AllAgree(p: Pool) {
    && InRange(p)
    && (forall w :: w in p.calls ==> Agrees(p.calls[w], p.slots[p.calls[w].slot]))
  }

  ghost predicate OneOwner(p: Pool) {
    forall v, w :: v in p.calls && w in p.calls && p.calls[v].slot == p.calls[w].slot ==> v == w
  }

  ghost predicate Owned(p: Pool, i: nat) { exists w :: w in p.calls && p.calls[w].slot == i }

  /** A slot nobody owns is idle, retired, or lost. */
  ghost predicate UnownedSettled(p: Pool)
    requires |p.slots| == 2
  {
    && (forall i :: 0 <= i < 2 && !Owned(p, i) && i !in p.lost ==>
          p.slots[i].job == "" && (p.slots[i].state == Idle || p.slots[i].Retired()))
    && (forall i :: i in p.lost ==> i < 2 && !Owned(p, i) && p.slots[i].state == Acquired)
  }

  ghost predicate GenerationsRise(p: Pool)
    requires |p.slots| == 2
  {
    && (forall k :: 0 <= k < |p.issued| ==> p.issued[k].0 < 2 && p.issued[k].1 <= p.slots[p.issued[k].0].generation)
    && (forall j, k :: 0 <= j < k < |p.issued| && p.issued[j].0 == p.issued[k].0 ==> p.issued[j].1 < p.issued[k].1)
  }

  ghost predicate Inv(p: Pool) {
    AllAgree(p) && OneOwner(p) && UnownedSettled(p) && GenerationsRise(p)
  }

  /** Slots as loaded from disk at rest: nobody working, every slot idle or retired. */
  ghost predicate AtRest(p: Pool) {
    && |p.slots| == 2 && p.calls == map[] && p.issued == [] && p.lost == {}
    && forall i :: 0 <= i < 2 ==> p.slots[i].job == "" && (p.slots[i].state == Idle || p.slots[i].Retired())
  }

  /** The pool after one call's step touches only its own slot and its own entry. */
  ghost predicate OnlyItsSlot(p: Pool, q: Pool, w: nat)
    requires InRange(p) && w in p.calls
  {
    && |q.slots| == 2
    && (forall i :: 0 <= i < 2 && i != p.calls[w].slot ==> q.slots[i] == p.slots[i])
    && (q.calls == p.calls - {w}
        || (w in q.calls && q.calls == p.calls[w := q.calls[w]] && q.calls[w].slot == p.calls[w].slot))
  }

  /** ... and leaves phase and slot in agreement, or the slot settled, or the slot lost. */
  ghost predicate GoodStep(p: Pool, q: Pool, w: nat)
    requires InRange(p) && w in p.calls
  {
    var i := p.calls[w].slot;
    && OnlyItsSlot(p, q, w)
    && (if w in q.calls then q.lost == p.lost && Agrees(q.calls[w], q.slots[i])
        else if q.lost == p.lost then q.slots[i].job == "" && (q.slots[i].state == Idle || q.slots[i].Retired())
        else q.lost == p.lost + {i} && q.slots[i].state == Acquired)
    && (p.slots[i].Retired() ==> q.slots[i].Retired())
    && Numbered(p, q, i)
  }

  /** At most one new generation number, the slot's next. */
  ghost predicate Numbered(p: Pool, q: Pool, i: nat)
    requires i < |p.slots| && i < |q.slots|
  {
    || (q.issued == p.issued && q.slots[i].generation == p.slots[i].generation)
    || (q.issued == p.issued + [(i, q.slots[i].generation)] && q.slots[i].generation == p.slots[i].generation + 1)
  }

  lemma ContinueIsGood(p: Pool, e: Event, w: nat)
    requires Inv(p) && w in p.calls
    ensures Continue(p, e, w) == p || GoodStep(p, Continue(p, e, w), w)
  {
    assert Agrees(p.calls[w], p.slots[p.calls[w].slot]);
    assert Owned(p, p.calls[w].slot);
    match p.calls[w]
    case Holding(_) => HoldingIsGood(p, e, w);
    case Trying(_, _) => TryingIsGood(p, e, w);
    case Failing(_, _) => FailingIsGood(p, e, w);
    case Finishing(_, _) => FinishingIsGood(p, e, w);
  }

  lemma HoldingIsGood(p: Pool, e: Event, w: nat)
    requires AllAgree(p) && w in p.calls && p.calls[w].Holding? && Agrees(p.calls[w], p.slots[p.calls[w].slot])
    requires p.calls[w].slot !in p.lost
    ensures Continue(p, e, w) == p || GoodStep(p, Continue(p, e, w), w)
  {}

  lemma TryingIsGood(p: Pool, e: Event, w: nat)
    requires AllAgree(p) && w in p.calls && p.calls[w].Trying? && Agrees(p.calls[w], p.slots[p.calls[w].slot])
    ensures Continue(p, e, w) == p || GoodStep(p, Continue(p, e, w), w)
  {
    if e.Proceed? { AdvanceIsGood(p, w); }
  }

  lemma FailingIsGood(p: Pool, e: Event, w: nat)
    requires AllAgree(p) && w in p.calls && p.calls[w].Failing? && Agrees(p.calls[w], p.slots[p.calls[w].slot])
    ensures Continue(p, e, w) == p || GoodStep(p, Continue(p, e, w), w)
  {}

  lemma FinishingIsGood(p: Pool, e: Event, w: nat)
    requires AllAgree(p) && w in p.calls && p.calls[w].Finishing? && Agrees(p.calls[w], p.slots[p.calls[w].slot])
    ensures Continue(p, e, w) == p || GoodStep(p, Continue(p, e, w), w)
  {}

  lemma AdvanceIsGood(p: Pool, w: nat)
    requires AllAgree(p) && w in p.calls && p.calls[w].Trying?
    ensures GoodStep(p, Advance(p, w), w)
  {
    assert Agrees(p.calls[w], p.slots[p.calls[w].slot]);
  }

  lemma OwnershipStep(p: Pool, q: Pool, w: nat)
    requires InRange(p) && OneOwner(p) && w in p.calls && OnlyItsSlot(p, q, w)
    ensures OneOwner(q)
    ensures forall i :: i != p.calls[w].slot ==> (Owned(q, i) <==> Owned(p, i))
    ensures Owned(q, p.calls[w].slot) <==> w in q.calls
  {
    forall i | i != p.calls[w].slot ensures Owned(q, i) <==> Owned(p, i) { OtherOwners(p, q, w, i); }
    if Owned(q, p.calls[w].slot) {
      var v :| v in q.calls && q.calls[v].slot == p.calls[w].slot;
      assert v == w || v in p.calls;
    }
  }

  lemma OtherOwners(p: Pool, q: Pool, w: nat, i: nat)
    requires InRange(p) && w in p.calls && OnlyItsSlot(p, q, w) && i != p.calls[w].slot
    ensures Owned(q, i) <==> Owned(p, i)
  {
    if Owned(p, i) { var v :| v in p.calls && p.calls[v].slot == i; assert v in q.calls && q.calls[v].slot == i; }
    if Owned(q, i) { var v :| v in q.calls && q.calls[v].slot == i; assert v in p.calls && p.calls[v].slot == i; }
  }

  lemma GoodStepKeepsInv(p: Pool, q: Pool, w: nat)
    requires Inv(p) && w in p.calls && GoodStep(p, q, w)
    ensures Inv(q)
  {
    OwnershipStep(p, q, w);
    assert Owned(p, p.calls[w].slot);
    AgreementStep(p, q, w);
    SettledStep(p, q, w);
    GenerationStep(p, q, p.calls[w].slot);
  }

  lemma AgreementStep(p: Pool, q: Pool, w: nat)
    requires AllAgree(p) && OneOwner(p) && w in p.calls && GoodStep(p, q, w)
    ensures AllAgree(q)
  {
    forall v | v in q.calls ensures q.calls[v].slot < 2 && Agrees(q.calls[v], q.slots[q.calls[v].slot]) {
      if v != w {
        assert v in p.calls && q.calls[v] == p.calls[v] && p.calls[v].slot != p.calls[w].slot;
      }
    }
  }

  lemma SettledStep(p: Pool, q: Pool, w: nat)
    requires Inv(p) && w in p.calls && GoodStep(p, q, w) && Owned(p, p.calls[w].slot)
    requires forall i :: i != p.calls[w].slot ==> (Owned(q, i) <==> Owned(p, i))
    requires Owned(q, p.calls[w].slot) <==> w in q.calls
    ensures UnownedSettled(q)
  {}

  lemma GenerationStep(p: Pool, q: Pool, i: nat)
    requires |p.slots| == 2 && GenerationsRise(p) && |q.slots| == 2 && i < 2 && Numbered(p, q, i)
    requires forall j :: 0 <= j < 2 && j != i ==> q.slots[j] == p.slots[j]
    ensures GenerationsRise(q)
  {}

  lemma BeginKeepsInv(p: Pool, w: nat, job: string, request: string)
    requires Inv(p)
    ensures Inv(Begin(p, w, job, request))
  {
    var q, i := Begin(p, w, job, request), FirstFree(p.slots);
    if w !in p.calls && i.Some? {
      FreeIsUnowned(p, i.value);
      BeginOwnership(p, q, w, i.value);
      BeginSettled(p, q, w, i.value);
      GenerationStep(p, q, i.value);
    }
  }

  /** The slot acquired was neither owned nor lost; everything else stays as it was. */
  lemma BeginSettled(p: Pool, q: Pool, w: nat, i: nat)
    requires AllAgree(p) && UnownedSettled(p) && w !in p.calls && i < 2 && p.slots[i].Free() && !Owned(p, i)
    requires InRange(q) && q.calls == p.calls[w := Holding(i)] && q.lost == p.lost
    requires q.slots[i].state == Acquired && forall j :: 0 <= j < 2 && j != i ==> q.slots[j] == p.slots[j]
    requires Owned(q, i) && forall j :: j != i ==> (Owned(q, j) <==> Owned(p, j))
    ensures AllAgree(q) && UnownedSettled(q)
  {
    forall v | v in q.calls ensures Agrees(q.calls[v], q.slots[q.calls[v].slot]) {
      if v != w { assert v in p.calls && p.calls[v].slot != i; }
    }
  }

  lemma FreeIsUnowned(p: Pool, i: nat)
    requires AllAgree(p) && i < 2 && p.slots[i].Free()
    ensures !Owned(p, i)
  {
    forall v | v in p.calls ensures p.calls[v].slot != i {
      assert Agrees(p.calls[v], p.slots[p.calls[v].slot]);
    }
  }

  lemma BeginOwnership(p: Pool, q: Pool, w: nat, i: nat)
    requires OneOwner(p) && w !in p.calls && !Owned(p, i) && q.calls == p.calls[w := Holding(i)]
    ensures OneOwner(q) && Owned(q, i)
    ensures forall j :: j != i ==> (Owned(q, j) <==> Owned(p, j))
  {
    assert w in q.calls && q.calls[w].slot == i;
    forall v | v in p.calls ensures p.calls[v].slot != i && v in q.calls && q.calls[v] == p.calls[v] {}
    forall j | j != i ensures Owned(q, j) <==> Owned(p, j) {
      if Owned(p, j) { var v :| v in p.calls && p.calls[v].slot == j; assert v in q.calls && q.calls[v].slot == j; }
    }
  }

  lemma StepKeepsInv(p: Pool, e: Event)
    requires Inv(p)
    ensures Inv(Step(p, e))
  {
    if e.Start? {
      BeginKeepsInv(p, e.worker, e.job, e.request);
    } else if e.worker in p.calls {
      ContinueIsGood(p, e, e.worker);
      if Continue(p, e, e.worker) != p { GoodStepKeepsInv(p, Continue(p, e, e.worker), e.worker); }
    }
  }

  function Run(p: Pool, events: seq<Event>): Pool
    requires InRange(p)
    ensures InRange(Run(p, events))
    decreases |events|
  {
    if events == [] then p else Run(Step(p, events[0]), events[1..])
  }

  lemma {:induction false} RunKeepsInv(p: Pool, events: seq<Event>)
    requires Inv(p)
    ensures Inv(Run(p, events))
    decreases |events|
  {
    if events != [] {
      StepKeepsInv(p, events[0]);
      RunKeepsInv(Step(p, events[0]), events[1..]);
    }
  }

  // ---- what holds in every interleaving ---------------------------------------------------------------

  /** A slot has at most one owner, at most two calls hold slots, every generation number handed
      out on a slot is larger than all handed out on it before. */
  lemma ExclusiveSlotsAndRisingGenerations(p: Pool, events: seq<Event>)
    requires AtRest(p)
    ensures var q := Run(p, events);
            && (forall v, w :: v in q.calls && w in q.calls && q.calls[v].slot == q.calls[w].slot ==> v == w)
            && |q.calls| <= 2
            && (forall j, k :: 0 <= j < k < |q.issued| && q.issued[j].0 == q.issued[k].0 ==>
                  q.issued[j].1 < q.issued[k].1)
  {
    RunKeepsInv(p, events);
    AtMostTwo(Run(p, events));
  }

  function Users(q: Pool, i: nat): (users: set<nat>)
    ensures forall w :: w in users <==> w in q.calls && q.calls[w].slot == i
  {
    set w | w in q.calls && q.calls[w].slot == i
  }

  lemma AtMostTwo(q: Pool)
    requires InRange(q) && OneOwner(q)
    ensures |q.calls| <= 2
  {
    AtMostOne(q, 0);
    AtMostOne(q, 1);
    assert q.calls.Keys == Users(q, 0) + Users(q, 1);
    assert |q.calls| == |q.calls.Keys|;
  }

  lemma AtMostOne(q: Pool, i: nat)
    requires OneOwner(q)
    ensures |Users(q, i)| <= 1
  {
    if Users(q, i) != {} {
      var v :| v in Users(q, i);
      assert Users(q, i) == {v};
    }
  }

  /** Out of service: retired by its owner, or lost to a call that never reached `try`. */
  ghost predicate OutOfService(p: Pool, i: nat)
    requires i < |p.slots|
  {
    p.slots[i].Retired() || i in p.lost
  }

  /** A broken, rotating or lost slot is never acquired again: it stays out of service through
      every later step, and no later call gets it. */
  lemma {:induction false} OutOfServiceForGood(p: Pool, events: seq<Event>, i: nat)
    requires Inv(p) && i < 2 && OutOfService(p, i)
    ensures OutOfService(Run(p, events), i)
    ensures forall w :: w in Run(p, events).calls && Run(p, events).calls[w].slot == i ==>
              w in p.calls && p.calls[w].slot == i
    decreases |events|
  {
    if events != [] {
      var e, q := events[0], Step(p, events[0]);
      StepKeepsInv(p, e);
      StepStaysOut(p, e, i);
      OutOfServiceForGood(q, events[1..], i);
    }
  }

  lemma StepStaysOut(p: Pool, e: Event, i: nat)
    requires Inv(p) && i < 2 && OutOfService(p, i)
    ensures OutOfService(Step(p, e), i)
    ensures forall w :: w in Step(p, e).calls && Step(p, e).calls[w].slot == i ==> w in p.calls && p.calls[w].slot == i
  {
    if e.Start? {
      assert !p.slots[i].Free();
    } else if e.worker in p.calls {
      ContinueIsGood(p, e, e.worker);
      if Continue(p, e, e.worker) != p { GoodStepStaysOut(p, Continue(p, e, e.worker), e.worker, i); }
    }
  }

  lemma GoodStepStaysOut(p: Pool, q: Pool, w: nat, i: nat)
    requires Inv(p) && w in p.calls && GoodStep(p, q, w) && i < 2 && OutOfService(p, i)
    ensures OutOfService(q, i)
    ensures forall v :: v in q.calls && q.calls[v].slot == i ==> v in p.calls && p.calls[v].slot == i
  {
    assert Owned(p, p.calls[w].slot);
    if i in p.lost {
      assert i in q.lost;
    } else {
      assert q.slots[i].Retired();
    }
    forall v | v in q.calls && q.calls[v].slot == i ensures v in p.calls && p.calls[v].slot == i {
      assert v == w || q.calls[v] == p.calls[v];
    }
  }

  /** The `try` block makes its slot calls in this order: the state of each, one generation number before the
      prompt is sent, and nothing else of the slot. */
  lemma ProceedExactly(p: Pool, w: nat)
    requires Inv(p) && w in p.calls && p.calls[w].Trying?
    ensures var q, i, stage := Step(p, Proceed(w)), p.calls[w].slot, p.calls[w].stage;
            if stage == 6 then q == p.(calls := p.calls[w := Finishing(i, Success)])
            else
              && stage < 6 && q.calls == p.calls[w := Trying(i, stage + 1)] && q.lost == p.lost
              && q.slots == p.slots[i := p.slots[i].(
                   state := [Uploading, Prompting, Generating, Generating, Recovering, Validating][stage],
                   generation := p.slots[i].generation + (if stage == 3 then 1 else 0))]
              && q.issued == p.issued + (if stage == 3 then [(i, p.slots[i].generation + 1)] else [])
  {
    assert Agrees(p.calls[w], p.slots[p.calls[w].slot]);
  }

  /** A raise, its handling and the rotation of a stale image, each at its place in a call. */
  lemma ExceptExactly(p: Pool, w: nat)
    requires Inv(p) && w in p.calls
    ensures var call, i := p.calls[w], p.calls[w].slot;
            var was := p.slots[i];
            && (call.Trying? ==> Step(p, Raise(w)) == p.(calls := p.calls[w := Failing(i, false)]))
            && (call.Trying? && call.stage == 4 ==>
                  Step(p, FindStale(w)) == p.(
                    slots := p.slots[i := was.(state := NeedsRotation, rotations := was.rotations + 1)],
                    calls := p.calls[w := Failing(i, true)]))
            && (call.Failing? && call.rotation ==> Step(p, Handle(w)) == p.(calls := p.calls[w := Finishing(i, Stale)]))
            && (call.Failing? && !call.rotation ==>
                  Step(p, Handle(w)) == p.(
                    slots := p.slots[i := Slot(Broken, "", "", was.generation, was.rotations, false)],
                    calls := p.calls[w := Finishing(i, Failure)]))
  {}

  /** An event that is not due changes nothing. */
  lemma OutOfTurn(p: Pool, e: Event)
    requires InRange(p)
    requires if e.Start? then e.worker in p.calls || FirstFree(p.slots).None?
             else e.worker in p.calls ==>
                    var call := p.calls[e.worker];
                    match e
                    case LookUpPage(_, _) => !call.Holding?
                    case FindStale(_) => !call.Trying? || call.stage != 4
                    case Handle(_) => !call.Failing?
                    case Finish(_) => !call.Finishing?
                    case _ => !call.Trying?
    ensures Step(p, e) == p
  {}

  /** A call that reaches `finally` leaves its slot unowned, and idle, broken or rotating exactly
      according to its outcome. */
  lemma FinishAccordingToOutcome(p: Pool, w: nat)
    requires Inv(p) && w in p.calls && p.calls[w].Finishing?
    ensures var q, i, outcome := Step(p, Finish(w)), p.calls[w].slot, p.calls[w].outcome;
            && w !in q.calls && !Owned(q, i) && q.slots[i].job == "" && q.slots[i].request == ""
            && (q.slots[i].state == Idle <==> outcome == Success)
            && (q.slots[i].state == Broken <==> outcome == Failure)
            && (q.slots[i].state == NeedsRotation <==> outcome == Stale)
  {
    assert Agrees(p.calls[w], p.slots[p.calls[w].slot]);
    OwnershipStep(p, Step(p, Finish(w)), w);
  }

  /** A call that dies looking up its page, outside the `try`, leaves its slot acquired and ownerless,
      and whatever happens later no call ever gets it again. */
  lemma FailedLookupLosesTheSlot(p: Pool, w: nat, events: seq<Event>)
    requires Inv(p) && w in p.calls && p.calls[w].Holding?
    ensures var died, i := Step(p, LookUpPage(w, false)), p.calls[w].slot;
            && died.slots == p.slots && died.slots[i].state == Acquired && !Owned(died, i)
            && OutOfService(Run(died, events), i) && !Owned(Run(died, events), i)
  {
    var died, i := Step(p, LookUpPage(w, false)), p.calls[w].slot;
    assert Agrees(p.calls[w], p.slots[i]);
    StepKeepsInv(p, LookUpPage(w, false));
    OutOfServiceForGood(died, events, i);
  }

  /** Once both slots are out of service every later request finds none. */
  lemma TwoLossesStopTheService(p: Pool, events: seq<Event>)
    requires Inv(p) && p.calls == map[] && OutOfService(p, 0) && OutOfService(p, 1)
    ensures Run(p, events).calls == map[] && FirstFree(Run(p, events).slots) == None
  {
    OutOfServiceForGood(p, events, 0);
    OutOfServiceForGood(p, events, 1);
    RunKeepsInv(p, events);
    var q := Run(p, events);
    forall v ensures v !in q.calls {}
  }
}
