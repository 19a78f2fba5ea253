/** deploy/vps/multi_slot_manager.py and deploy/vps/two_slot_browser.py as objects updated in place:
    the two slot records, the manager, and one whole `submit_and_recover` call. */
module SlotManager {
  import opened Basics
  import opened SlotPool

  class SlotRecord {
    var state: SlotState
    var currentJobId: string
    var currentRequestId: string
    var generationSeq: nat
    var rotationCount: nat
    var healthy: bool

    constructor (generation: nat, rotations: nat, healthy: bool)
      ensures View() == Slot(Idle, "", "", generation, rotations, healthy)
    {
      state, currentJobId, currentRequestId := Idle, "", "";
      generationSeq, rotationCount, this.healthy := generation, rotations, healthy;
    }

    ghost function View(): Slot
      reads this
    {
      Slot(state, currentJobId, currentRequestId, generationSeq, rotationCount, healthy)
    }
  }

  class MultiSlotManager {
    const first: SlotRecord
    const second: SlotRecord

    constructor (first: SlotRecord, second: SlotRecord)
      requires first != second
      ensures Valid() && this.first == first && this.second == second
    {
      this.first, this.second := first, second;
    }

    ghost predicate Valid() { first != second }

    ghost function View(): seq<Slot>
      reads first, second
    {
      [first.View(), second.View()]
    }

    function At(i: nat): SlotRecord
      requires i < 2
    {
      if i == 0 then first else second
    }

    /** None stands for the NoFreeSlot exception. */
    method Acquire(job: string, request: string) returns (i: Option<nat>)
      requires Valid()
      modifies first, second
      ensures i == FirstFree(old(View()))
      ensures View() == if i.None? then old(View()) else SlotPool.Acquire(old(View()), i.value, job, request)
      ensures i.Some? ==>
                View()[i.value] == old(View())[i.value].(state := Acquired, job := job, request := request)
    {
      var k: nat := 0;
      while k < 2
        invariant k <= 2 && View() == old(View())
        invariant forall j :: 0 <= j < k ==> !View()[j].Free()
      {
        var slot := At(k);
        if slot.healthy && slot.state == Idle && slot.currentJobId == "" {
          slot.state := Acquired;
          slot.currentJobId := job;
          slot.currentRequestId := request;
          return Some(k);
        }
        k := k + 1;
      }
      return None;
    }

    method Transition(i: nat, state: SlotState)
      requires Valid() && i < 2
      modifies At(i)
      ensures View() == SlotPool.Transition(old(View()), i, state)
    {
      At(i).state := state;
    }

    method Release(i: nat, state: SlotState)
      requires Valid() && i < 2
      modifies At(i)
      ensures View() == SlotPool.Release(old(View()), i, state)
      ensures View()[i] == old(View())[i].(state := state, job := "", request := "")
    {
      var slot := At(i);
      slot.state := state;
      slot.currentJobId := "";
      slot.currentRequestId := "";
    }

    method MarkBroken(i: nat)
      requires Valid() && i < 2
      modifies At(i)
      ensures View() == SlotPool.MarkBroken(old(View()), i)
      ensures View()[i] == old(View())[i].(state := Broken, job := "", request := "", healthy := false)
    {
      var slot := At(i);
      slot.healthy := false;
      slot.state := Broken;
      slot.currentJobId := "";
      slot.currentRequestId := "";
    }

    method MarkRotation(i: nat)
      requires Valid() && i < 2
      modifies At(i)
      ensures View() == SlotPool.MarkRotation(old(View()), i)
      ensures View()[i].state == NeedsRotation && View()[i].rotations == old(View())[i].rotations + 1
    {
      var slot := At(i);
      slot.state := NeedsRotation;
      slot.rotationCount := slot.rotationCount + 1;
    }

    method NextGeneration(i: nat) returns (n: nat)
      requires Valid() && i < 2
      modifies At(i)
      ensures View() == SlotPool.NextGeneration(old(View()), i)
      ensures n == View()[i].generation == old(View())[i].generation + 1
    {
      var slot := At(i);
      slot.generationSeq := slot.generationSeq + 1;
      n := slot.generationSeq;
    }
  }

  /** What the browser does during one call: whether the page is found, how many slot calls of the
      `try` block are reached before something raises (more than LAST_STAGE: nothing does), and whether
      a fresh image shows up. */
  datatype Script = Script(pageFound: bool, reaches: nat, freshImage: bool)

  datatype Report = NoFreeSlot | PageMissing(slot: nat) | Ended(slot: nat, outcome: Outcome, generation: nat)

  function OutcomeOf(script: Script): Outcome {
    if script.reaches < 4 then Failure else if !script.freshImage then Stale
    else if script.reaches <= LAST_STAGE then Failure else Success
  }

  class TwoSlotProvider {
    const slots: MultiSlotManager

    constructor (slots: MultiSlotManager)
      ensures this.slots == slots
    {
      this.slots := slots;
    }

    /** The acquire / transition / except / finally skeleton of `submit_and_recover`, alone on the
        manager. A call that finds its page ends with its slot unowned and idle, broken or rotating by
        its outcome; one that does not keeps the slot acquired for its job. */
    method SubmitAndRecover(job: string, request: string, script: Script) returns (r: Report)
      requires slots.Valid()
      modifies slots.first, slots.second
      ensures FirstFree(old(slots.View())).None? ==> r == NoFreeSlot && slots.View() == old(slots.View())
      ensures FirstFree(old(slots.View())).Some? ==>
                var i := FirstFree(old(slots.View())).value;
                && slots.View()[1 - i] == old(slots.View())[1 - i]
                && (!script.pageFound ==>
                      r == PageMissing(i) && slots.View()[i].state == Acquired && slots.View()[i].job == job)
                && (script.pageFound ==>
                      && r.Ended? && r.slot == i && r.outcome == OutcomeOf(script)
                      && slots.View()[i] == Ending(old(slots.View())[i], script)
                      && EndsAsScripted(script, old(slots.View())[i], slots.View()[i], r.outcome)
                      && (r.outcome == Success ==> r.generation == slots.View()[i].generation))
    {
      var acquired := slots.Acquire(job, request);
      if acquired.None? { return NoFreeSlot; }
      var i := acquired.value;
      if !script.pageFound { return PageMissing(i); }
      var raised, rotationNeeded, generation := TryBlock(i, script);
      // except
      if raised && !rotationNeeded { slots.MarkBroken(i); }
      // finally
      var state := slots.At(i).state;
      slots.Release(i, if state == NeedsRotation || state == Broken then state else Idle);
      r := Ended(i, if !raised then Success else if rotationNeeded then Stale else Failure, generation);
      EndingMeans(script, old(slots.View())[i]);
    }

    /** The slot calls of the `try` block, up to where the script raises. */
    method TryBlock(i: nat, script: Script) returns (raised: bool, rotationNeeded: bool, generation: nat)
      requires slots.Valid() && i < 2 && slots.View()[i].state == Acquired
      modifies slots.At(i)
      ensures slots.View()[1 - i] == old(slots.View())[1 - i]
      ensures raised == (OutcomeOf(script) != Success) && rotationNeeded == (OutcomeOf(script) == Stale)
      ensures rotationNeeded <==> script.reaches >= 4 && !script.freshImage
      ensures raised <==> rotationNeeded || script.reaches <= 6
      ensures script.reaches >= 4 ==> generation == slots.View()[i].generation
      ensures var was := old(slots.View())[i];
              slots.View()[i] == was.(
                state := if OutcomeOf(script) == Stale then NeedsRotation else StateAt(script.reaches),
                generation := was.generation + (if script.reaches >= 4 then 1 else 0),
                rotations := was.rotations + (if OutcomeOf(script) == Stale then 1 else 0))
    {
      raised, rotationNeeded, generation := true, false, 0;
      if script.reaches == 0 { return; }
      slots.Transition(i, Uploading);
      if script.reaches == 1 { return; }
      slots.Transition(i, Prompting);
      if script.reaches == 2 { return; }
      slots.Transition(i, Generating);
      if script.reaches == 3 { return; }
      raised, rotationNeeded, generation := Generate(i, script);
    }

    /** From taking the generation number on. */
    method Generate(i: nat, script: Script) returns (raised: bool, rotationNeeded: bool, generation: nat)
      requires slots.Valid() && i < 2 && slots.View()[i].state == Generating && script.reaches >= 4
      modifies slots.At(i)
      ensures slots.View()[1 - i] == old(slots.View())[1 - i]
      ensures raised == (OutcomeOf(script) != Success) && rotationNeeded == (OutcomeOf(script) == Stale)
      ensures rotationNeeded <==> !script.freshImage
      ensures raised <==> rotationNeeded || script.reaches <= 6
      ensures generation == slots.View()[i].generation
      ensures var was := old(slots.View())[i];
              slots.View()[i] == was.(
                state := if OutcomeOf(script) == Stale then NeedsRotation else StateAt(script.reaches),
                generation := was.generation + 1,
                rotations := was.rotations + (if OutcomeOf(script) == Stale then 1 else 0))
    {
      raised, rotationNeeded := true, false;
      generation := slots.NextGeneration(i);
      if !script.freshImage {
        slots.MarkRotation(i);
        rotationNeeded := true;
        return;
      }
      if script.reaches == 4 { return; }
      slots.Transition(i, Recovering);
      if script.reaches == 5 { return; }
      slots.Transition(i, Validating);
      raised := script.reaches == LAST_STAGE;
    }
  }

  /** A call that found its page, by what its browser does: without a fresh image after the prompt was sent
      the slot needs rotation; otherwise a raise anywhere in the `try` block breaks it, and reaching the end
      frees it. The generation number is taken just before the prompt is sent. */
  ghost predicate EndsAsScripted(script: Script, was: Slot, now: Slot, outcome: Outcome) {
    && now.job == "" && now.request == ""
    && now.generation == was.generation + (if script.reaches >= 4 then 1 else 0)
    && (if script.reaches >= 4 && !script.freshImage then
          && outcome == Stale && now.state == NeedsRotation
          && now.rotations == was.rotations + 1 && now.healthy == was.healthy
        else if script.reaches <= 6 then
          outcome == Failure && now.state == Broken && now.rotations == was.rotations && !now.healthy
        else
          outcome == Success && now.state == Idle && now.rotations == was.rotations && now.healthy == was.healthy)
  }

  lemma EndingMeans(script: Script, was: Slot)
    ensures EndsAsScripted(script, was, Ending(was, script), OutcomeOf(script))
  {}

  /** How a call that found its page leaves its slot. */
  function Ending(was: Slot, script: Script): Slot {
    Slot(match OutcomeOf(script) case Success => Idle case Failure => Broken case Stale => NeedsRotation,
         "", "",
         was.generation + (if script.reaches >= 4 then 1 else 0),
         was.rotations + (if OutcomeOf(script) == Stale then 1 else 0),
         was.healthy && OutcomeOf(script) != Failure)
  }
}
