/** static/service_health.js, `createServiceHealth`: a connection indicator fed by asynchronous probes
    that may complete in any order. */
module ServiceHealth {
  import opened Basics

  datatype State = Connecting | Connected | Disconnected

  const PROBE_INTERVAL_MS := 5000
  const PROBE_TIMEOUT_MS := 4000
  const FAILURE_THRESHOLD: nat := 2
  const STALE_AFTER_MS := PROBE_INTERVAL_MS * FAILURE_THRESHOLD + PROBE_TIMEOUT_MS

  // ---- the history, and what it means -----------------------------------------------------------

  /** Everything that ever happened, oldest first: probe number `id` started, or completed. */
  datatype Event = Started | Completed(id: nat, healthy: bool, at: int)
  type History = seq<Event>

  datatype Verdict = Verdict(healthy: bool, at: int)

  function Starts(h: History): nat {
    if h == [] then 0 else Starts(h[..|h| - 1]) + (if h[|h| - 1].Started? then 1 else 0)
  }

  /** The completions that count: of a probe that is still the newest one started. */
  function Counted(h: History): seq<Verdict> {
    if h == [] then []
    else
      var init, last := h[..|h| - 1], h[|h| - 1];
      if last.Completed? && last.id == Starts(init) then Counted(init) + [Verdict(last.healthy, last.at)]
      else Counted(init)
  }

  /** Failures since the last success, or since the beginning. */
  function FailuresInARow(c: seq<Verdict>): nat {
    if c == [] || c[|c| - 1].healthy then 0 else 1 + FailuresInARow(c[..|c| - 1])
  }

  function LastSuccess(c: seq<Verdict>): Option<int> {
    if c == [] then None
    else if c[|c| - 1].healthy then Some(c[|c| - 1].at) else LastSuccess(c[..|c| - 1])
  }

  function StateAfter(h: History): State {
    var c := Counted(h);
    if FailuresInARow(c) >= FAILURE_THRESHOLD then Disconnected
    else if LastSuccess(c).Some? then Connected else Connecting
  }

  /** What the indicator shows at a time. */
  function ShownAt(h: History, now: int): State {
    var c := Counted(h);
    if StateAfter(h) == Connected && now - LastSuccess(c).value > STALE_AFTER_MS then Disconnected else StateAfter(h)
  }

  /** Success number k is the last one counted. */
  ghost predicate LastSuccessAt(c: seq<Verdict>, k: nat) {
    k < |c| && c[k].healthy && forall i :: k < i < |c| ==> !c[i].healthy
  }

  lemma {:induction false} TrailingFailures(c: seq<Verdict>, k: nat)
    requires LastSuccessAt(c, k)
    ensures FailuresInARow(c) == |c| - 1 - k && LastSuccess(c) == Some(c[k].at)
  {
    if k < |c| - 1 { TrailingFailures(c[..|c| - 1], k); }
  }

  lemma {:induction false} NoSuccess(c: seq<Verdict>)
    requires forall i :: 0 <= i < |c| ==> !c[i].healthy
    ensures FailuresInARow(c) == |c| && LastSuccess(c) == None
  {
    if c != [] { NoSuccess(c[..|c| - 1]); }
  }

  lemma {:induction false} FindLastSuccess(c: seq<Verdict>) returns (k: nat)
    requires exists i :: 0 <= i < |c| && c[i].healthy
    ensures LastSuccessAt(c, k)
  {
    k := |c| - 1;
    if !c[k].healthy { k := FindLastSuccess(c[..|c| - 1]); }
  }

  /** Success number k is recent, no success was counted after it, and at most one failure was. */
  ghost predicate Vouches(c: seq<Verdict>, k: nat, now: int) {
    LastSuccessAt(c, k) && |c| - 1 - k <= 1 && now - c[k].at <= 14000
  }

  lemma ShownByLast(h: History, now: int, k: nat)
    requires LastSuccessAt(Counted(h), k)
    ensures ShownAt(h, now) == Connected <==> Vouches(Counted(h), k, now)
  {
    TrailingFailures(Counted(h), k);
  }

  /** "Connected" is shown exactly when some counted success is at most 14000 ms old, no success
      was counted after it, and at most one failure was. */
  lemma ConnectedExactly(h: History, now: int)
    ensures ShownAt(h, now) == Connected <==> exists k: nat :: Vouches(Counted(h), k, now)
  {
    var c := Counted(h);
    if exists i :: 0 <= i < |c| && c[i].healthy {
      var k := FindLastSuccess(c);
      ShownByLast(h, now, k);
      if j: nat :| Vouches(c, j, now) {
        ShownByLast(h, now, j);
      }
    } else {
      NoSuccess(c);
      forall k: nat ensures !Vouches(c, k, now) {}
    }
  }

  ghost predicate TwoFailures(c: seq<Verdict>) { |c| >= 2 && !c[|c| - 1].healthy && !c[|c| - 2].healthy }

  lemma TwoInARow(c: seq<Verdict>)
    ensures FailuresInARow(c) >= 2 <==> TwoFailures(c)
  {
    if |c| >= 2 { assert c[..|c| - 1][|c| - 2] == c[|c| - 2]; }
  }

  /** Success number k is the last one and more than 14000 ms old. */
  ghost predicate Aged(c: seq<Verdict>, k: nat, now: int) { LastSuccessAt(c, k) && now - c[k].at > 14000 }

  lemma AgedIsLast(c: seq<Verdict>, k: nat, now: int)
    requires Aged(c, k, now)
    ensures LastSuccess(c).Some? && now - LastSuccess(c).value > 14000
  {
    TrailingFailures(c, k);
  }

  /** "Disconnected" is shown exactly when the last two counted were failures, or the last success is more than
      14000 ms old. */
  lemma DisconnectedExactly(h: History, now: int)
    ensures ShownAt(h, now) == Disconnected
       <==> TwoFailures(Counted(h)) || exists k: nat :: Aged(Counted(h), k, now)
  {
    var c := Counted(h);
    TwoInARow(c);
    if exists i :: 0 <= i < |c| && c[i].healthy {
      var k := FindLastSuccess(c);
      TrailingFailures(c, k);
      assert now - c[k].at > 14000 ==> Aged(c, k, now);
    } else {
      NoSuccess(c);
    }
    if k: nat :| Aged(c, k, now) { AgedIsLast(c, k, now); }
  }

  lemma OneMoreVerdict(c: seq<Verdict>, v: Verdict)
    ensures FailuresInARow(c + [v]) == if v.healthy then 0 else FailuresInARow(c) + 1
    ensures LastSuccess(c + [v]) == if v.healthy then Some(v.at) else LastSuccess(c)
  {
    assert (c + [v])[..|c + [v]| - 1] == c;
  }

  /** What a completion counts for: that of the newest probe started is counted, with its verdict and its
      time, and no other is; starting a probe counts nothing. */
  lemma CountedExactly(h: History, id: nat, healthy: bool, at: int)
    ensures Counted([]) == [] && Starts([]) == 0
    ensures Counted(h + [Started]) == Counted(h)
    ensures Counted(h + [Completed(id, healthy, at)])
         == if id == Starts(h) then Counted(h) + [Verdict(healthy, at)] else Counted(h)
    ensures Starts(h + [Started]) == Starts(h) + 1 && Starts(h + [Completed(id, healthy, at)]) == Starts(h)
  {
    forall e: Event ensures (h + [e])[..|h + [e]| - 1] == h {}
  }

  /** It is "connecting" exactly when nothing counted was a success and at most one was a failure. */
  lemma ConnectingExactly(h: History, now: int)
    ensures ShownAt(h, now) == Connecting
       <==> |Counted(h)| <= 1 && forall i :: 0 <= i < |Counted(h)| ==> !Counted(h)[i].healthy
  {
    var c := Counted(h);
    if exists i :: 0 <= i < |c| && c[i].healthy {
      var k := FindLastSuccess(c);
      TrailingFailures(c, k);
    } else {
      NoSuccess(c);
    }
  }

  /** The completion of an overtaken probe is as if it never happened, whenever it comes. */
  lemma OvertakenProbeIsIgnored(before: History, late: Event, after: History, now: int)
    requires late.Completed? && late.id != Starts(before)
    ensures Counted(before + [late] + after) == Counted(before + after)
    ensures ShownAt(before + [late] + after, now) == ShownAt(before + after, now)
  {
    DropLate(before, late, after);
  }

  lemma {:induction false} DropLate(before: History, late: Event, after: History)
    requires late.Completed? && late.id != Starts(before)
    ensures Starts(before + [late] + after) == Starts(before + after)
    ensures Counted(before + [late] + after) == Counted(before + after)
    decreases |after|
  {
    var long, short := before + [late] + after, before + after;
    if after == [] {
      assert long[..|long| - 1] == before && long[|long| - 1] == late && short == before;
    } else {
      var init := after[..|after| - 1];
      assert long[..|long| - 1] == before + [late] + init && short[..|short| - 1] == before + init;
      DropLate(before, late, init);
    }
  }

  // ---- the indicator -----------------------------------------------------------------------------------

  class Indicator {
    var state: State
    var failures: nat
    var lastOkAt: int
    var sequence: nat
    ghost var history: History

    /** The four variables are a function of the history. */
    ghost predicate Valid()
      reads this
    {
      && sequence == Starts(history)
      && state == StateAfter(history)
      && failures == FailuresInARow(Counted(history))
      && (LastSuccess(Counted(history)).Some? ==> lastOkAt == LastSuccess(Counted(history)).value)
    }

    constructor ()
      ensures Valid() && history == []
    {
      state, failures, lastOkAt, sequence, history := Connecting, 0, 0, 0, [];
    }

    method Current(now: int) returns (shown: State)
      requires Valid()
      ensures shown == ShownAt(history, now)
    {
      if state == Connected && now - lastOkAt > STALE_AFTER_MS { return Disconnected; }
      return state;
    }

    /** The part of `probe` before its await. */
    method Begin() returns (mine: nat)
      requires Valid()
      modifies this
      ensures Valid() && history == old(history) + [Started] && mine == Starts(history)
    {
      history := history + [Started];
      assert history[..|history| - 1] == old(history);
      sequence := sequence + 1;
      mine := sequence;
    }

    /** The part of `probe` after its await. */
    method Finish(mine: nat, healthy: bool, now: int) returns (shown: State)
      requires Valid()
      modifies this
      ensures Valid() && history == old(history) + [Completed(mine, healthy, now)]
      ensures shown == ShownAt(history, now)
    {
      CountedExactly(history, mine, healthy, now);
      OneMoreVerdict(Counted(history), Verdict(healthy, now));
      history := history + [Completed(mine, healthy, now)];
      if mine != sequence {
        shown := Current(now);
        return;
      }
      if healthy {
        failures, lastOkAt, state := 0, now, Connected;
      } else {
        failures := failures + 1;
        if failures >= FAILURE_THRESHOLD { state := Disconnected; }
      }
      shown := Current(now);
    }
  }
}
