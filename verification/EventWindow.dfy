/** research/gemini_vps_web_worker/discord_observability.py, `_accept` and `ingest`: de-duplication of
    event ids against a bounded, insertion-ordered table. */
module EventWindow {

  type Id = string
  const WINDOW: nat := 4096
  const MAX_BATCH: nat := 32

  /** The last `n` elements, or all of them. */
  function Last(s: seq<Id>, n: nat): seq<Id> { if |s| <= n then s else s[|s| - n..] }

  /** A suffix, as long as it can be up to `n`. */
  lemma LastMeans(s: seq<Id>, n: nat)
    ensures |Last(s, n)| <= n && (Last(s, n) == s || |Last(s, n)| == n)
    ensures exists front: seq<Id> :: front + Last(s, n) == s
  {
    assert s[..|s| - |Last(s, n)|] + Last(s, n) == s;
  }

  // ---- the history ----------------------------------------------------------------------------------

  /** The ids accepted out of a stream of arrivals: each one not among the last 4096 accepted. */
  function Accepted(arrivals: seq<Id>): seq<Id> {
    if arrivals == [] then []
    else
      var before, id := Accepted(arrivals[..|arrivals| - 1]), arrivals[|arrivals| - 1];
      if id in Last(before, WINDOW) then before else before + [id]
  }

  /** Two acceptances of one id have at least 4096 other acceptances between them. */
  ghost predicate Spread(accepted: seq<Id>) {
    forall i, k :: 0 <= i < k < |accepted| && accepted[i] == accepted[k] ==> k - i > 4096
  }

  lemma InLast(s: seq<Id>, n: nat, i: nat)
    requires i < |s|
    ensures |s| - i <= n ==> s[i] in Last(s, n)
  {
    var w := Last(s, n);
    if |s| - i <= n { assert w[i - (|s| - |w|)] == s[i]; }
  }

  lemma {:induction false} AcceptancesAreSpread(arrivals: seq<Id>)
    ensures Spread(Accepted(arrivals))
  {
    if arrivals != [] {
      var before, id := Accepted(arrivals[..|arrivals| - 1]), arrivals[|arrivals| - 1];
      AcceptancesAreSpread(arrivals[..|arrivals| - 1]);
      if id !in Last(before, WINDOW) {
        forall i | 0 <= i < |before| && before[i] == id ensures |before| - i > WINDOW {
          InLast(before, WINDOW, i);
        }
      }
    }
  }

  lemma WindowHasNoRepeats(accepted: seq<Id>)
    requires Spread(accepted)
    ensures var w := Last(accepted, WINDOW); forall i, k :: 0 <= i < k < |w| ==> w[i] != w[k]
  {
    var w := Last(accepted, WINDOW);
    var d := |accepted| - |w|;
    assert forall i :: 0 <= i < |w| ==> w[i] == accepted[d + i];
  }

  /** More arrivals only add acceptances at the end, at most one each. */
  lemma {:induction false} MoreArrivals(arrivals: seq<Id>, more: seq<Id>)
    ensures var a, b := Accepted(arrivals), Accepted(arrivals + more); a <= b && |b| <= |a| + |more|
  {
    var all := arrivals + more;
    if more == [] {
      assert all == arrivals;
    } else {
      assert all[..|all| - 1] == arrivals + more[..|more| - 1];
      MoreArrivals(arrivals, more[..|more| - 1]);
    }
  }

  lemma RefusedAgain(arrivals: seq<Id>, id: Id)
    requires id in Last(Accepted(arrivals), WINDOW)
    ensures Accepted(arrivals + [id]) == Accepted(arrivals)
  {
    var all := arrivals + [id];
    assert all[..|all| - 1] == arrivals;
  }

  lemma StillInWindow(before: seq<Id>, accepted: seq<Id>, i: nat)
    requires i < |before| && before <= accepted && |accepted| - i <= WINDOW
    ensures before[i] in Last(accepted, WINDOW)
  {
    InLast(accepted, WINDOW, i);
  }

  /** An id accepted among the arrivals `batch` is refused when it comes again, as long as no more than
      4096 acceptances lie in the batch and after it: an event recorded but not delivered is lost for as
      long. */
  lemma RecordedThenRefused(arrivals: seq<Id>, batch: seq<Id>, more: seq<Id>, id: Id)
    requires |Accepted(arrivals + batch + more)| <= |Accepted(arrivals)| + WINDOW
    requires |Accepted(arrivals)| <= |Accepted(arrivals + batch)|
    requires id in Accepted(arrivals + batch)[|Accepted(arrivals)|..]
    ensures Accepted(arrivals + batch + more + [id]) == Accepted(arrivals + batch + more)
  {
    var a, b, c := Accepted(arrivals), Accepted(arrivals + batch), Accepted(arrivals + batch + more);
    MoreArrivals(arrivals + batch, more);
    var i :| |a| <= i < |b| && b[i] == id;
    StillInWindow(b, c, i);
    RefusedAgain(arrivals + batch + more, id);
  }

  // ---- the table ------------------------------------------------------------------------------------------

  /** An item of a batch: not a mapping, or an event with its schema and name checked. */
  datatype Item = NotAMapping | Event(recognized: bool, id: Id)

  predicate Usable(item: Item) { item.Event? && item.recognized && item.id != "" }
  predicate Offending(item: Item) { item.Event? && !Usable(item) }

  function Ids(items: seq<Item>): seq<Id> {
    if items == [] then []
    else Ids(items[..|items| - 1]) + (if Usable(items[|items| - 1]) then [items[|items| - 1].id] else [])
  }

  /** An item that does not refuse its batch: no event at all, or one of a known schema and name with an id. */
  predicate Deliverable(item: Item) { item.NotAMapping? || (item.recognized && item.id != "") }

  /** The ids taken from a batch are those of its recognized events that have one, ... */
  lemma {:induction false} IdsExactly(items: seq<Item>, id: Id)
    ensures id in Ids(items) <==> id != "" && exists i :: 0 <= i < |items| && items[i] == Event(true, id)
  {
    if items != [] {
      var init, last := items[..|items| - 1], items[|items| - 1];
      IdsExactly(init, id);
      if id in Ids(init) {
        var i :| 0 <= i < |init| && init[i] == Event(true, id);
        assert items[i] == Event(true, id);
      }
    }
  }

  /** ... in the order of the batch. */
  lemma {:induction false} IdsInOrder(a: seq<Item>, b: seq<Item>)
    ensures Ids(a + b) == Ids(a) + Ids(b)
    decreases |b|
  {
    if b == [] {
      assert a + b == a;
    } else {
      var init := b[..|b| - 1];
      assert (a + b)[..|a + b| - 1] == a + init;
      IdsInOrder(a, init);
    }
  }

  /** What has arrived and what of it was accepted. */
  datatype Log = Log(arrivals: seq<Id>, accepted: seq<Id>) {
    ghost predicate Honest() { accepted == Accepted(arrivals) }

    function Window(): seq<Id> { Last(accepted, WINDOW) }

    function Arrive(id: Id): Log { Log(arrivals + [id], if id in Window() then accepted else accepted + [id]) }

    function Offer(item: Item): Log { if Usable(item) then Arrive(item.id) else this }

    function Feed(items: seq<Item>): Log
      decreases |items|
    {
      if items == [] then this else Feed(items[..|items| - 1]).Offer(items[|items| - 1])
    }
  }

  lemma ArriveHonest(log: Log, id: Id)
    requires log.Honest()
    ensures log.Arrive(id).Honest()
  {
    var all := log.arrivals + [id];
    assert all[..|all| - 1] == log.arrivals;
  }

  /** Feeding a batch appends its usable ids to the arrivals, accepts them by the window rule, and keeps
      everything accepted before. */
  lemma {:induction false} FeedMeans(log: Log, items: seq<Item>)
    requires log.Honest()
    ensures var fed := log.Feed(items);
            && fed.Honest() && fed.arrivals == log.arrivals + Ids(items) && log.accepted <= fed.accepted
  {
    if items != [] {
      var before := log.Feed(items[..|items| - 1]);
      FeedMeans(log, items[..|items| - 1]);
      if Usable(items[|items| - 1]) {
        ArriveHonest(before, items[|items| - 1].id);
        assert (log.arrivals + Ids(items[..|items| - 1])) + [items[|items| - 1].id] == log.arrivals + Ids(items);
      }
    } else {
      assert log.arrivals + [] == log.arrivals;
    }
  }

  /** Every usable event of these is one of the last 4096 accepted. */
  ghost predicate AllSeen(log: Log, items: seq<Item>) {
    forall i :: 0 <= i < |items| && Usable(items[i]) ==> items[i].id in log.Window()
  }

  /** Feeding events records nothing exactly when all usable ones were seen before. */
  lemma {:induction false} RecordsNothingExactly(log: Log, items: seq<Item>)
    ensures log.accepted <= log.Feed(items).accepted
    ensures log.Feed(items).accepted == log.accepted <==> AllSeen(log, items)
    decreases |items|
  {
    if items != [] {
      var init, last := items[..|items| - 1], items[|items| - 1];
      RecordsNothingExactly(log, init);
      assert AllSeen(log, items) <==> AllSeen(log, init) && (Usable(last) ==> last.id in log.Window()) by {
        if AllSeen(log, items) {
          forall i | 0 <= i < |init| && Usable(init[i]) ensures init[i].id in log.Window() {
            assert items[i] == init[i];
          }
        }
      }
    }
  }

  lemma LastStep(s: seq<Id>, id: Id, n: nat)
    ensures Last(s + [id], n) == Last(Last(s, n) + [id], n)
  {}

  /** `popitem(last=False)` while the table is too long. */
  method Evict(table: seq<Id>) returns (kept: seq<Id>)
    ensures kept == Last(table, WINDOW)
  {
    kept := table;
    ghost var gone := 0;
    while |kept| > WINDOW
      invariant gone <= |table| && kept == table[gone..]
      invariant gone > 0 ==> |kept| >= WINDOW
    {
      kept, gone := kept[1..], gone + 1;
    }
  }

  datatype Outcome = Refused | Delivered(ids: seq<Id>)

  class Ingress {
    var seen: seq<Id>      // the ordered table, oldest first
    ghost var log: Log     // everything that ever arrived

    ghost predicate Valid()
      reads this
    {
      log.Honest() && seen == log.Window()
    }

    constructor ()
      ensures Valid() && log == Log([], [])
    {
      seen, log := [], Log([], []);
    }

    /** `_accept` for a usable event: refused exactly when the id is among the last 4096 accepted. */
    method Accept(id: Id) returns (taken: bool)
      requires Valid()
      modifies this
      ensures Valid() && log == old(log).Arrive(id)
      ensures taken <==> id !in Last(old(log).accepted, 4096)
      ensures log.accepted == if taken then old(log).accepted + [id] else old(log).accepted
    {
      ArriveHonest(log, id);
      log := log.Arrive(id);
      if id in seen { return false; }
      LastStep(old(log).accepted, id, WINDOW);
      seen := Evict(seen + [id]);
      taken := true;
    }

    /** `ingest` with a reachable webhook. An unusable event anywhere in the batch refuses the whole
        batch, but the events before it stay recorded as accepted: a refused batch leaves the table as
        it was exactly when it is too long or every usable event before the first unusable one had
        been seen. */
    method Ingest(batch: seq<Item>) returns (outcome: Outcome)
      requires Valid()
      modifies this
      ensures Valid()
      ensures outcome.Delivered? <==> |batch| <= 32 && forall i :: 0 <= i < |batch| ==> Deliverable(batch[i])
      ensures log == if |batch| > MAX_BATCH then old(log) else old(log).Feed(batch[..FirstOffending(batch)])
      ensures outcome.Delivered? ==> log.accepted == old(log).accepted + outcome.ids
      ensures outcome.Refused? ==>
                (log.accepted == old(log).accepted
                 <==> |batch| > 32 || AllSeen(old(log), batch[..FirstOffending(batch)]))
    {
      RecordsNothingExactly(log, batch[..FirstOffending(batch)]);
      if |batch| > MAX_BATCH { return Refused; }
      var k, taken := OfferUntilOffending(batch);
      outcome := if k < |batch| then Refused else Delivered(taken);
    }

    /** The loop over a batch, up to the first item that raises. */
    method OfferUntilOffending(batch: seq<Item>) returns (k: nat, taken: seq<Id>)
      requires Valid()
      modifies this
      ensures Valid() && k == FirstOffending(batch)
      ensures log == old(log).Feed(batch[..k]) && log.accepted == old(log).accepted + taken
    {
      ghost var start := log;
      k, taken := 0, [];
      assert batch[..0] == [];
      while k < |batch| && !Offending(batch[k])
        invariant Valid() && k <= FirstOffending(batch)
        invariant Fed(start, batch, k, log)
        invariant log.accepted == start.accepted + taken
      {
        FeedOneMore(start, batch, k, log);
        taken := OfferItem(batch[k], taken, start.accepted);
        k := k + 1;
      }
    }

    method OfferItem(item: Item, taken: seq<Id>, ghost base: seq<Id>) returns (extended: seq<Id>)
      requires Valid() && log.accepted == base + taken
      modifies this
      ensures Valid() && log == old(log).Offer(item)
      ensures log.accepted == base + extended
    {
      extended := taken;
      if Usable(item) {
        var isNew := Accept(item.id);
        if isNew { extended := taken + [item.id]; }
      }
    }
  }

  /** Feeding the first k of a batch leads from one log to another. */
  ghost predicate Fed(before: Log, batch: seq<Item>, k: nat, after: Log) {
    k <= |batch| && after == before.Feed(batch[..k])
  }

  lemma FeedOneMore(before: Log, batch: seq<Item>, k: nat, after: Log)
    requires k < |batch| && Fed(before, batch, k, after)
    ensures Fed(before, batch, k + 1, after.Offer(batch[k]))
  {
    assert batch[..k + 1][..k] == batch[..k];
  }

  function FirstOffending(batch: seq<Item>): (k: nat)
    ensures k <= |batch|
    ensures k < |batch| ==> Offending(batch[k])
    ensures forall i :: 0 <= i < k ==> !Offending(batch[i])
  {
    if batch == [] || Offending(batch[0]) then 0 else 1 + FirstOffending(batch[1..])
  }
}
