/** tools/harnesses/performance_validation_harness.py: how much of a job's wall time its interval
    events account for, and where the gaps are. Times are whole nanoseconds. */
module IntervalAccounting {
  import opened Basics
  import opened Sorting

  /** An interval as recorded: either end may be missing, and it may run backwards. */
  datatype Recorded = Recorded(start: Option<int>, end: Option<int>)
  datatype Span = Span(start: int, end: int)

  // ---- measure: the unit cells [x, x + 1) an interval covers -------------------------------

  function Cells(a: int, b: int): (cells: set<int>)
    ensures forall x :: x in cells <==> a <= x < b
    ensures |cells| == MaxInt(0, b - a)
    decreases b - a
  {
    if a >= b then {} else {a} + Cells(a + 1, b)
  }

  function Covered(spans: seq<Span>): set<int> {
    if spans == [] then {} else Cells(spans[0].start, spans[0].end) + Covered(spans[1..])
  }

  predicate Covers(spans: seq<Span>, x: int) { exists s :: s in spans && s.start <= x < s.end }

  lemma {:induction false} CoveredMeans(spans: seq<Span>, x: int)
    ensures x in Covered(spans) <==> Covers(spans, x)
  {
    if spans != [] {
      CoveredMeans(spans[1..], x);
      assert spans[0].start <= x < spans[0].end ==> spans[0] in spans;
    }
  }

  lemma CoveredIgnoresOrder(a: seq<Span>, b: seq<Span>)
    requires forall s :: s in a <==> s in b
    ensures Covered(a) == Covered(b)
  {
    forall x ensures x in Covered(a) <==> x in Covered(b) {
      CoveredMeans(a, x);
      CoveredMeans(b, x);
    }
  }

  lemma {:induction false} CoveredConcat(a: seq<Span>, b: seq<Span>)
    ensures Covered(a + b) == Covered(a) + Covered(b)
  {
    if a == [] {
      assert a + b == b;
    } else {
      assert (a + b)[1..] == a[1..] + b;
      CoveredConcat(a[1..], b);
    }
  }

  // ---- sorting by (start, end) -----------------------------------------------------------------

  predicate Le(a: Span, b: Span) { a.start < b.start || (a.start == b.start && a.end <= b.end) }

  lemma LeTotal()
    ensures TotalOrder(Le)
  {}

  /** Starts do not decrease, and none is before `low`. */
  ghost predicate Ordered(s: seq<Span>, low: int) {
    s == [] || (low <= s[0].start && Ordered(s[1..], s[0].start))
  }

  lemma {:induction false} InsertOrdered(e: Span, s: seq<Span>, low: int)
    requires Ordered(s, low) && low <= e.start
    ensures Ordered(Insert(e, s, Le), low)
  {
    if s == [] {
      assert [e][1..] == [];
    } else if Le(e, s[0]) {
      assert ([e] + s)[1..] == s;
    } else {
      InsertOrdered(e, s[1..], s[0].start);
    }
  }

  lemma {:induction false} SortedOrdered(spans: seq<Span>, low: int)
    requires forall s :: s in spans ==> low <= s.start
    ensures Ordered(Sorted(spans, Le), low)
  {
    if spans != [] {
      SortedOrdered(spans[1..], low);
      InsertOrdered(spans[0], Sorted(spans[1..], Le), low);
    }
  }

  lemma SortedSame(spans: seq<Span>) returns (low: int)
    ensures forall s :: s in Sorted(spans, Le) <==> s in spans
    ensures Ordered(Sorted(spans, Le), low)
  {
    SortedMembers(spans, Le);
    low := if spans == [] then 0 else FirstStart(spans);
    SortedOrdered(spans, low);
  }

  function FirstStart(events: seq<Span>): (t: int)
    requires events != []
    ensures forall e :: e in events ==> t <= e.start
    ensures exists e :: e in events && e.start == t
  {
    assert events[0] in events && events == [events[0]] + events[1..];
    if |events| == 1 then events[0].start
    else
      var rest := FirstStart(events[1..]);
      if events[0].start < rest then events[0].start
      else
        assert exists e :: e in events && e.start == rest by {
          var e :| e in events[1..] && e.start == rest;
          assert e in events;
        }
        rest
  }

  // ---- the interval union -------------------------------------------------------------------------

  /** The intervals the union counts: both ends known, not running backwards. */
  function WellFormed(recorded: seq<Recorded>): (spans: seq<Span>)
    ensures forall s :: s in spans <==> s.start <= s.end && Recorded(Some(s.start), Some(s.end)) in recorded
  {
    if recorded == [] then []
    else
      var r, rest := recorded[0], WellFormed(recorded[1..]);
      if r.start.Some? && r.end.Some? && r.end.value >= r.start.value
      then [Span(r.start.value, r.end.value)] + rest else rest
  }

  lemma DisjointSize(a: set<int>, b: set<int>)
    requires a !! b
    ensures |a + b| == |a| + |b|
  {}

  /** `_interval_union_ms`: the measure of everything some well-formed interval covers. */
  method IntervalUnion(recorded: seq<Recorded>) returns (total: int)
    ensures total == |Covered(WellFormed(recorded))|
  {
    var spans := WellFormed(recorded);
    var normalized := Sorted(spans, Le);
    ghost var low := SortedSame(spans);
    CoveredIgnoresOrder(normalized, spans);
    total := MergeSorted(normalized, low);
  }

  /** Sorted intervals: the first opens a block, the merge loop does the rest. */
  method MergeSorted(normalized: seq<Span>, ghost low: int) returns (total: int)
    requires Ordered(normalized, low) && Forward(normalized)
    ensures total == |Covered(normalized)|
  {
    if |normalized| == 0 { return 0; }
    assert normalized[0] in normalized;
    MergedFromMeasures(normalized[1..], normalized[0].start, normalized[0].end);
    total := MergeLoop(normalized[1..], normalized[0].start, normalized[0].end);
  }

  method MergeLoop(later: seq<Span>, start: int, end: int) returns (total: int)
    ensures total == MergedFrom(later, start, end)
  {
    total := 0;
    var currentStart, currentEnd := start, end;
    for k := 0 to |later|
      invariant total + MergedFrom(later[k..], currentStart, currentEnd) == MergedFrom(later, start, end)
    {
      assert later[k..][1..] == later[k + 1..];
      if later[k].start <= currentEnd {
        currentEnd := MaxInt(currentEnd, later[k].end);
      } else {
        total := total + currentEnd - currentStart;
        currentStart, currentEnd := later[k].start, later[k].end;
      }
    }
    total := total + currentEnd - currentStart;
  }

  /** The merge loop's total for the block it is in and the sorted intervals still to come. */
  function MergedFrom(sorted: seq<Span>, start: int, end: int): int {
    if sorted == [] then end - start
    else if sorted[0].start <= end then MergedFrom(sorted[1..], start, MaxInt(end, sorted[0].end))
    else end - start + MergedFrom(sorted[1..], sorted[0].start, sorted[0].end)
  }

  lemma {:induction false} MergedFromMeasures(sorted: seq<Span>, start: int, end: int)
    requires start <= end && Ordered(sorted, start) && Forward(sorted)
    ensures MergedFrom(sorted, start, end) == |Cells(start, end) + Covered(sorted)|
  {
    if sorted == [] {
      assert Cells(start, end) + {} == Cells(start, end);
    } else {
      var s, later := sorted[0], Covered(sorted[1..]);
      assert s in sorted;
      if s.start <= end {
        WeakerOrder(sorted[1..], s.start, start);
        MergedFromMeasures(sorted[1..], start, MaxInt(end, s.end));
        JoinCells(start, end, s, later);
      } else {
        MergedFromMeasures(sorted[1..], s.start, s.end);
        OrderedCells(sorted, s.start);
        DisjointSize(Cells(start, end), Covered(sorted));
      }
    }
  }

  lemma JoinCells(start: int, end: int, s: Span, later: set<int>)
    requires start <= s.start <= end && s.start <= s.end
    ensures Cells(start, end) + (Cells(s.start, s.end) + later) == Cells(start, MaxInt(end, s.end)) + later
  {}

  lemma WeakerOrder(s: seq<Span>, low: int, lower: int)
    requires Ordered(s, low) && lower <= low
    ensures Ordered(s, lower)
  {}

  lemma {:induction false} OrderedCells(sorted: seq<Span>, low: int)
    requires Ordered(sorted, low)
    ensures forall x :: x in Covered(sorted) ==> low <= x
  {
    if sorted != [] { OrderedCells(sorted[1..], sorted[0].start); }
  }

  // ---- the gaps --------------------------------------------------------------------------------------

  /** The gap loop over sorted events, from `cursor` on. */
  function GapsFrom(sorted: seq<Span>, cursor: int, wall: int): seq<Span> {
    if sorted == [] then (if cursor < wall then [Span(cursor, wall)] else [])
    else
      (if sorted[0].start > cursor then [Span(cursor, sorted[0].start)] else [])
      + GapsFrom(sorted[1..], MaxInt(cursor, sorted[0].end), wall)
  }

  function Gaps(events: seq<Span>, wall: int): seq<Span> { GapsFrom(Sorted(events, Le), 0, wall) }

  lemma GapsStep(sorted: seq<Span>, k: nat, cursor: int, wall: int)
    requires k < |sorted|
    ensures GapsFrom(sorted[k..], cursor, wall)
         == (if sorted[k].start > cursor then [Span(cursor, sorted[k].start)] else [])
            + GapsFrom(sorted[k + 1..], MaxInt(cursor, sorted[k].end), wall)
  {
    assert sorted[k..][1..] == sorted[k + 1..];
  }

  method FindGaps(events: seq<Span>, wall: int) returns (gaps: seq<Span>)
    ensures gaps == Gaps(events, wall)
  {
    var sorted := Sorted(events, Le);
    gaps := [];
    var cursor := 0;
    ghost var all := GapsFrom(sorted, 0, wall);
    for k := 0 to |sorted|
      invariant gaps + GapsFrom(sorted[k..], cursor, wall) == all
    {
      GapsStep(sorted, k, cursor, wall);
      ghost var rest := GapsFrom(sorted[k + 1..], MaxInt(cursor, sorted[k].end), wall);
      assert gaps + ([Span(cursor, sorted[k].start)] + rest) == (gaps + [Span(cursor, sorted[k].start)]) + rest;
      if sorted[k].start > cursor { gaps := gaps + [Span(cursor, sorted[k].start)]; }
      cursor := MaxInt(cursor, sorted[k].end);
    }
    if cursor < wall { gaps := gaps + [Span(cursor, wall)]; }
  }

  function Total(spans: seq<Span>): int {
    if spans == [] then 0 else spans[0].end - spans[0].start + Total(spans[1..])
  }

  /** The latest instant the job or any of its events reaches. */
  function Reach(events: seq<Span>, wall: int): int {
    if events == [] then wall else MaxInt(events[0].end, Reach(events[1..], wall))
  }

  /** Non-empty, in order, and not touching each other's inside. */
  ghost predicate Separate(gaps: seq<Span>) {
    && (forall i :: 0 <= i < |gaps| ==> gaps[i].start < gaps[i].end)
    && (forall i, j :: 0 <= i < j < |gaps| ==> gaps[i].end <= gaps[j].start)
  }

  ghost predicate Forward(events: seq<Span>) { forall e :: e in events ==> e.start <= e.end }

  /** One event: what is uncovered before it and what is uncovered after it. */
  lemma GapStep(cursor: int, s: Span, reach: int, later: set<int>)
    requires s.start <= s.end && forall x :: x in later ==> s.start <= x
    ensures Cells(cursor, MaxInt(s.end, reach)) - (Cells(s.start, s.end) + later)
         == Cells(cursor, s.start) + (Cells(MaxInt(cursor, s.end), reach) - later)
  {}

  ghost predicate SeparateFrom(gaps: seq<Span>, from: int) {
    gaps == [] || (from <= gaps[0].start < gaps[0].end && SeparateFrom(gaps[1..], gaps[0].end))
  }

  lemma {:induction false} GapsSeparate(sorted: seq<Span>, cursor: int, wall: int)
    requires Forward(sorted)
    ensures SeparateFrom(GapsFrom(sorted, cursor, wall), cursor)
    decreases |sorted|
  {
    var gaps := GapsFrom(sorted, cursor, wall);
    if sorted == [] {
      if cursor < wall { assert gaps[1..] == []; }
    } else {
      var s := sorted[0];
      var rest := GapsFrom(sorted[1..], MaxInt(cursor, s.end), wall);
      assert s in sorted;
      GapsSeparate(sorted[1..], MaxInt(cursor, s.end), wall);
      if s.start > cursor {
        assert gaps[1..] == rest;
        SeparateEarlier(rest, MaxInt(cursor, s.end), s.start);
      } else {
        assert gaps == rest;
      }
    }
  }

  lemma SeparateEarlier(gaps: seq<Span>, from: int, to: int)
    requires SeparateFrom(gaps, from) && (gaps == [] || to <= gaps[0].start)
    ensures SeparateFrom(gaps, to)
  {}

  lemma {:induction false} SeparateFromMeans(gaps: seq<Span>, from: int)
    requires SeparateFrom(gaps, from)
    ensures Separate(gaps) && (forall g :: g in gaps ==> from <= g.start)
  {
    if gaps != [] { SeparateFromMeans(gaps[1..], gaps[0].end); }
  }

  lemma {:induction false} SeparateTotal(gaps: seq<Span>, from: int)
    requires SeparateFrom(gaps, from)
    ensures Total(gaps) == |Covered(gaps)| && (forall x :: x in Covered(gaps) ==> from <= x)
  {
    if gaps != [] {
      SeparateTotal(gaps[1..], gaps[0].end);
      DisjointSize(Cells(gaps[0].start, gaps[0].end), Covered(gaps[1..]));
    }
  }

  lemma {:induction false} GapsCover(sorted: seq<Span>, low: int, cursor: int, wall: int)
    requires Ordered(sorted, low) && Forward(sorted)
    ensures Covered(GapsFrom(sorted, cursor, wall)) == Cells(cursor, Reach(sorted, wall)) - Covered(sorted)
  {
    var gaps := GapsFrom(sorted, cursor, wall);
    if sorted == [] {
      if cursor < wall { assert gaps[1..] == []; }
    } else {
      var s, later := sorted[0], Covered(sorted[1..]);
      var rest := GapsFrom(sorted[1..], MaxInt(cursor, s.end), wall);
      assert s in sorted;
      GapsCover(sorted[1..], s.start, MaxInt(cursor, s.end), wall);
      OrderedCells(sorted[1..], s.start);
      GapStep(cursor, s, Reach(sorted[1..], wall), later);
      if s.start > cursor {
        assert gaps[1..] == rest;
      } else {
        assert gaps == rest && Cells(cursor, s.start) == {};
      }
    }
  }

  lemma {:induction false} ReachBounds(events: seq<Span>, wall: int)
    ensures wall <= Reach(events, wall)
    ensures forall e :: e in events ==> e.end <= Reach(events, wall)
    ensures Reach(events, wall) == wall || exists e :: e in events && e.end == Reach(events, wall)
  {
    if events != [] {
      ReachBounds(events[1..], wall);
      if Reach(events, wall) != wall && events[0].end != Reach(events, wall) {
        var e :| e in events[1..] && e.end == Reach(events, wall);
        assert e in events;
      }
    }
  }

  lemma ReachIgnoresOrder(a: seq<Span>, b: seq<Span>, wall: int)
    requires forall s :: s in a <==> s in b
    ensures Reach(a, wall) == Reach(b, wall)
  {
    ReachBounds(a, wall);
    ReachBounds(b, wall);
  }

  // ---- events running backwards ---------------------------------------------------------------------

  /** The events that do not run backwards: the ones the interval union counts. */
  function Forwards(events: seq<Span>): (forwards: seq<Span>)
    ensures forall e :: e in forwards <==> e in events && e.start <= e.end
  {
    if events == [] then []
    else
      assert events == [events[0]] + events[1..];
      (if events[0].start <= events[0].end then [events[0]] else []) + Forwards(events[1..])
  }

  /** Events as recorded, both ends known. */
  function AsRecorded(events: seq<Span>): (recorded: seq<Recorded>)
    ensures |recorded| == |events|
    ensures forall k :: 0 <= k < |events| ==> recorded[k] == Recorded(Some(events[k].start), Some(events[k].end))
  {
    seq(|events|, k requires 0 <= k < |events| => Recorded(Some(events[k].start), Some(events[k].end)))
  }

  /** The union of the events, as `IntervalUnion` measures it, is what the forward ones cover. */
  lemma UnionOfForwards(events: seq<Span>)
    ensures Covered(WellFormed(AsRecorded(events))) == Covered(Forwards(events))
  {
    forall s ensures s in WellFormed(AsRecorded(events)) <==> s in Forwards(events) {
      var r := Recorded(Some(s.start), Some(s.end));
      if s in events {
        var k :| 0 <= k < |events| && events[k] == s;
        assert AsRecorded(events)[k] == r;
      }
      if r in AsRecorded(events) {
        var k :| 0 <= k < |events| && AsRecorded(events)[k] == r;
        assert events[k] == s;
      }
    }
    CoveredIgnoresOrder(WellFormed(AsRecorded(events)), Forwards(events));
  }

  /** No event of the list runs backwards from a start the cursor has not reached. */
  predicate Reached(sorted: seq<Span>, cursor: int) {
    sorted == []
    || ((sorted[0].end < sorted[0].start ==> sorted[0].start <= cursor)
        && Reached(sorted[1..], MaxInt(cursor, sorted[0].end)))
  }

  /** Starting the gap loop later loses at most the time skipped. */
  lemma {:induction false} LaterCursor(sorted: seq<Span>, cursor: int, later: int, wall: int)
    requires Forward(sorted) && cursor <= later
    ensures Total(GapsFrom(sorted, cursor, wall)) <= Total(GapsFrom(sorted, later, wall)) + later - cursor
    decreases |sorted|
  {
    TotalStep(sorted, cursor, wall);
    TotalStep(sorted, later, wall);
    if sorted != [] {
      var s := sorted[0];
      assert s in sorted;
      LaterCursor(sorted[1..], MaxInt(cursor, s.end), MaxInt(later, s.end), wall);
    }
  }

  lemma TotalStep(sorted: seq<Span>, cursor: int, wall: int)
    ensures Total(GapsFrom(sorted, cursor, wall)) ==
              if sorted == [] then MaxInt(0, wall - cursor)
              else MaxInt(0, sorted[0].start - cursor)
                   + Total(GapsFrom(sorted[1..], MaxInt(cursor, sorted[0].end), wall))
  {
    var gaps := GapsFrom(sorted, cursor, wall);
    if sorted == [] {
      if cursor < wall { assert gaps[1..] == []; }
    } else if sorted[0].start > cursor {
      assert gaps[1..] == GapsFrom(sorted[1..], MaxInt(cursor, sorted[0].end), wall);
    } else {
      assert gaps == GapsFrom(sorted[1..], MaxInt(cursor, sorted[0].end), wall);
    }
  }

  lemma ForwardsStep(sorted: seq<Span>)
    requires sorted != []
    ensures sorted[0].start <= sorted[0].end ==> Forwards(sorted) == [sorted[0]] + Forwards(sorted[1..])
    ensures sorted[0].start > sorted[0].end ==> Forwards(sorted) == Forwards(sorted[1..])
  {}

  lemma ForwardsTotal(sorted: seq<Span>, cursor: int, wall: int)
    requires sorted != [] && sorted[0].start <= sorted[0].end
    ensures Total(GapsFrom(Forwards(sorted), cursor, wall))
         == MaxInt(0, sorted[0].start - cursor)
            + Total(GapsFrom(Forwards(sorted[1..]), MaxInt(cursor, sorted[0].end), wall))
  {
    ForwardsStep(sorted);
    assert ([sorted[0]] + Forwards(sorted[1..]))[1..] == Forwards(sorted[1..]);
    TotalStep(Forwards(sorted), cursor, wall);
  }

  /** Dropping the backwards events never lengthens the gaps, and keeps their total exactly when the
      cursor reaches each before it comes. */
  lemma {:induction false} BackwardsOnlyAdd(sorted: seq<Span>, cursor: int, wall: int)
    ensures Total(GapsFrom(sorted, cursor, wall)) >= Total(GapsFrom(Forwards(sorted), cursor, wall))
    ensures Total(GapsFrom(sorted, cursor, wall)) == Total(GapsFrom(Forwards(sorted), cursor, wall))
       <==> Reached(sorted, cursor)
    decreases |sorted|
  {
    if sorted != [] {
      var s, rest := sorted[0], sorted[1..];
      var next := MaxInt(cursor, s.end);
      BackwardsOnlyAdd(rest, next, wall);
      TotalStep(sorted, cursor, wall);
      if s.start <= s.end {
        ForwardsTotal(sorted, cursor, wall);
      } else {
        ForwardsStep(sorted);
        LaterCursor(Forwards(rest), cursor, next, wall);
      }
    }
  }

  /** Where the cursor reaches every backwards event, the gap loop does not see them at all. */
  lemma {:induction false} ReachedIgnored(sorted: seq<Span>, cursor: int, wall: int)
    requires Reached(sorted, cursor)
    ensures GapsFrom(sorted, cursor, wall) == GapsFrom(Forwards(sorted), cursor, wall)
    decreases |sorted|
  {
    if sorted != [] {
      var s, rest := sorted[0], sorted[1..];
      ForwardsStep(sorted);
      ReachedIgnored(rest, MaxInt(cursor, s.end), wall);
      if s.start <= s.end { assert ([s] + Forwards(rest))[1..] == Forwards(rest); }
    }
  }

  /** By time t the cursor, starting as given, has passed t: some event begins before t and reaches it. */
  ghost predicate Passed(events: seq<Span>, cursor: int, t: int) {
    t <= cursor || exists f :: f in events && f.start < t <= f.end
  }

  ghost predicate AllPassed(events: seq<Span>, cursor: int) {
    forall e :: e in events && e.end < e.start ==> Passed(events, cursor, e.start)
  }

  /** Every backwards event starts no later than zero, or where some event that began before it still
      runs or just ends. */
  ghost predicate BackwardsReached(events: seq<Span>) { AllPassed(events, 0) }

  lemma {:induction false} ReachedMeans(sorted: seq<Span>, cursor: int)
    requires Ascending(sorted, Le)
    ensures Reached(sorted, cursor) <==> AllPassed(sorted, cursor)
    decreases |sorted|
  {
    if sorted != [] {
      var s, rest := sorted[0], sorted[1..];
      ReachedMeans(rest, MaxInt(cursor, s.end));
      forall e | e in rest && e.end < e.start
        ensures Passed(sorted, cursor, e.start) <==> Passed(rest, MaxInt(cursor, s.end), e.start)
      {
        PassedStep(sorted, cursor, e);
      }
      FirstPassed(sorted, cursor);
      assert forall e :: e in sorted <==> e == s || e in rest;
    }
  }

  /** For a later backwards event, the first event counts through the cursor. */
  lemma PassedStep(sorted: seq<Span>, cursor: int, e: Span)
    requires Ascending(sorted, Le) && sorted != [] && e in sorted[1..] && e.end < e.start
    ensures Passed(sorted, cursor, e.start) <==> Passed(sorted[1..], MaxInt(cursor, sorted[0].end), e.start)
  {
    var s, rest := sorted[0], sorted[1..];
    assert Le(s, e);
    if f :| f in sorted && f.start < e.start <= f.end {
      assert f == s || f in rest;
    }
    if s.start < e.start <= s.end { assert s in sorted; }
    if f :| f in rest && f.start < e.start <= f.end { assert f in sorted; }
  }

  lemma FirstPassed(sorted: seq<Span>, cursor: int)
    requires Ascending(sorted, Le) && sorted != []
    ensures Passed(sorted, cursor, sorted[0].start) <==> sorted[0].start <= cursor
  {
    forall f | f in sorted ensures sorted[0].start <= f.start {
      var i :| 0 <= i < |sorted| && sorted[i] == f;
      assert i > 0 ==> Le(sorted[0], sorted[i]);
    }
  }

  /** In whatever order the events come. */
  lemma ReachedSorted(events: seq<Span>)
    ensures Reached(Sorted(events, Le), 0) <==> BackwardsReached(events)
  {
    LeTotal();
    SortedAscending(events, Le);
    SortedMembers(events, Le);
    ReachedMeans(Sorted(events, Le), 0);
    forall t ensures Passed(Sorted(events, Le), 0, t) <==> Passed(events, 0, t) {}
  }

  // ---- gaps and covered time together ---------------------------------------------------------------

  /** The gap loop over events that do not run backwards, sorted. */
  lemma ForwardGaps(sorted: seq<Span>, low: int, wall: int)
    requires Ordered(sorted, low) && Forward(sorted)
    ensures var gaps := GapsFrom(sorted, 0, wall);
            && Separate(gaps) && Total(gaps) == |Covered(gaps)|
            && Covered(gaps) == Cells(0, Reach(sorted, wall)) - Covered(sorted)
  {
    GapsSeparate(sorted, 0, wall);
    SeparateFromMeans(GapsFrom(sorted, 0, wall), 0);
    SeparateTotal(GapsFrom(sorted, 0, wall), 0);
    GapsCover(sorted, low, 0, wall);
  }

  lemma {:induction false} ForwardsOrdered(s: seq<Span>, low: int)
    requires Ordered(s, low)
    ensures Ordered(Forwards(s), low)
  {
    if s != [] {
      ForwardsOrdered(s[1..], s[0].start);
      if s[0].start <= s[0].end {
        assert Forwards(s)[1..] == Forwards(s[1..]);
      } else {
        assert Forwards(s) == Forwards(s[1..]);
        WeakerOrder(Forwards(s), s[0].start, low);
      }
    }
  }

  /** The forward events of the sorted list are those of the list, sorted. */
  lemma SortedForwards(events: seq<Span>, wall: int) returns (low: int)
    ensures Ordered(Forwards(Sorted(events, Le)), low) && Forward(Forwards(Sorted(events, Le)))
    ensures Covered(Forwards(Sorted(events, Le))) == Covered(Forwards(events))
    ensures Reach(Forwards(Sorted(events, Le)), wall) == Reach(Forwards(events), wall)
  {
    low := SortedSame(events);
    ForwardsOrdered(Sorted(events, Le), low);
    CoveredIgnoresOrder(Forwards(Sorted(events, Le)), Forwards(events));
    ReachIgnoresOrder(Forwards(Sorted(events, Le)), Forwards(events), wall);
  }

  /** For events in any order, those running backwards all reached: the gaps are disjoint, cover exactly
      the time no forward event covers from 0 to the end of the job or of the last of them, and their
      total length is the size of that time. */
  lemma GapsAreTheUncoveredTime(events: seq<Span>, wall: int)
    requires BackwardsReached(events)
    ensures var gaps := Gaps(events, wall);
            && Separate(gaps)
            && Covered(gaps) == Cells(0, Reach(Forwards(events), wall)) - Covered(Forwards(events))
            && Total(gaps) == |Covered(gaps)|
  {
    var low := SortedForwards(events, wall);
    ReachedSorted(events);
    ReachedIgnored(Sorted(events, Le), 0, wall);
    ForwardGaps(Forwards(Sorted(events, Le)), low, wall);
  }

  ghost predicate InsideJob(events: seq<Span>, wall: int) {
    forall e :: e in events ==> e.end <= wall && (e.start < e.end ==> 0 <= e.start)
  }

  lemma SetSplit(a: set<int>, b: set<int>)
    ensures |a| == |a - b| + |a * b|
  {
    assert a == (a - b) + (a * b);
    DisjointSize(a - b, a * b);
  }

  /** Uncovered and covered time make up the wall time exactly when every event lies inside the job, and
      more than it otherwise. */
  lemma UncoveredAndCovered(events: seq<Span>, wall: int)
    requires Forward(events) && wall >= 0
    ensures var total := |Cells(0, Reach(events, wall)) - Covered(events)| + |Covered(events)|;
            total >= wall && (total == wall <==> InsideJob(events, wall))
  {
    ReachBounds(events, wall);
    var reach, covered := Reach(events, wall), Covered(events);
    var job := Cells(0, reach);
    SetSplit(job, covered);
    SetSplit(covered, job);
    assert job * covered == covered * job;
    assert |job - covered| + |covered| == reach + |covered - job|;
    if InsideJob(events, wall) {
      forall x | x in covered ensures x in job { CoveredMeans(events, x); }
      assert covered - job == {};
    } else {
      var e :| e in events && !(e.end <= wall && (e.start < e.end ==> 0 <= e.start));
      if e.end <= wall {
        CoveredMeans(events, e.start);
        assert e.start in covered - job;
      }
    }
  }

  /** For the events handed to the union and the gap loop: accounted time plus gap time is never less
      than the wall time, and is the wall time exactly when every event that does not run backwards lies
      inside the job and the cursor has passed the start of every one that does. */
  lemma GapsAndUnionMakeTheWall(events: seq<Span>, wall: int)
    requires wall >= 0
    ensures var total := Total(Gaps(events, wall)) + |Covered(WellFormed(AsRecorded(events)))|;
            total >= wall && (total == wall <==> InsideJob(Forwards(events), wall) && BackwardsReached(events))
  {
    UnionOfForwards(events);
    var low := SortedForwards(events, wall);
    BackwardsOnlyAdd(Sorted(events, Le), 0, wall);
    ReachedSorted(events);
    ForwardGaps(Forwards(Sorted(events, Le)), low, wall);
    UncoveredAndCovered(Forwards(events), wall);
  }

  // ---- start-up and finalization ----------------------------------------------------------------------

  function Boundary(from: int, to: int): seq<Span> { if from < to then [Span(from, to)] else [] }

  /** The latest end of any event. */
  function LastEnd(events: seq<Span>): int
    requires events != []
  {
    Reach(events, events[0].end)
  }

  /** The recorded events, with explicit ones for the time before the first stage and after the last. */
  function WithBoundaries(events: seq<Span>, wall: int): seq<Span> {
    if events == [] then [] else events + Boundary(0, FirstStart(events)) + Boundary(LastEnd(events), wall)
  }

  lemma InBoundaries(events: seq<Span>, wall: int, e: Span)
    requires events != []
    ensures e in WithBoundaries(events, wall) <==>
              e in events || (e == Span(0, FirstStart(events)) && 0 < FirstStart(events))
              || (e == Span(LastEnd(events), wall) && LastEnd(events) < wall)
  {}

  /** No recorded event starts before the first start or ends after the last end. */
  lemma Extent(events: seq<Span>)
    requires events != []
    ensures forall e :: e in events ==> FirstStart(events) <= e.start && e.end <= LastEnd(events)
    ensures exists e :: e in events && e.end == LastEnd(events)
  {
    ReachBounds(events, events[0].end);
    assert events[0] in events;
  }

  /** A backwards event the gap loop does not see, by the recorded events alone: it starts no later than
      zero or the first start, or where some event that began before it still runs or just ends, or
      after the last end but inside the job. */
  ghost predicate Absorbed(events: seq<Span>, wall: int, t: int)
    requires events != []
  {
    t <= 0 || t <= FirstStart(events) || Passed(events, 0, t) || LastEnd(events) < t <= wall
  }

  /** Recorded events for which the account comes out: the forward ones lie inside the job, start-up and
      finalization do, and every backwards one is absorbed. */
  ghost predicate Accountable(events: seq<Span>, wall: int) {
    && InsideJob(Forwards(events), wall)
    && (events != [] ==>
          && FirstStart(events) <= wall && 0 <= LastEnd(events)
          && forall e :: e in events && e.end < e.start ==> Absorbed(events, wall, e.start))
  }

  lemma PassedWithBoundaries(events: seq<Span>, wall: int, e: Span)
    requires events != [] && e in events && e.end < e.start
    ensures Passed(WithBoundaries(events, wall), 0, e.start) <==> Absorbed(events, wall, e.start)
  {
    var all, t := WithBoundaries(events, wall), e.start;
    Extent(events);
    if f :| f in all && f.start < t <= f.end { InBoundaries(events, wall, f); }
    if f :| f in events && f.start < t <= f.end { InBoundaries(events, wall, f); }
    InBoundaries(events, wall, Span(0, FirstStart(events)));
    InBoundaries(events, wall, Span(LastEnd(events), wall));
  }

  lemma BackwardsWithBoundaries(events: seq<Span>, wall: int)
    requires events != []
    ensures BackwardsReached(WithBoundaries(events, wall))
       <==> forall e :: e in events && e.end < e.start ==> Absorbed(events, wall, e.start)
  {
    var all := WithBoundaries(events, wall);
    forall e: Span | e.end < e.start
      ensures e in all <==> e in events
      ensures e in events ==> (Passed(all, 0, e.start) <==> Absorbed(events, wall, e.start))
    {
      InBoundaries(events, wall, e);
      if e in events { PassedWithBoundaries(events, wall, e); }
    }
  }

  lemma InsideWithBoundaries(events: seq<Span>, wall: int)
    requires events != [] && wall >= 0
    ensures InsideJob(Forwards(WithBoundaries(events, wall)), wall)
       <==> InsideJob(Forwards(events), wall) && FirstStart(events) <= wall && 0 <= LastEnd(events)
  {
    var all, head, tail := WithBoundaries(events, wall), Span(0, FirstStart(events)), Span(LastEnd(events), wall);
    InBoundaries(events, wall, head);
    InBoundaries(events, wall, tail);
    if InsideJob(Forwards(all), wall) {
      assert 0 < FirstStart(events) ==> head in Forwards(all);
      assert LastEnd(events) < wall ==> tail in Forwards(all);
      forall e | e in Forwards(events) ensures e in Forwards(all) { InBoundaries(events, wall, e); }
    }
    if InsideJob(Forwards(events), wall) && FirstStart(events) <= wall && 0 <= LastEnd(events) {
      forall e | e in Forwards(all) ensures e.end <= wall && (e.start < e.end ==> 0 <= e.start) {
        InBoundaries(events, wall, e);
        if e in events { assert e in Forwards(events); }
      }
    }
  }

  /** Handed on with start-up and finalization added, recorded events are accounted for exactly when they
      are accountable. */
  lemma AccountableMeans(events: seq<Span>, wall: int)
    requires wall >= 0
    ensures var all := WithBoundaries(events, wall);
            Accountable(events, wall) <==> InsideJob(Forwards(all), wall) && BackwardsReached(all)
  {
    if events != [] {
      BackwardsWithBoundaries(events, wall);
      InsideWithBoundaries(events, wall);
    }
  }

  /** The accounting of one job, from its recorded events: accounted time plus gap time is never less than
      the wall time, and is the wall time exactly when the events are accountable. */
  method Account(events: seq<Span>, wall: int) returns (accounted: int, gaps: seq<Span>)
    requires wall >= 0
    ensures var all := WithBoundaries(events, wall);
            accounted == |Covered(WellFormed(AsRecorded(all)))| && gaps == Gaps(all, wall)
    ensures accounted + Total(gaps) >= wall
    ensures accounted + Total(gaps) == wall <==> Accountable(events, wall)
  {
    var all := WithBoundaries(events, wall);
    accounted := IntervalUnion(AsRecorded(all));
    gaps := FindGaps(all, wall);
    GapsAndUnionMakeTheWall(all, wall);
    AccountableMeans(events, wall);
  }

  /** Events (0, 2), (10, 5) and (12, 20) of a job of 20: start-up and finalization add nothing, and the gap
      loop reports [5, 10) twice. */
  lemma BackwardsEventDoubleCounts(events: seq<Span>)
    requires events == [Span(0, 2), Span(10, 5), Span(12, 20)]
    ensures !Accountable(events, 20) && WithBoundaries(events, 20) == events
    ensures Gaps(events, 20) == [Span(2, 10), Span(5, 12)]
  {
    TwiceExtent(events);
    TwiceNotAbsorbed(events);
    TwiceSorted(events);
    TwiceGaps(events);
  }

  lemma TwiceExtent(events: seq<Span>)
    requires events == [Span(0, 2), Span(10, 5), Span(12, 20)]
    ensures FirstStart(events) == 0 && LastEnd(events) == 20 && WithBoundaries(events, 20) == events
  {
    assert events[0] in events && events[1] in events && events[2] in events;
    Extent(events);
  }

  lemma TwiceNotAbsorbed(events: seq<Span>)
    requires events == [Span(0, 2), Span(10, 5), Span(12, 20)] && FirstStart(events) == 0 && LastEnd(events) == 20
    ensures !Accountable(events, 20)
  {
    assert events[1] in events && !Absorbed(events, 20, events[1].start);
  }

  lemma TwiceSorted(events: seq<Span>)
    requires events == [Span(0, 2), Span(10, 5), Span(12, 20)]
    ensures Gaps(events, 20) == GapsFrom(events, 0, 20)
  {
    LeTotal();
    SortedAlready(events, Le);
  }

  lemma TwiceGaps(events: seq<Span>)
    requires events == [Span(0, 2), Span(10, 5), Span(12, 20)]
    ensures GapsFrom(events, 0, 20) == [Span(2, 10), Span(5, 12)]
  {
    assert events[1..] == [events[1], events[2]] && events[1..][1..] == [events[2]] && events[1..][1..][1..] == [];
    assert GapsFrom(events[1..][1..], 5, 20) == [Span(5, 12)];
    assert GapsFrom(events[1..], 2, 20) == [Span(2, 10), Span(5, 12)];
  }

  /** Without (0, 2) start-up runs up to the backwards event and absorbs it. */
  lemma BackwardsEventHarmless(events: seq<Span>)
    requires events == [Span(10, 5), Span(12, 20)]
    ensures Accountable(events, 20)
  {
    assert events[0] in events && events[1] in events;
    Extent(events);
    assert FirstStart(events) == 10 && LastEnd(events) == 20;
  }

  lemma ForwardsConcat(a: seq<Span>, b: seq<Span>)
    ensures Covered(Forwards(a + b)) == Covered(Forwards(a)) + Covered(Forwards(b))
  {
    forall e ensures e in Forwards(a + b) <==> e in Forwards(a) + Forwards(b) {}
    CoveredIgnoresOrder(Forwards(a + b), Forwards(a) + Forwards(b));
    CoveredConcat(Forwards(a), Forwards(b));
  }

  lemma BoundaryCovers(from: int, to: int)
    ensures Covered(Forwards(Boundary(from, to))) == Cells(from, to)
  {
    if from < to { assert [Span(from, to)][1..] == [] && Forwards([Span(from, to)]) == [Span(from, to)]; }
  }

  lemma BoundariesCover(events: seq<Span>, wall: int)
    requires events != []
    ensures Covered(Forwards(WithBoundaries(events, wall)))
         == Covered(Forwards(events)) + Cells(0, FirstStart(events)) + Cells(LastEnd(events), wall)
  {
    var head, tail := Boundary(0, FirstStart(events)), Boundary(LastEnd(events), wall);
    ForwardsConcat(events + head, tail);
    ForwardsConcat(events, head);
    BoundaryCovers(0, FirstStart(events));
    BoundaryCovers(LastEnd(events), wall);
  }

  lemma InnerCells(first: int, last: int, wall: int, covered: set<int>)
    requires first <= wall && 0 <= last
    ensures Cells(0, wall) - (covered + Cells(0, first) + Cells(last, wall))
         == Cells(MaxInt(0, first), MinInt(last, wall)) - covered
  {
    forall x ensures x in Cells(0, wall) && x !in Cells(0, first) && x !in Cells(last, wall)
                <==> x in Cells(MaxInt(0, first), MinInt(last, wall)) {}
  }

  /** For accountable events the gaps are disjoint and exactly the time between the first start and the last
      end, inside the job, that no forward event covers. */
  lemma OnlyInnerTimeIsUnaccounted(events: seq<Span>, wall: int)
    requires events != [] && wall >= 0 && Accountable(events, wall)
    ensures var gaps := Gaps(WithBoundaries(events, wall), wall);
            && Separate(gaps) && Total(gaps) == |Covered(gaps)|
            && Covered(gaps) == Cells(MaxInt(0, FirstStart(events)), MinInt(LastEnd(events), wall))
                                - Covered(Forwards(events))
  {
    var all := WithBoundaries(events, wall);
    AccountableMeans(events, wall);
    GapsAreTheUncoveredTime(all, wall);
    assert Reach(Forwards(all), wall) == wall by { ReachBounds(Forwards(all), wall); }
    BoundariesCover(events, wall);
    InnerCells(FirstStart(events), LastEnd(events), wall, Covered(Forwards(events)));
  }
}
