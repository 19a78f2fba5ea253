/** static/chapter_reader.js, `createReaderState`: where every page of a chapter sits in the
    scroll container, and which page a scroll offset means.

    Page boxes have whole-pixel tops and heights (the source rounds them); scroll offsets are
    real numbers, because browsers report fractional ones. */
module ReaderGeometry {
  import opened Basics

  const PAGE_GAP: nat := 16
  const RENDER_RADIUS: nat := 2
  const MIN_ZOOM: real := 0.25
  const MAX_ZOOM: real := 4.0

  datatype PageMeta = PageMeta(width: nat, height: nat)
  datatype FitMode = FitWidth | FitPage | FitNone
  datatype ViewMode = Continuous | Single
  datatype Box = Box(page: int, top: nat, width: nat, height: nat) {
    function Bottom(): nat { top + height }
  }

  function Min(a: real, b: real): real { if a <= b then a else b }
  function Max(a: real, b: real): real { if a <= b then b else a }

  /** JavaScript's Math.round: halves go up. */
  function Round(x: real): int { (x + 0.5).Floor }

  function ClampZoom(value: real): (z: real)
    ensures MIN_ZOOM <= z <= MAX_ZOOM
    ensures MIN_ZOOM <= value <= MAX_ZOOM ==> z == value
  {
    Min(MAX_ZOOM, Max(MIN_ZOOM, value))
  }

  // ---- boxes -----------------------------------------------------------------------------

  /** What a layout guarantees: every box ends at least PAGE_GAP before any later one. */
  ghost predicate Stacked(boxes: seq<Box>) {
    forall i, j :: 0 <= i < j < |boxes| ==> boxes[i].Bottom() + PAGE_GAP <= boxes[j].top
  }

  /** What the source's layout does exactly: each box starts PAGE_GAP below the one before. */
  ghost predicate Tight(boxes: seq<Box>) {
    forall i, j :: 0 <= i < j < |boxes| && j == i + 1 ==> boxes[j].top == boxes[i].Bottom() + PAGE_GAP
  }

  /** Page numbers grow with the position in the stack. */
  ghost predicate Numbered(boxes: seq<Box>) {
    forall i, j :: 0 <= i < j < |boxes| ==> boxes[i].page < boxes[j].page
  }

  /** Signed overlap of a box with the viewport [top, top + view). */
  function Overlap(box: Box, top: real, view: real): real {
    Min(top + view, box.Bottom() as real) - Max(top, box.top as real)
  }

  /** The source's scan over the first `n` boxes: a box takes over only when it shows more
      than half a pixel more than the best one so far. */
  function Best(boxes: seq<Box>, top: real, view: real, n: nat): (k: nat)
    requires 0 < n <= |boxes|
    ensures k < n
  {
    if n == 1 then 0 else
      var k := Best(boxes, top, view, n - 1);
      if Overlap(boxes[n - 1], top, view) > Overlap(boxes[k], top, view) + 0.5 then n - 1 else k
  }

  predicate AtDocumentEnd(boxes: seq<Box>, mode: ViewMode, view: real, top: real)
    requires |boxes| > 0
  {
    mode == Continuous && view > 0.0 && top + view >= boxes[|boxes| - 1].Bottom() as real - 1.0
  }

  /** The page a scroll offset means, for a reader currently on page `current`. */
  function PageShown(boxes: seq<Box>, mode: ViewMode, view: real, current: int, scrollTop: real): int {
    if boxes == [] then current
    else
      var top := Max(0.0, scrollTop);
      if AtDocumentEnd(boxes, mode, view, top) then boxes[|boxes| - 1].page
      else boxes[Best(boxes, top, view, |boxes|)].page
  }

  // ---- scrolling down never turns a page back ----------------------------------------------

  /** The lead of a later box over an earlier one only grows while scrolling down. */
  lemma LeadGrows(above: Box, below: Box, view: real, t: real, u: real)
    requires above.Bottom() <= below.top && t <= u && view >= 0.0
    ensures Overlap(below, t, view) - Overlap(above, t, view)
         <= Overlap(below, u, view) - Overlap(above, u, view)
  {}

  predicate InOrder(above: Box, middle: Box, below: Box) {
    above.Bottom() <= middle.top && middle.Bottom() <= below.top
  }

  /** At t `below` beats `above` and `middle` does not; by u `middle` does, and `below` no longer
      beats the winner: the half-pixel threshold is used to climb back. */
  ghost predicate ClimbsBack(above: Box, middle: Box, below: Box, view: real, t: real, u: real) {
    && Overlap(middle, t, view) <= Overlap(above, t, view) + 0.5
    && Overlap(below, t, view) > Overlap(above, t, view) + 0.5
    && Overlap(middle, u, view) > Overlap(above, u, view) + 0.5
    && Overlap(below, u, view) <= Overlap(middle, u, view) + 0.5
  }

  /** That happens only where the middle box is wholly in view, ... */
  lemma MiddleInView(above: Box, middle: Box, below: Box, view: real, t: real, u: real)
    requires InOrder(above, middle, below) && t <= u && view >= 0.0 && ClimbsBack(above, middle, below, view, t, u)
    ensures t < middle.top as real && middle.Bottom() as real <= t + view
    ensures above.top as real < u
  {}

  /** ... the lower one is entering it, ... */
  lemma BelowEnters(above: Box, middle: Box, below: Box, view: real, t: real, u: real)
    requires InOrder(above, middle, below) && t <= u <= middle.top as real && view >= 0.0
    requires ClimbsBack(above, middle, below, view, t, u)
    ensures u + view < below.Bottom() as real
  {
    assert below.height as real <= middle.height as real + 0.5 ==> below.height <= middle.height;
  }

  function GapsAround(above: Box, middle: Box, below: Box): int {
    middle.top - above.Bottom() + (below.top - middle.Bottom())
  }

  /** ... and the viewport is less than half a pixel lower than three times the middle box and the
      gaps around it. */
  lemma ClimbBackHeight(above: Box, middle: Box, below: Box, view: real, t: real, u: real)
    requires InOrder(above, middle, below) && t <= u && view >= 0.0 && ClimbsBack(above, middle, below, view, t, u)
    ensures 3 * middle.height + GapsAround(above, middle, below) == view.Floor + 1
    ensures view - view.Floor as real > 0.5
  {
    MiddleInView(above, middle, below, view, t, u);
    var v := Min(u, middle.top as real);
    BelowEnters(above, middle, below, view, t, v);
    var whole := 3 * middle.height + GapsAround(above, middle, below);
    assert 0.0 < whole as real - view < 0.5;
    assert view < whole as real < view + 0.5;
  }

  /** Box q shows at most half a pixel more than box k. */
  predicate NoBetter(boxes: seq<Box>, top: real, view: real, k: nat, q: nat)
    requires k < |boxes| && q < |boxes|
  {
    Overlap(boxes[q], top, view) <= Overlap(boxes[k], top, view) + 0.5
  }

  /** One step of the scan, without its arithmetic. */
  lemma BestStep(boxes: seq<Box>, top: real, view: real, n: nat)
    requires 1 < n <= |boxes|
    ensures var b := Best(boxes, top, view, n - 1);
            Best(boxes, top, view, n) == if NoBetter(boxes, top, view, b, n - 1) then b else n - 1
  {}

  /** Everything scanned so far is within half a pixel of the best. */
  lemma {:induction false} BestWithinHalfPixel(boxes: seq<Box>, top: real, view: real, n: nat, i: nat)
    requires i < n <= |boxes|
    ensures NoBetter(boxes, top, view, Best(boxes, top, view, n), i)
  {
    if i < n - 1 {
      BestWithinHalfPixel(boxes, top, view, n - 1, i);
      BestStep(boxes, top, view, n);
    }
  }

  /** Viewport heights at which scrolling down never turns a page back: up to half a pixel over a
      whole number, or too low for three pages to meet as `ClimbBackHeight` asks. */
  predicate Steady(view: real) { view - view.Floor as real <= 0.5 || !Unsteady(view.Floor) }

  predicate Unsteady(whole: int) { whole >= 31 && (whole >= 49 || whole % 3 == 1 || whole == 47) }

  /** Every box between the three adds its height and one more gap. */
  lemma GapsAdd(boxes: seq<Box>, k: nat, l: nat, j: nat, z: nat)
    requires Tight(boxes) && Stacked(boxes) && k < l < j < |boxes| && j - k > 2
    requires z == if l > k + 1 then k + 1 else l + 1
    ensures var gaps := GapsAround(boxes[k], boxes[l], boxes[j]);
            gaps == 3 * PAGE_GAP + boxes[z].height || gaps >= 4 * PAGE_GAP
  {
    if l > k + 1 {
      assert boxes[k + 1].top == boxes[k].Bottom() + PAGE_GAP;
      if l > k + 2 { assert boxes[k + 2].top == boxes[k + 1].Bottom() + PAGE_GAP; }
    }
    if j > l + 1 {
      assert boxes[l + 1].top == boxes[l].Bottom() + PAGE_GAP;
      if j > l + 2 { assert boxes[l + 2].top == boxes[l + 1].Bottom() + PAGE_GAP; }
    }
  }

  /** A box between the three that does not beat the first is no higher than the middle one. */
  lemma ExtraBox(above: Box, middle: Box, below: Box, extra: Box, view: real, t: real, u: real)
    requires InOrder(above, middle, below) && t <= u && view >= 0.0 && ClimbsBack(above, middle, below, view, t, u)
    requires InOrder(above, extra, middle) || InOrder(middle, extra, below)
    requires Overlap(extra, t, view) <= Overlap(above, t, view) + 0.5
    requires above.Bottom() + PAGE_GAP <= extra.top && above.Bottom() + PAGE_GAP <= middle.top
    ensures extra.height <= middle.height
  {
    MiddleInView(above, middle, below, view, t, u);
  }

  lemma UnsteadyWhole(view: real, middle: nat, gaps: int, extra: nat)
    requires 3 * middle + gaps == view.Floor + 1 && view - view.Floor as real > 0.5
    requires gaps == 2 * PAGE_GAP || (gaps == 3 * PAGE_GAP + extra && extra <= middle) || gaps >= 4 * PAGE_GAP
    ensures !Steady(view)
  {}

  /** Three boxes of a layout that climb back, while nothing above the lowest beats the first at t. */
  lemma ClimbsOnlyUnsteady(boxes: seq<Box>, view: real, t: real, u: real, k: nat, l: nat, j: nat)
    requires Tight(boxes) && Stacked(boxes) && k < l < j < |boxes| && t <= u && view >= 0.0
    requires forall q :: 0 <= q < j ==> NoBetter(boxes, t, view, k, q)
    requires ClimbsBack(boxes[k], boxes[l], boxes[j], view, t, u)
    ensures !Steady(view)
  {
    var above, middle, below := boxes[k], boxes[l], boxes[j];
    ClimbBackHeight(above, middle, below, view, t, u);
    if j - k > 2 {
      var z := if l > k + 1 then k + 1 else l + 1;
      assert NoBetter(boxes, t, view, k, z);
      GapsAdd(boxes, k, l, j, z);
      ExtraBox(above, middle, below, boxes[z], view, t, u);
      UnsteadyWhole(view, middle.height, GapsAround(above, middle, below), boxes[z].height);
    } else {
      assert boxes[l].top == boxes[k].Bottom() + PAGE_GAP && boxes[j].top == boxes[l].Bottom() + PAGE_GAP;
      UnsteadyWhole(view, middle.height, GapsAround(above, middle, below), 0);
    }
  }

  /** The scan at u is at least as far as the scan at t, and when further, by more than half a pixel. */
  ghost predicate Onward(boxes: seq<Box>, view: real, t: real, u: real, n: nat)
    requires 0 < n <= |boxes|
  {
    var k, l := Best(boxes, t, view, n), Best(boxes, u, view, n);
    k <= l && (k < l ==> !NoBetter(boxes, u, view, k, l))
  }

  lemma BetterStaysBetter(boxes: seq<Box>, view: real, t: real, u: real, k: nat, j: nat)
    requires Stacked(boxes) && k < j < |boxes| && t <= u && view >= 0.0 && !NoBetter(boxes, t, view, k, j)
    ensures !NoBetter(boxes, u, view, k, j)
  {
    LeadGrows(boxes[k], boxes[j], view, t, u);
  }

  lemma BetterThanBetter(boxes: seq<Box>, top: real, view: real, k: nat, l: nat, j: nat)
    requires k < |boxes| && l < |boxes| && j < |boxes|
    requires !NoBetter(boxes, top, view, k, l) && !NoBetter(boxes, top, view, l, j)
    ensures !NoBetter(boxes, top, view, k, j)
  {}

  /** What the scan at t took over with, the scan at u takes over with too. */
  lemma TakenAgain(boxes: seq<Box>, view: real, t: real, u: real, k: nat, l: nat, j: nat)
    requires Tight(boxes) && Stacked(boxes) && k <= l < j < |boxes| && t <= u && view >= 0.0 && Steady(view)
    requires k == Best(boxes, t, view, j) && !NoBetter(boxes, t, view, k, j)
    requires k < l ==> !NoBetter(boxes, u, view, k, l)
    ensures !NoBetter(boxes, u, view, l, j)
  {
    if k == l {
      BetterStaysBetter(boxes, view, t, u, k, j);
    } else if NoBetter(boxes, u, view, l, j) {
      forall q | 0 <= q < j ensures NoBetter(boxes, t, view, k, q) { BestWithinHalfPixel(boxes, t, view, j, q); }
      assert NoBetter(boxes, t, view, k, l);
      ClimbsOnlyUnsteady(boxes, view, t, u, k, l, j);
    }
  }

  lemma OnwardStep(boxes: seq<Box>, view: real, t: real, u: real, n: nat)
    requires Tight(boxes) && Stacked(boxes) && 1 < n <= |boxes| && t <= u && view >= 0.0 && Steady(view)
    requires Onward(boxes, view, t, u, n - 1)
    ensures Onward(boxes, view, t, u, n)
  {
    var j := n - 1;
    var k, l := Best(boxes, t, view, j), Best(boxes, u, view, j);
    BestStep(boxes, t, view, n);
    BestStep(boxes, u, view, n);
    if !NoBetter(boxes, t, view, k, j) {
      TakenAgain(boxes, view, t, u, k, l, j);
    } else if !NoBetter(boxes, u, view, l, j) && k < l {
      BetterThanBetter(boxes, u, view, k, l, j);
    }
  }

  lemma {:induction false} BestMonotone(boxes: seq<Box>, view: real, t: real, u: real, n: nat)
    requires Tight(boxes) && Stacked(boxes) && 0 < n <= |boxes| && t <= u && view >= 0.0 && Steady(view)
    ensures Onward(boxes, view, t, u, n)
  {
    if n > 1 {
      BestMonotone(boxes, view, t, u, n - 1);
      OnwardStep(boxes, view, t, u, n);
    }
  }

  /** Away from the end of the document, no page shows more than half a pixel more than the
      one chosen. */
  lemma ChosenPageIsBest(boxes: seq<Box>, mode: ViewMode, view: real, current: int, scrollTop: real) returns (k: nat)
    requires boxes != []
    requires mode == Continuous && view > 0.0 ==>
               Max(0.0, scrollTop) + view < boxes[|boxes| - 1].Bottom() as real - 1.0
    ensures k < |boxes| && PageShown(boxes, mode, view, current, scrollTop) == boxes[k].page
    ensures forall i :: 0 <= i < |boxes| ==>
              Overlap(boxes[i], Max(0.0, scrollTop), view) <= Overlap(boxes[k], Max(0.0, scrollTop), view) + 0.5
  {
    k := Best(boxes, Max(0.0, scrollTop), view, |boxes|);
    forall i | 0 <= i < |boxes|
      ensures Overlap(boxes[i], Max(0.0, scrollTop), view) <= Overlap(boxes[k], Max(0.0, scrollTop), view) + 0.5
    {
      BestWithinHalfPixel(boxes, Max(0.0, scrollTop), view, |boxes|, i);
    }
  }

  // ---- the offset of a page reads back as that page ------------------------------------------

  /** Once box k is the best so far, it stays the best exactly while no later box shows more. */
  lemma {:induction false} BestStays(boxes: seq<Box>, top: real, view: real, k: nat, n: nat)
    requires k < n <= |boxes| && Best(boxes, top, view, k + 1) == k
    ensures k <= Best(boxes, top, view, n)
    ensures Best(boxes, top, view, n) == k <==> forall q :: k < q < n ==> NoBetter(boxes, top, view, k, q)
  {
    if n > k + 1 {
      BestStays(boxes, top, view, k, n - 1);
      BestStep(boxes, top, view, n);
    }
  }

  /** Scrolled to the top of box k, the scan picks k as soon as it meets it. */
  lemma BestAtOwnTop(boxes: seq<Box>, view: real, k: nat)
    requires Stacked(boxes) && k < |boxes| && view >= 0.0
    ensures Best(boxes, boxes[k].top as real, view, k + 1) == k
  {
    if k > 0 {
      var top := boxes[k].top as real;
      BestStep(boxes, top, view, k + 1);
      OwnTopBeatsEarlier(boxes, view, k, Best(boxes, top, view, k));
    }
  }

  /** At the top of box k every earlier box has scrolled out by at least the gap. */
  lemma OwnTopBeatsEarlier(boxes: seq<Box>, view: real, k: nat, i: nat)
    requires Stacked(boxes) && i < k < |boxes| && view >= 0.0
    ensures !NoBetter(boxes, boxes[k].top as real, view, i, k)
  {
    assert boxes[i].Bottom() + PAGE_GAP <= boxes[k].top;
  }

  /** No box after k shows more than half a pixel more than box k. */
  ghost predicate NoneBetterAbove(boxes: seq<Box>, top: real, view: real, k: nat)
    requires k < |boxes|
  {
    forall q :: k < q < |boxes| ==> NoBetter(boxes, top, view, k, q)
  }

  /** Scrolled to the top of box k: the end-of-document rule does not claim the offset for another
      page, and no later page shows more of itself. */
  ghost predicate ReadsBack(boxes: seq<Box>, view: real, k: nat)
    requires k < |boxes|
  {
    if view > 0.0 && boxes[k].top as real + view >= boxes[|boxes| - 1].Bottom() as real - 1.0 then k == |boxes| - 1
    else NoneBetterAbove(boxes, boxes[k].top as real, view, k)
  }

  /** Exactly then scrolling to the offset of a page means that page. */
  lemma OffsetReadsBackExactly(boxes: seq<Box>, view: real, current: int, k: nat)
    requires Stacked(boxes) && Numbered(boxes) && k < |boxes| && view >= 0.0
    ensures PageShown(boxes, Continuous, view, current, boxes[k].top as real) == boxes[k].page
       <==> ReadsBack(boxes, view, k)
  {
    BestAtOwnTop(boxes, view, k);
    BestStays(boxes, boxes[k].top as real, view, k, |boxes|);
  }

  /** It may not: in a viewport 400 pixels high the offset of a page 100 pixels high means the taller
      page below it. */
  lemma ShortPageMayNotReadBack()
    ensures var boxes := [Box(1, 0, 10, 100), Box(2, 116, 10, 500)];
            && Tight(boxes) && Numbered(boxes) && !ReadsBack(boxes, 400.0, 0)
            && PageShown(boxes, Continuous, 400.0, 1, boxes[0].top as real) == 2
  {
    var boxes := [Box(1, 0, 10, 100), Box(2, 116, 10, 500)];
    assert !NoBetter(boxes, 0.0, 400.0, 0, 1);
    assert Best(boxes, 0.0, 400.0, 1) == 0;
    assert Best(boxes, 0.0, 400.0, 2) == 1;
  }

  /** A page whose doubled height plus the gap fills the viewport always reads back, unless the
      viewport reaches the end of the document. */
  lemma TallEnoughPageReadsBack(boxes: seq<Box>, view: real, current: int, k: nat)
    requires Stacked(boxes) && Numbered(boxes) && k < |boxes| && view >= 0.0
    requires 2.0 * boxes[k].height as real + PAGE_GAP as real >= view
    requires boxes[k].top as real + view < boxes[|boxes| - 1].Bottom() as real - 1.0
    ensures PageShown(boxes, Continuous, view, current, boxes[k].top as real) == boxes[k].page
  {
    OffsetReadsBackExactly(boxes, view, current, k);
    var top := boxes[k].top as real;
    forall q | k < q < |boxes| ensures NoBetter(boxes, top, view, k, q) {}
  }

  // ---- the reader object ----------------------------------------------------------------------

  /** Everything a page's drawn size depends on. */
  datatype Sizing = Sizing(pages: seq<PageMeta>, zoom: real, fitMode: FitMode, viewWidth: real, viewHeight: real) {
    function Meta(number: int): PageMeta {
      if 1 <= number <= |pages| then pages[number - 1] else PageMeta(0, 0)
    }

    /** Fit modes follow the viewport, manual zoom does not; always inside the zoom limits. */
    function PageScale(number: int): (scale: real)
      ensures MIN_ZOOM <= scale <= MAX_ZOOM
    {
      var meta := Meta(number);
      if meta.width == 0 || meta.height == 0 then ClampZoom(zoom)
      else if fitMode == FitWidth && viewWidth > 0.0 then ClampZoom(viewWidth / meta.width as real)
      else if fitMode == FitPage && viewWidth > 0.0 && viewHeight > 0.0 then
        ClampZoom(Min(viewWidth / meta.width as real, viewHeight / meta.height as real))
      else ClampZoom(zoom)
    }

    function Drawn(number: int): Extent {
      var meta, factor := Meta(number), PageScale(number);
      Extent(ScaledPixels(meta.width, factor), ScaledPixels(meta.height, factor))
    }

    function AllDrawn(): int -> Extent { number => Drawn(number) }
  }

  /** Fit-to-width fills the viewport's width exactly inside the zoom limits; fit-to-page fits inside
      the viewport exactly when that needs no scale below the least, and then fills one of its sides
      exactly when it needs none above the greatest. */
  lemma FitModesFit(sizes: Sizing, number: int)
    requires sizes.Meta(number).width > 0 && sizes.Meta(number).height > 0
    requires sizes.viewWidth > 0.0 && sizes.viewHeight > 0.0
    ensures var meta, scale := sizes.Meta(number), sizes.PageScale(number);
            var w, h := meta.width as real * scale, meta.height as real * scale;
            var across, down := sizes.viewWidth / meta.width as real, sizes.viewHeight / meta.height as real;
            && (sizes.fitMode == FitWidth ==>
                  (w == sizes.viewWidth <==> 0.25 <= across <= 4.0)
                  && (across < 0.25 ==> scale == 0.25) && (across > 4.0 ==> scale == 4.0))
            && (sizes.fitMode == FitPage ==>
                  && (w <= sizes.viewWidth && h <= sizes.viewHeight <==> 0.25 <= Min(across, down))
                  && (w <= sizes.viewWidth && h <= sizes.viewHeight && (w == sizes.viewWidth || h == sizes.viewHeight)
                      <==> 0.25 <= Min(across, down) <= 4.0)
                  && (Min(across, down) < 0.25 ==> scale == 0.25) && (Min(across, down) > 4.0 ==> scale == 4.0))
  {
    var meta, scale := sizes.Meta(number), sizes.PageScale(number);
    ScaledWithin(meta.width as real, sizes.viewWidth, scale);
    ScaledWithin(meta.height as real, sizes.viewHeight, scale);
  }

  lemma ScaledWithin(size: real, room: real, scale: real)
    requires size > 0.0
    ensures size * scale <= room <==> scale <= room / size
    ensures size * scale == room <==> scale == room / size
  {
    var most := room / size;
    assert size * most == room;
    if scale < most { assert size * scale < size * most; }
    if scale > most { assert size * scale > size * most; }
  }

  datatype Extent = Extent(width: nat, height: nat)

  function BoxFor(drawn: int -> Extent, number: int, top: nat): Box {
    Box(number, top, drawn(number).width, drawn(number).height)
  }

  function ScaledPixels(size: nat, factor: real): nat
    requires factor > 0.0
  {
    var scaled := size as real * factor;
    assert scaled >= 0.0;
    Round(scaled)
  }

  ghost function BoxesFrom(drawn: int -> Extent, numbers: seq<int>, top: nat): (boxes: seq<Box>)
    ensures |boxes| == |numbers|
  {
    if numbers == [] then [] else
      var box := BoxFor(drawn, numbers[0], top);
      [box] + BoxesFrom(drawn, numbers[1..], box.Bottom() + PAGE_GAP)
  }

  lemma {:induction false} BoxesFromStacked(drawn: int -> Extent, numbers: seq<int>, top: nat)
    ensures var boxes := BoxesFrom(drawn, numbers, top);
            && Stacked(boxes)
            && forall k :: 0 <= k < |boxes| ==> boxes[k].page == numbers[k] && boxes[k].top >= top
  {
    if numbers != [] {
      BoxesFromStacked(drawn, numbers[1..], BoxFor(drawn, numbers[0], top).Bottom() + PAGE_GAP);
    }
  }

  lemma TightCons(box: Box, rest: seq<Box>)
    requires Tight(rest) && (rest != [] ==> rest[0].top == box.Bottom() + PAGE_GAP)
    ensures Tight([box] + rest)
  {
    var boxes := [box] + rest;
    forall i, j | 0 <= i < j < |boxes| && j == i + 1 ensures boxes[j].top == boxes[i].Bottom() + PAGE_GAP {
      assert boxes[j] == rest[i];
      if i > 0 { assert boxes[i] == rest[i - 1]; }
    }
  }

  /** The first box starts at `top`, and each later one PAGE_GAP below the one before. */
  lemma {:induction false} BoxesFromTight(drawn: int -> Extent, numbers: seq<int>, top: nat)
    ensures Tight(BoxesFrom(drawn, numbers, top))
    ensures numbers != [] ==> BoxesFrom(drawn, numbers, top)[0].top == top
  {
    if numbers != [] {
      var box := BoxFor(drawn, numbers[0], top);
      BoxesFromTight(drawn, numbers[1..], box.Bottom() + PAGE_GAP);
      TightCons(box, BoxesFrom(drawn, numbers[1..], box.Bottom() + PAGE_GAP));
    }
  }

  lemma {:induction false} BoxesFromSized(drawn: int -> Extent, numbers: seq<int>, top: nat, k: nat)
    requires k < |numbers|
    ensures BoxesFrom(drawn, numbers, top)[k].height == drawn(numbers[k]).height
  {
    if k > 0 { BoxesFromSized(drawn, numbers[1..], BoxFor(drawn, numbers[0], top).Bottom() + PAGE_GAP, k - 1); }
  }

  /** The pages laid out: the current one, or all of them. */
  function Numbers(mode: ViewMode, count: nat, page: int): seq<int> {
    if mode == Single then [page] else seq(count, i => i + 1)
  }

  /** The layout of a chapter that lists `listed` pages and claims `claimed`. */
  ghost function Laid(drawn: int -> Extent, mode: ViewMode, listed: nat, claimed: int, page: int): (boxes: seq<Box>)
    ensures Stacked(boxes) && Numbered(boxes) && Tight(boxes)
    ensures claimed >= 1 && mode == Continuous ==>
              |boxes| == listed && forall k :: 0 <= k < listed ==> boxes[k].page == k + 1
  {
    if claimed < 1 then [] else
      BoxesFromStacked(drawn, Numbers(mode, listed, page), 0);
      BoxesFromTight(drawn, Numbers(mode, listed, page), 0);
      BoxesFrom(drawn, Numbers(mode, listed, page), 0)
  }

  // ---- scrolling down, over every reader ---------------------------------------------------------

  /** The page a scroll offset means to a reader with these pages and viewport. */
  ghost function PageMeant(sizes: Sizing, mode: ViewMode, claimed: int, page: int, scrollTop: real): int {
    PageShown(Laid(sizes.AllDrawn(), mode, |sizes.pages|, claimed, page), mode, sizes.viewHeight, page, scrollTop)
  }

  /** With the end of the document in view, or less than a pixel below it, the last page is meant: however
      little of it shows. */
  lemma EndMeansLastPage(sizes: Sizing, claimed: int, page: int, scrollTop: real)
    requires claimed >= 1 && sizes.pages != [] && sizes.viewHeight > 0.0
    ensures var boxes := Laid(sizes.AllDrawn(), Continuous, |sizes.pages|, claimed, page);
            Max(0.0, scrollTop) + sizes.viewHeight >= boxes[|boxes| - 1].Bottom() as real - 1.0
            ==> PageMeant(sizes, Continuous, claimed, page, scrollTop) == |sizes.pages|
  {}

  /** A single page on view is the one meant, wherever it is scrolled; and so is the current page of a chapter
      without pages. */
  lemma SinglePageIsMeant(sizes: Sizing, mode: ViewMode, claimed: int, page: int, scrollTop: real)
    requires mode == Single || claimed < 1 || sizes.pages == []
    ensures PageMeant(sizes, mode, claimed, page, scrollTop) == page
  {
    BoxesFromStacked(sizes.AllDrawn(), Numbers(mode, |sizes.pages|, page), 0);
  }

  /** A page is drawn at its scale, to the nearest pixel, halves up; one the chapter does not have, not at all. */
  lemma DrawnToTheNearestPixel(sizes: Sizing, number: int)
    ensures var meta, scale, drawn := sizes.Meta(number), sizes.PageScale(number), sizes.Drawn(number);
            && -0.5 < drawn.width as real - meta.width as real * scale <= 0.5
            && -0.5 < drawn.height as real - meta.height as real * scale <= 0.5
            && (1 <= number <= |sizes.pages| ==> meta == sizes.pages[number - 1])
            && (number < 1 || number > |sizes.pages| ==> drawn == Extent(0, 0))
  {}

  /** Pages without a size, without a viewport to fit, and all pages under manual zoom are drawn at the zoom. */
  lemma ManualZoom(sizes: Sizing, number: int)
    requires sizes.fitMode == FitNone || sizes.Meta(number).width == 0 || sizes.Meta(number).height == 0
             || sizes.viewWidth <= 0.0 || (sizes.fitMode == FitPage && sizes.viewHeight <= 0.0)
    ensures 0.25 <= sizes.zoom <= 4.0 ==> sizes.PageScale(number) == sizes.zoom
    ensures sizes.zoom < 0.25 ==> sizes.PageScale(number) == 0.25
    ensures sizes.zoom > 4.0 ==> sizes.PageScale(number) == 4.0
  {}

  /** Whatever the chapter, its sizes and the view mode: scrolling down never turns a page back. */
  ghost predicate NeverTurnsBack(view: real) {
    forall sizes: Sizing, mode: ViewMode, claimed: int, page: int, t: real, u: real ::
      sizes.viewHeight == view && t <= u
      ==> PageMeant(sizes, mode, claimed, page, t) <= PageMeant(sizes, mode, claimed, page, u)
  }

  lemma SteadyNeverTurnsBack(view: real, sizes: Sizing, mode: ViewMode, claimed: int, page: int, t: real, u: real)
    requires view >= 0.0 && Steady(view) && sizes.viewHeight == view && t <= u
    ensures PageMeant(sizes, mode, claimed, page, t) <= PageMeant(sizes, mode, claimed, page, u)
  {
    var boxes := Laid(sizes.AllDrawn(), mode, |sizes.pages|, claimed, page);
    if boxes != [] {
      BestMonotone(boxes, view, Max(0.0, t), Max(0.0, u), |boxes|);
    }
  }

  /** A layout in which the second box overtakes the first between t and u, and thereby takes the
      page back from the last one. */
  lemma TurnsBackAt(boxes: seq<Box>, view: real, t: real, u: real)
    requires |boxes| >= 3 && Numbered(boxes) && 0.0 <= t <= u
    requires u + view < boxes[|boxes| - 1].Bottom() as real - 1.0
    requires forall q :: 0 < q < |boxes| - 1 ==> NoBetter(boxes, t, view, 0, q)
    requires !NoBetter(boxes, t, view, 0, |boxes| - 1) && !NoBetter(boxes, u, view, 0, 1)
    requires forall q :: 1 < q < |boxes| ==> NoBetter(boxes, u, view, 1, q)
    ensures PageShown(boxes, Continuous, view, 1, t) > PageShown(boxes, Continuous, view, 1, u)
  {
    var n := |boxes|;
    BestStays(boxes, t, view, 0, n - 1);
    BestStep(boxes, t, view, n);
    BestStep(boxes, u, view, 2);
    BestStays(boxes, u, view, 1, n);
  }

  /** Pages of the given heights, drawn as they are. */
  function Plain(heights: seq<nat>, view: real): Sizing {
    Sizing(seq(|heights|, i requires 0 <= i < |heights| => PageMeta(10, heights[i])), 1.0, FitNone, 10.0, view)
  }

  lemma PlainLayout(heights: seq<nat>, view: real) returns (boxes: seq<Box>)
    requires heights != []
    ensures boxes == Laid(Plain(heights, view).AllDrawn(), Continuous, |heights|, |heights|, 1)
    ensures |boxes| == |heights| && Tight(boxes) && Numbered(boxes) && boxes[0].top == 0
    ensures forall k :: 0 <= k < |heights| ==> boxes[k].height == heights[k]
  {
    var drawn, numbers := Plain(heights, view).AllDrawn(), Numbers(Continuous, |heights|, 1);
    boxes := Laid(drawn, Continuous, |heights|, |heights|, 1);
    BoxesFromTight(drawn, numbers, 0);
    forall k | 0 <= k < |heights| ensures boxes[k].height == heights[k] {
      BoxesFromSized(drawn, numbers, 0, k);
      assert numbers[k] == k + 1;
      DrawnPlain(heights, view, k);
    }
  }

  lemma DrawnPlain(heights: seq<nat>, view: real, k: nat)
    requires k < |heights|
    ensures Plain(heights, view).Drawn(k + 1).height == heights[k]
  {
    var h := heights[k];
    assert ClampZoom(1.0) == 1.0 && Round(h as real * 1.0) == h;
  }

  /** The heights of a chapter that turns back: a tall page, one of about a third of the viewport,
      perhaps one of at most a pixel to fill up, and a very tall one. */
  function TurningBack(whole: nat): seq<nat>
    requires Unsteady(whole)
  {
    var rest := (whole + 1) % 3;
    if rest == 2 then [200 + whole, (whole - 31) / 3, 10 * whole + 500]
    else [200 + whole, (whole - 47 - rest) / 3, rest, 10 * whole + 500]
  }

  lemma TurningBackFits(whole: nat)
    requires Unsteady(whole)
    ensures var heights := TurningBack(whole);
            && 3 <= |heights| <= 4 && heights[1] <= heights[0] && heights[|heights| - 1] == 10 * whole + 500
            && (|heights| == 3 ==> 3 * heights[1] + 2 * PAGE_GAP == whole + 1)
            && (|heights| == 4 ==> heights[2] <= heights[1] && 3 * heights[1] + 3 * PAGE_GAP + heights[2] == whole + 1)
  {
    var rest := (whole + 1) % 3;
    if rest == 2 {
      Third(whole - 31);
    } else {
      Third(whole - 47 - rest);
    }
  }

  lemma Third(n: nat)
    requires n % 3 == 0
    ensures 3 * (n / 3) == n
  {}

  lemma TallerThanTwice(view: real, whole: nat)
    requires view < (whole + 1) as real
    ensures (10 * whole + 500) as real > 2.0 * view + 2.0
  {
    assert (10 * whole + 500) as real == 10.0 * whole as real + 500.0;
  }

  lemma UnsteadyTurnsBack(view: real) returns (sizes: Sizing, t: real, u: real)
    requires view >= 0.0 && !Steady(view)
    ensures sizes.viewHeight == view && t <= u
    ensures var n := |sizes.pages|; PageMeant(sizes, Continuous, n, 1, t) > PageMeant(sizes, Continuous, n, 1, u)
  {
    var heights := TurningBack(view.Floor);
    TurningBackFits(view.Floor);
    TallerThanTwice(view, view.Floor);
    sizes := Plain(heights, view);
    var boxes := PlainLayout(heights, view);
    t := (boxes[0].height - boxes[1].height) as real + 0.5;
    u := t + (1.0 - (view - view.Floor as real)) / 2.0;
    TurnsBackThere(boxes, view, t, u);
    TurnsBackAt(boxes, view, t, u);
  }

  lemma TurnsBackThere(boxes: seq<Box>, view: real, t: real, u: real)
    requires Tight(boxes) && 3 <= |boxes| <= 4 && boxes[0].top == 0 && boxes[1].height <= boxes[0].height
    requires boxes[|boxes| - 1].height as real > 2.0 * view + 2.0
    requires |boxes| == 3 ==> 3 * boxes[1].height + 2 * PAGE_GAP == view.Floor + 1
    requires |boxes| == 4 ==>
               && boxes[2].height <= boxes[1].height
               && 3 * boxes[1].height + 3 * PAGE_GAP + boxes[2].height == view.Floor + 1
    requires view - view.Floor as real > 0.5
    requires t == (boxes[0].height - boxes[1].height) as real + 0.5
    requires u == t + (1.0 - (view - view.Floor as real)) / 2.0
    ensures 0.0 <= t <= u && u + view < boxes[|boxes| - 1].Bottom() as real - 1.0
    ensures forall q :: 0 < q < |boxes| - 1 ==> NoBetter(boxes, t, view, 0, q)
    ensures !NoBetter(boxes, t, view, 0, |boxes| - 1) && !NoBetter(boxes, u, view, 0, 1)
    ensures forall q :: 1 < q < |boxes| ==> NoBetter(boxes, u, view, 1, q)
  {
    var last := |boxes| - 1;
    assert boxes[1].top == boxes[0].Bottom() + PAGE_GAP && boxes[2].top == boxes[1].Bottom() + PAGE_GAP;
    if last == 3 { assert boxes[3].top == boxes[2].Bottom() + PAGE_GAP; }
    HeightClimbsBack(boxes[0], boxes[1], boxes[last], view, t, u);
    ShowsAtMostItself(boxes[2], t, view);
    ShowsAtMostItself(boxes[2], u, view);
    assert NoBetter(boxes, t, view, 0, 1) && NoBetter(boxes, u, view, 1, last);
    if last == 3 { assert NoBetter(boxes, t, view, 0, 2) && NoBetter(boxes, u, view, 1, 2); }
  }

  /** Where the viewport is less than half a pixel lower than three times the middle box and its gaps,
      the three do climb back: around the offset at which the first shows as much as the second. */
  lemma HeightClimbsBack(above: Box, middle: Box, below: Box, view: real, t: real, u: real)
    requires above.top == 0 && middle.height <= above.height && above.Bottom() + PAGE_GAP == middle.top
    requires middle.Bottom() + PAGE_GAP <= below.top && below.height as real > 2.0 * view + 2.0
    requires 3 * middle.height + GapsAround(above, middle, below) == view.Floor + 1
    requires view - view.Floor as real > 0.5
    requires t == (above.height - middle.height) as real + 0.5
    requires u == t + (1.0 - (view - view.Floor as real)) / 2.0
    ensures 0.0 <= t <= u && u + view < below.Bottom() as real - 1.0
    ensures ClimbsBack(above, middle, below, view, t, u)
    ensures Overlap(above, t, view) == middle.height as real - 0.5
    ensures Overlap(middle, t, view) == Overlap(middle, u, view) == middle.height as real
  {}

  /** No box shows more than its height. */
  lemma ShowsAtMostItself(box: Box, top: real, view: real)
    ensures Overlap(box, top, view) <= box.height as real
  {}

  /** Scrolling down never moves the page counter back - for every chapter, all its sizes, both view
      modes and any two scroll offsets - exactly at the steady viewport heights. */
  lemma ScrollingDownNeverTurnsBackExactly(view: real)
    requires view >= 0.0
    ensures NeverTurnsBack(view) <==> Steady(view)
  {
    if Steady(view) {
      forall sizes: Sizing, mode: ViewMode, claimed: int, page: int, t: real, u: real
        | sizes.viewHeight == view && t <= u
        ensures PageMeant(sizes, mode, claimed, page, t) <= PageMeant(sizes, mode, claimed, page, u)
      {
        SteadyNeverTurnsBack(view, sizes, mode, claimed, page, t, u);
      }
    } else {
      var sizes, t, u := UnsteadyTurnsBack(view);
    }
  }

  /** For instance, with a viewport 331.65 pixels high scrolling from 100.45 to 100.55 goes from page
      3 of these back to page 2. */
  lemma FractionalViewportTurnsBack()
    ensures var boxes := [Box(1, 0, 10, 200), Box(2, 216, 10, 100), Box(3, 332, 10, 300)];
            && Tight(boxes) && Numbered(boxes)
            && PageShown(boxes, Continuous, 331.65, 1, 100.45) == 3
            && PageShown(boxes, Continuous, 331.65, 1, 100.55) == 2
  {
    var boxes := [Box(1, 0, 10, 200), Box(2, 216, 10, 100), Box(3, 332, 10, 300)];
    assert Best(boxes, 100.45, 331.65, 1) == 0;
    assert Best(boxes, 100.45, 331.65, 2) == 0;
    assert Best(boxes, 100.45, 331.65, 3) == 2;
    assert Best(boxes, 100.55, 331.65, 1) == 0;
    assert Best(boxes, 100.55, 331.65, 2) == 1;
    assert Best(boxes, 100.55, 331.65, 3) == 1;
  }

  /** The accumulating loop of `layout`. */
  method StackBoxes(drawn: int -> Extent, numbers: seq<int>) returns (boxes: seq<Box>)
    ensures boxes == BoxesFrom(drawn, numbers, 0)
  {
    boxes := [];
    var top: nat := 0;
    for k := 0 to |numbers|
      invariant boxes + BoxesFrom(drawn, numbers[k..], top) == BoxesFrom(drawn, numbers, 0)
    {
      var box := BoxFor(drawn, numbers[k], top);
      ghost var below := BoxesFrom(drawn, numbers[k + 1..], box.Bottom() + PAGE_GAP);
      assert BoxesFrom(drawn, numbers[k..], top) == [box] + below by { assert numbers[k..][1..] == numbers[k + 1..]; }
      assert boxes + ([box] + below) == (boxes + [box]) + below;
      boxes := boxes + [box];
      top := top + box.height + PAGE_GAP;
    }
  }

  /** The overlap loop of `pageAt`. */
  method MostVisible(boxes: seq<Box>, top: real, view: real) returns (result: int)
    requires |boxes| > 0
    ensures result == boxes[Best(boxes, top, view, |boxes|)].page
  {
    result := boxes[0].page;
    var visible := 0.0;     // read only after the first box: the source starts at -Infinity
    for k := 0 to |boxes|
      invariant k == 0 ==> result == boxes[0].page
      invariant k > 0 ==> var b := Best(boxes, top, view, k);
                          result == boxes[b].page && visible == Overlap(boxes[b], top, view)
    {
      var overlap := Overlap(boxes[k], top, view);
      if k == 0 || overlap > visible + 0.5 {
        visible, result := overlap, boxes[k].page;
      }
    }
  }

  class ReaderState {
    var pages: seq<PageMeta>
    var pageCount: int      // the document's own count: it may differ from |pages|
    var page: int
    var zoom: real
    var fitMode: FitMode
    var viewMode: ViewMode
    var viewWidth: real
    var viewHeight: real

    ghost predicate Valid()
      reads this
    {
      viewWidth >= 0.0 && viewHeight >= 0.0
    }

    constructor ()
      ensures Valid() && pages == [] && pageCount == 0 && page == 1 && viewMode == Continuous
      ensures fitMode == FitWidth && zoom == 1.0 && viewWidth == viewHeight == 0.0
    {
      pages, pageCount, page, viewMode := [], 0, 1, Continuous;
      zoom, fitMode, viewWidth, viewHeight := 1.0, FitWidth, 0.0, 0.0;
    }

    /** A document that arrives with the current token. */
    method Accept(pages: seq<PageMeta>, pageCount: int)
      requires Valid()
      modifies `pages, `pageCount, `page, `fitMode, `zoom
      ensures Valid() && this.pages == pages && this.pageCount == pageCount
      ensures page == (if pageCount > 0 then 1 else 0) && fitMode == FitWidth && zoom == 1.0
    {
      this.pages, this.pageCount := pages, pageCount;
      page := if pageCount > 0 then 1 else 0;
      fitMode, zoom := FitWidth, 1.0;
    }

    method SetViewport(width: real, height: real)
      modifies `viewWidth, `viewHeight
      ensures Valid() && viewWidth == Max(0.0, width) && viewHeight == Max(0.0, height)
    {
      viewWidth, viewHeight := Max(0.0, width), Max(0.0, height);
    }

    function Sizes(): Sizing
      reads this
    {
      Sizing(pages, zoom, fitMode, viewWidth, viewHeight)
    }

    ghost function Boxes(): (boxes: seq<Box>)
      reads this
      ensures Stacked(boxes) && Numbered(boxes)
    {
      Laid(Sizes().AllDrawn(), viewMode, |pages|, pageCount, page)
    }

    method Layout() returns (boxes: seq<Box>)
      ensures boxes == Boxes()
    {
      if pageCount < 1 { return []; }
      boxes := StackBoxes(Sizes().AllDrawn(), Numbers(viewMode, |pages|, page));
    }

    method PageAt(scrollTop: real) returns (result: int)
      ensures result == PageShown(Boxes(), viewMode, viewHeight, page, scrollTop)
    {
      var boxes := Layout();
      if |boxes| == 0 { return page; }
      var top := Max(0.0, scrollTop);
      var last := boxes[|boxes| - 1];
      if viewMode == Continuous && viewHeight > 0.0 && top + viewHeight >= last.Bottom() as real - 1.0 {
        return last.page;
      }
      result := MostVisible(boxes, top, viewHeight);
    }

    method SetCurrentFromScroll(scrollTop: real) returns (result: int)
      modifies `page
      ensures result == page == old(PageShown(Boxes(), viewMode, viewHeight, page, scrollTop))
    {
      result := PageAt(scrollTop);
      page := result;
    }

    method Goto(value: int) returns (result: int)
      modifies `page
      ensures result == page
      ensures page == if pageCount < 1 then old(page) else MinInt(pageCount, MaxInt(1, value))
    {
      if pageCount >= 1 {
        page := MinInt(pageCount, MaxInt(1, value));
      }
      result := page;
    }

    /** Where to scroll for a page: its box's top, or 0 when the page has no box (the
        document may claim more pages than it lists). */
    method OffsetOf(value: int) returns (offset: nat)
      ensures var wanted := MinInt(pageCount, MaxInt(1, value));
              && (forall k :: 0 <= k < |Boxes()| && Boxes()[k].page == wanted ==> offset == Boxes()[k].top)
              && ((forall k :: 0 <= k < |Boxes()| ==> Boxes()[k].page != wanted) ==> offset == 0)
    {
      var wanted := MinInt(pageCount, MaxInt(1, value));
      var boxes := Layout();
      for k := 0 to |boxes|
        invariant forall i :: 0 <= i < k ==> boxes[i].page != wanted
      {
        if boxes[k].page == wanted { return boxes[k].top; }
      }
      return 0;
    }

    /** The pages worth decoding: at most five consecutive ones around the current page. */
    method RenderWindow() returns (window: seq<int>)
      ensures |window| <= 5
      ensures forall p :: p in window <==>
                pageCount >= 1
                && (if viewMode == Single then p == page else 1 <= p <= pageCount && page - 2 <= p <= page + 2)
    {
      if pageCount < 1 { return []; }
      if viewMode == Single { return [page]; }
      var p, last := MaxInt(1, page - RENDER_RADIUS), MinInt(pageCount, page + RENDER_RADIUS);
      ghost var first := p;
      window := [];
      while p <= last
        invariant first <= p && (p <= last + 1 || p == first)
        invariant |window| == p - first
        invariant forall q :: q in window <==> first <= q < p
      {
        window := window + [p];
        p := p + 1;
      }
    }

    /** Going to a page and then handling the scroll it causes leaves the reader on that page exactly
        when the page's offset reads back. */
    method JumpAndSettle(value: int) returns (offset: nat)
      requires Valid() && viewMode == Continuous && 1 <= value <= pageCount && value <= |pages|
      modifies `page
      ensures offset == old(Boxes())[value - 1].top
      ensures page == value <==> ReadsBack(old(Boxes()), viewHeight, value - 1)
    {
      ghost var boxes := Boxes();
      var now := Goto(value);
      assert boxes == Boxes() && boxes[value - 1].page == value;
      offset := OffsetOf(now);
      OffsetReadsBackExactly(boxes, viewHeight, page, value - 1);
      var settled := SetCurrentFromScroll(offset as real);
    }
  }
}
