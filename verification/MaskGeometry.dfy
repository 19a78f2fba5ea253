/** research/gemini_vps_web_worker/authorized_mask.py, `_complete_owned_glyph_mask`: masks as finite
    pixel sets, dilation by any kernel that contains the origin. */
module MaskGeometry {
  import opened Basics

  type Region = set<Pixel>

  const MIN_COVERAGE: real := 0.98

  function Shifted(p: Pixel, k: Pixel): Pixel { (p.0 + k.0, p.1 + k.1) }

  /** Dilation inside the image frame. */
  function Dilate(a: Region, kernel: Region, frame: Region): Region {
    set p, k | p in a && k in kernel && Shifted(p, k) in frame :: Shifted(p, k)
  }

  /** A pixel is reached from the region by some step of the kernel. */
  ghost predicate Near(a: Region, kernel: Region, p: Pixel) {
    exists q, k :: q in a && k in kernel && (q.0 + k.0, q.1 + k.1) == p
  }

  lemma DilateExactly(a: Region, kernel: Region, frame: Region, p: Pixel)
    ensures p in Dilate(a, kernel, frame) <==> p in frame && Near(a, kernel, p)
  {}

  lemma DilateExtensive(a: Region, kernel: Region, frame: Region)
    requires (0, 0) in kernel && a <= frame
    ensures a <= Dilate(a, kernel, frame)
  {
    forall p | p in a ensures p in Dilate(a, kernel, frame) { assert Shifted(p, (0, 0)) == p; }
  }

  lemma DilateMonotone(a: Region, b: Region, kernel: Region, frame: Region)
    requires a <= b
    ensures Dilate(a, kernel, frame) <= Dilate(b, kernel, frame)
  {}

  lemma DilateOfNothing(kernel: Region, frame: Region)
    ensures Dilate({}, kernel, frame) == {}
  {}

  // ---- Python's round(x, 6): to the nearest millionth, halves to even -----------------------------

  function Millionths(x: real): int {
    var y := x * 1000000.0;
    var f := y.Floor;
    var part := y - f as real;
    if part < 0.5 then f else if part > 0.5 then f + 1 else if f % 2 == 0 then f else f + 1
  }

  function Round6(x: real): real { Millionths(x) as real / 1000000.0 }

  lemma Round6Monotone(x: real, y: real)
    requires x <= y
    ensures Round6(x) <= Round6(y)
  {
    var a, b := x * 1000000.0, y * 1000000.0;
    assert a <= b && a.Floor <= b.Floor;
    if a.Floor < b.Floor { assert Millionths(x) <= a.Floor + 1 <= b.Floor <= Millionths(y); }
    assert Millionths(x) <= Millionths(y);
  }

  /** A rounded value is within half a millionth. */
  lemma Round6Near(x: real)
    ensures x - 0.0000005 <= Round6(x) <= x + 0.0000005
  {}

  /** Rounding cannot push a ratio across the threshold, which is a whole number of millionths. */
  /** It is the nearest number of millionths, and of two equally near ones the even one. */
  lemma HalvesToEven(x: real)
    ensures var n := Millionths(x);
            && Round6(x) * 1000000.0 == n as real
            && -0.5 <= n as real - x * 1000000.0 <= 0.5
            && (n as real - x * 1000000.0 in {-0.5, 0.5} ==> n % 2 == 0)
  {}

  lemma Round6KeepsThreshold(x: real)
    requires x >= MIN_COVERAGE
    ensures Round6(x) >= MIN_COVERAGE
  {
    Round6Monotone(MIN_COVERAGE, x);
    assert Millionths(MIN_COVERAGE) == 980000;
  }

  // ---- what the function is given, and what each line owns ----------------------------------------

  /** `bright` is every pixel that is light and unsaturated; the kernels are square or elliptic in the
      source, with radii scaled to the line height. */
  datatype Picture = Picture(
    frame: Region, bright: Region, ownerKernel: Region, supportKernel: Region, fringeKernel: Region)
  {
    ghost predicate Valid() {
      (0, 0) in ownerKernel && (0, 0) in supportKernel && (0, 0) in fringeKernel
    }

    /** A line's envelope: its polygon, padded. */
    function Owner(polygon: Region): Region { Dilate(polygon, ownerKernel, frame) }

    /** Light outline pixels supported by the line's own dark pixels. */
    function Outline(seed: Region, polygon: Region): Region {
      bright * Dilate(seed * Owner(polygon), supportKernel, frame) * Owner(polygon)
    }

    /** The glyph evidence a line must have covered. */
    function Evidence(seed: Region, polygon: Region): Region {
      Dilate(seed * Owner(polygon) + Outline(seed, polygon), fringeKernel, frame) * Owner(polygon)
    }

    function AllEvidence(seed: Region, polygons: seq<Region>): (all: seq<Region>)
      ensures |all| == |polygons| && forall i :: 0 <= i < |polygons| ==> all[i] == Evidence(seed, polygons[i])
    {
      seq(|polygons|, i requires 0 <= i < |polygons| => Evidence(seed, polygons[i]))
    }

    function Envelope(polygons: seq<Region>): Region {
      if polygons == [] then {} else Envelope(polygons[..|polygons| - 1]) + Owner(polygons[|polygons| - 1])
    }

    function Outlines(seed: Region, polygons: seq<Region>): Region {
      if polygons == [] then {}
      else Outlines(seed, polygons[..|polygons| - 1]) + Outline(seed, polygons[|polygons| - 1])
    }

    /** The mask before protected pixels are cut out. */
    function Unclipped(seed: Region, polygons: seq<Region>): Region {
      Dilate((seed + Outlines(seed, polygons)) * Envelope(polygons), fringeKernel, frame) * Envelope(polygons)
    }
  }

  function Ratio(covered: nat, expected: nat): real {
    covered as real / (if expected < 1 then 1 else expected) as real
  }

  datatype LineReport = LineReport(expected: nat, covered: nat, ratio: real, pass: bool)

  datatype Report = Report(
    seedPixels: nat, ownedSeedPixels: nat, ratio: real, pass: bool, clipped: bool, lines: seq<LineReport>)

  function LineReportOf(mask: Region, evidence: Region): LineReport {
    var ratio := Ratio(|mask * evidence|, |evidence|);
    LineReport(|evidence|, |mask * evidence|, Round6(ratio), ratio >= MIN_COVERAGE)
  }

  /** The smallest of the seed coverage and the line ratios. */
  function Least(ratio: real, lines: seq<LineReport>): real
    decreases |lines|
  {
    if lines == [] then ratio
    else Least(if lines[0].ratio < ratio then lines[0].ratio else ratio, lines[1..])
  }

  lemma {:induction false} EnvelopeHolds(pic: Picture, seed: Region, polygons: seq<Region>, i: nat)
    requires i < |polygons|
    ensures pic.Owner(polygons[i]) <= pic.Envelope(polygons)
    ensures pic.Outline(seed, polygons[i]) <= pic.Outlines(seed, polygons)
  {
    var init := polygons[..|polygons| - 1];
    if i < |init| {
      EnvelopeHolds(pic, seed, init, i);
      assert init[i] == polygons[i];
    }
  }

  /** Before clipping, every line's evidence is inside the mask. */
  lemma EvidenceInside(pic: Picture, seed: Region, polygons: seq<Region>, i: nat)
    requires i < |polygons|
    ensures pic.Evidence(seed, polygons[i]) <= pic.Unclipped(seed, polygons)
  {
    EnvelopeHolds(pic, seed, polygons, i);
    DilateMonotone(seed * pic.Owner(polygons[i]) + pic.Outline(seed, polygons[i]),
                   (seed + pic.Outlines(seed, polygons)) * pic.Envelope(polygons), pic.fringeKernel, pic.frame);
  }

  /** What a line adds: the bright pixels of its envelope near a seed pixel of its envelope. */
  lemma OutlineExactly(pic: Picture, seed: Region, polygon: Region, p: Pixel)
    ensures p in pic.Outline(seed, polygon)
       <==> p in pic.bright && p in pic.Owner(polygon) && p in pic.frame
            && Near(seed * pic.Owner(polygon), pic.supportKernel, p)
  {
    DilateExactly(seed * pic.Owner(polygon), pic.supportKernel, pic.frame, p);
  }

  lemma {:induction false} EnvelopeExactly(pic: Picture, seed: Region, polygons: seq<Region>, p: Pixel)
    ensures p in pic.Envelope(polygons) <==> exists i :: 0 <= i < |polygons| && p in pic.Owner(polygons[i])
    ensures p in pic.Outlines(seed, polygons)
       <==> exists i :: 0 <= i < |polygons| && p in pic.Outline(seed, polygons[i])
  {
    if polygons != [] {
      var init := polygons[..|polygons| - 1];
      EnvelopeExactly(pic, seed, init, p);
      if i :| 0 <= i < |init| && p in pic.Owner(init[i]) { assert p in pic.Owner(polygons[i]); }
      if i :| 0 <= i < |init| && p in pic.Outline(seed, init[i]) { assert p in pic.Outline(seed, polygons[i]); }
      forall i | 0 <= i < |init| ensures init[i] == polygons[i] {}
    }
  }

  /** The mask before clipping, pixel by pixel: those of the line envelopes near one of them that is seed or
      some line's outline. */
  lemma MaskExactly(pic: Picture, seed: Region, polygons: seq<Region>, p: Pixel)
    ensures p in pic.Unclipped(seed, polygons)
       <==> p in pic.Envelope(polygons) && p in pic.frame
            && Near((seed + pic.Outlines(seed, polygons)) * pic.Envelope(polygons), pic.fringeKernel, p)
  {
    DilateExactly((seed + pic.Outlines(seed, polygons)) * pic.Envelope(polygons), pic.fringeKernel, pic.frame, p);
  }

  /** The evidence a line must have covered: the pixels of its envelope near one of its own seed or outline. */
  lemma EvidenceExactly(pic: Picture, seed: Region, polygon: Region, p: Pixel)
    ensures p in pic.Evidence(seed, polygon)
       <==> p in pic.Owner(polygon) && p in pic.frame
            && Near(seed * pic.Owner(polygon) + pic.Outline(seed, polygon), pic.fringeKernel, p)
  {
    DilateExactly(seed * pic.Owner(polygon) + pic.Outline(seed, polygon), pic.fringeKernel, pic.frame, p);
  }

  /** A bright pixel near a dark one of the same line is in the mask. */
  lemma SupportedOutlineKept(pic: Picture, seed: Region, polygons: seq<Region>, i: nat, p: Pixel)
    requires pic.Valid() && i < |polygons| && p in pic.bright && p in pic.Owner(polygons[i]) && p in pic.frame
    requires Near(seed * pic.Owner(polygons[i]), pic.supportKernel, p)
    ensures p in pic.Unclipped(seed, polygons) && p in pic.Evidence(seed, polygons[i])
  {
    OutlineExactly(pic, seed, polygons[i], p);
    assert Shifted(p, (0, 0)) == p;
    EvidenceExactly(pic, seed, polygons[i], p);
    EvidenceInside(pic, seed, polygons, i);
  }

  /** A line has evidence exactly when its envelope holds a seed pixel. */
  lemma EvidenceNeedsSeed(pic: Picture, seed: Region, polygon: Region)
    requires pic.Valid() && seed <= pic.frame
    ensures pic.Evidence(seed, polygon) != {} <==> seed * pic.Owner(polygon) != {}
  {
    var dark := seed * pic.Owner(polygon);
    if dark != {} {
      DilateExtensive(dark, pic.fringeKernel, pic.frame);
      DilateMonotone(dark, dark + pic.Outline(seed, polygon), pic.fringeKernel, pic.frame);
      var p :| p in dark;
      assert p in pic.Evidence(seed, polygon);
    } else {
      DilateOfNothing(pic.supportKernel, pic.frame);
      assert dark + pic.Outline(seed, polygon) == {};
      DilateOfNothing(pic.fringeKernel, pic.frame);
    }
  }

  /** What the report says, in terms of the inputs alone. */
  ghost predicate Completable(pic: Picture, seed: Region, polygons: seq<Region>, protected: Region) {
    && polygons != []
    && (forall i :: 0 <= i < |polygons| ==> seed * pic.Owner(polygons[i]) != {})
    && Ratio(|seed * pic.Envelope(polygons)|, |seed|) >= MIN_COVERAGE
    && pic.Unclipped(seed, polygons) !! protected
  }

  /** The report of cutting `protected` out of `whole`, line by line. */
  ghost predicate Reported(whole: Region, seedCoverage: real, evidence: seq<Region>, protected: Region,
                           report: Report)
  {
    && |report.lines| == |evidence|
    && (forall i :: 0 <= i < |evidence| ==> report.lines[i] == LineReportOf(whole - protected, evidence[i]))
    && (report.clipped <==> whole * protected != {})
    && (report.pass <==> report.lines != [] && seedCoverage >= MIN_COVERAGE
                         && (forall line :: line in report.lines ==> line.pass) && !report.clipped)
    && report.ratio == Round6(if report.lines == [] then 0.0 else Least(seedCoverage, report.lines))
  }

  /** A mask and its report as the function computes them. */
  ghost predicate Computed(pic: Picture, seed: Region, polygons: seq<Region>, protected: Region, mask: Region,
                           report: Report)
  {
    && mask == pic.Unclipped(seed, polygons) - protected
    && Reported(pic.Unclipped(seed, polygons), Ratio(|seed * pic.Envelope(polygons)|, |seed|),
                pic.AllEvidence(seed, polygons), protected, report)
  }

  /** Everything reported is at or above the minimum. */
  ghost predicate Sufficient(report: Report) {
    && report.lines != [] && report.ratio >= MIN_COVERAGE
    && forall line :: line in report.lines ==> line.pass && line.ratio >= MIN_COVERAGE
  }

  lemma LinesMean(mask: Region, evidence: seq<Region>, lines: seq<LineReport>)
    requires |lines| == |evidence| && forall i :: 0 <= i < |evidence| ==> lines[i] == LineReportOf(mask, evidence[i])
    requires forall e :: e in evidence ==> e <= mask
    ensures (forall line :: line in lines ==> line.pass) <==> {} !in evidence
  {
    forall i | 0 <= i < |evidence| ensures lines[i].pass <==> evidence[i] != {} {
      CoveredReport(mask, evidence[i]);
    }
    assert forall i :: 0 <= i < |evidence| ==> lines[i] in lines;
  }

  lemma LinesSufficient(mask: Region, evidence: seq<Region>, lines: seq<LineReport>, seedCoverage: real)
    requires |lines| == |evidence| && forall i :: 0 <= i < |evidence| ==> lines[i] == LineReportOf(mask, evidence[i])
    requires seedCoverage >= MIN_COVERAGE && forall line :: line in lines ==> line.pass
    ensures forall line :: line in lines ==> line.ratio >= MIN_COVERAGE
    ensures Round6(Least(seedCoverage, lines)) >= MIN_COVERAGE
  {
    forall line | line in lines ensures line.ratio >= MIN_COVERAGE {
      var i :| 0 <= i < |lines| && lines[i] == line;
      PassingLine(mask, evidence[i]);
    }
    LeastKeepsThreshold(seedCoverage, lines);
    Round6KeepsThreshold(Least(seedCoverage, lines));
  }

  /** Every figure of a report is honest: pixels counted, ratios to the nearest millionth, and the overall ratio
      no larger than that of any line or of the seed. */
  lemma ReportHonest(whole: Region, seedCoverage: real, evidence: seq<Region>, protected: Region, report: Report,
                     i: nat)
    requires Reported(whole, seedCoverage, evidence, protected, report) && i < |evidence|
    ensures var line := report.lines[i];
            && line.expected == |evidence[i]| && line.covered == |(whole - protected) * evidence[i]|
            && (evidence[i] != {} ==>
                  -0.0000005 <= line.ratio - line.covered as real / line.expected as real <= 0.0000005)
            && (line.pass <==> evidence[i] != {} && 100 * line.covered >= 98 * line.expected)
            && report.ratio <= line.ratio + 0.0000005 && report.ratio <= seedCoverage + 0.0000005
  {
    var line := report.lines[i];
    Round6Near(Ratio(line.covered, line.expected));
    SubsetSize((whole - protected) * evidence[i], evidence[i]);
    RatioReaches(line.covered, line.expected);
    LeastBelow(seedCoverage, report.lines, i);
    Round6Near(Least(seedCoverage, report.lines));
  }

  lemma RatioReaches(covered: nat, expected: nat)
    requires covered <= expected
    ensures Ratio(covered, expected) >= MIN_COVERAGE <==> expected > 0 && 100 * covered >= 98 * expected
  {
    if expected > 0 { ShareReaches(covered, expected, Ratio(covered, expected)); }
  }

  lemma ShareReaches(covered: nat, expected: nat, share: real)
    requires expected > 0 && share == covered as real / expected as real
    ensures share >= 0.98 <==> 100 * covered >= 98 * expected
  {
    var part, whole := covered as real, expected as real;
    ScaledShare(part, whole, share);
    assert part >= 0.98 * whole <==> 100.0 * part >= 98.0 * whole;
    assert 100.0 * part == (100 * covered) as real && 98.0 * whole == (98 * expected) as real;
  }

  lemma ScaledShare(part: real, whole: real, share: real)
    requires whole > 0.0 && share == part / whole
    ensures share >= 0.98 <==> part >= 0.98 * whole
  {
    assert share * whole == part;
    if share >= 0.98 { assert share * whole >= 0.98 * whole; } else { assert share * whole < 0.98 * whole; }
  }

  lemma {:induction false} LeastBelow(ratio: real, lines: seq<LineReport>, i: nat)
    requires i < |lines|
    ensures Least(ratio, lines) <= ratio && Least(ratio, lines) <= lines[i].ratio
    decreases |lines|
  {
    var next := if lines[0].ratio < ratio then lines[0].ratio else ratio;
    if i > 0 { LeastBelow(next, lines[1..], i - 1); } else { LeastStays(next, lines[1..]); }
  }

  lemma {:induction false} LeastStays(ratio: real, lines: seq<LineReport>)
    ensures Least(ratio, lines) <= ratio
    decreases |lines|
  {
    if lines != [] { LeastStays(if lines[0].ratio < ratio then lines[0].ratio else ratio, lines[1..]); }
  }

  /** When each line's evidence lies in the unclipped mask, the report passes exactly when there are
      lines, all with evidence, the seed is covered, and nothing is clipped. */
  lemma ReportMeans(whole: Region, seedCoverage: real, evidence: seq<Region>, protected: Region, report: Report)
    requires Reported(whole, seedCoverage, evidence, protected, report)
    requires forall e :: e in evidence ==> e <= whole
    ensures report.pass <==> evidence != [] && {} !in evidence && seedCoverage >= MIN_COVERAGE && whole !! protected
    ensures report.pass ==> Sufficient(report)
  {
    if whole * protected == {} {
      assert forall p :: p in whole && p in protected ==> p in whole * protected;
      assert whole - protected == whole;
      LinesMean(whole, evidence, report.lines);
      if report.pass { LinesSufficient(whole, evidence, report.lines, seedCoverage); }
    }
  }

  /** The mask never leaves the line envelopes nor touches a protected pixel. The report passes exactly
      when there is a line, every line's envelope holds a seed pixel, enough of the seed is owned,
      and nothing had to be clipped; then the mask holds the whole owned seed and every ratio
      reported, rounding included, is at least the minimum. */
  lemma MaskAndReport(pic: Picture, seed: Region, polygons: seq<Region>, protected: Region, mask: Region,
                      report: Report)
    requires pic.Valid() && seed <= pic.frame && Computed(pic, seed, polygons, protected, mask, report)
    ensures mask <= pic.Envelope(polygons) && mask !! protected
    ensures report.pass <==> Completable(pic, seed, polygons, protected)
    ensures report.pass ==> seed * pic.Envelope(polygons) <= mask && Sufficient(report)
  {
    var evidence := pic.AllEvidence(seed, polygons);
    forall e | e in evidence ensures e <= pic.Unclipped(seed, polygons) {
      var i :| 0 <= i < |evidence| && evidence[i] == e;
      EvidenceInside(pic, seed, polygons, i);
    }
    ReportMeans(pic.Unclipped(seed, polygons), Ratio(|seed * pic.Envelope(polygons)|, |seed|), evidence, protected,
                report);
    MaskInside(pic, seed, polygons, protected);
    OwnedSeedKept(pic, seed, polygons);
    EvidenceEverywhere(pic, seed, polygons);
  }

  lemma EvidenceEverywhere(pic: Picture, seed: Region, polygons: seq<Region>)
    requires pic.Valid() && seed <= pic.frame
    ensures {} !in pic.AllEvidence(seed, polygons)
       <==> forall i :: 0 <= i < |polygons| ==> seed * pic.Owner(polygons[i]) != {}
  {
    var evidence := pic.AllEvidence(seed, polygons);
    forall i | 0 <= i < |polygons| ensures evidence[i] != {} <==> seed * pic.Owner(polygons[i]) != {} {
      EvidenceNeedsSeed(pic, seed, polygons[i]);
    }
    assert forall i :: 0 <= i < |polygons| ==> evidence[i] in evidence;
  }

  lemma MaskInside(pic: Picture, seed: Region, polygons: seq<Region>, protected: Region)
    ensures pic.Unclipped(seed, polygons) - protected <= pic.Envelope(polygons)
  {}

  /** `_complete_owned_glyph_mask`. An absent protected mask is the empty region. */
  method CompleteOwnedGlyphMask(pic: Picture, seed: Region, polygons: seq<Region>, protected: Region)
    returns (expanded: Region, report: Report)
    ensures Computed(pic, seed, polygons, protected, expanded, report)
  {
    var extra, envelope, evidence := CollectEvidence(pic, seed, polygons);
    expanded := Dilate((seed + extra) * envelope, pic.fringeKernel, pic.frame) * envelope;
    report := MeasureCoverage(seed, envelope, evidence, expanded, protected);
    expanded := expanded - protected;
  }

  /** Clipping and the coverage report. */
  method MeasureCoverage(seed: Region, envelope: Region, evidence: seq<Region>, whole: Region, protected: Region)
    returns (report: Report)
    ensures Reported(whole, Ratio(|seed * envelope|, |seed|), evidence, protected, report)
  {
    var lines := MeasureLines(whole - protected, evidence);
    var clipped := whole * protected != {};
    var seedCoverage := Ratio(|seed * envelope|, |seed|);
    var pass := lines != [] && seedCoverage >= MIN_COVERAGE && (forall line :: line in lines ==> line.pass) && !clipped;
    report := Report(|seed|, |seed * envelope|, Round6(if lines == [] then 0.0 else Least(seedCoverage, lines)),
                     pass, clipped, lines);
  }

  /** The loop over the lines: the outline pixels, the envelope, and each line's evidence. */
  method CollectEvidence(pic: Picture, seed: Region, polygons: seq<Region>)
    returns (extra: Region, envelope: Region, evidence: seq<Region>)
    ensures envelope == pic.Envelope(polygons) && extra == pic.Outlines(seed, polygons)
    ensures evidence == pic.AllEvidence(seed, polygons)
  {
    extra, envelope, evidence := {}, {}, [];
    for k := 0 to |polygons|
      invariant envelope == pic.Envelope(polygons[..k]) && extra == pic.Outlines(seed, polygons[..k])
      invariant |evidence| == k && forall i :: 0 <= i < k ==> evidence[i] == pic.Evidence(seed, polygons[i])
    {
      assert polygons[..k + 1][..k] == polygons[..k];
      var owner := pic.Owner(polygons[k]);
      envelope := envelope + owner;
      var dark := seed * owner;
      var outline := pic.bright * Dilate(dark, pic.supportKernel, pic.frame) * owner;
      extra := extra + outline;
      evidence := evidence + [Dilate(dark + outline, pic.fringeKernel, pic.frame) * owner];
    }
    assert polygons[..|polygons|] == polygons;
  }

  /** The loop over the evidence. */
  method MeasureLines(mask: Region, evidence: seq<Region>) returns (lines: seq<LineReport>)
    ensures |lines| == |evidence| && forall i :: 0 <= i < |evidence| ==> lines[i] == LineReportOf(mask, evidence[i])
  {
    lines := [];
    for k := 0 to |evidence|
      invariant |lines| == k && forall i :: 0 <= i < k ==> lines[i] == LineReportOf(mask, evidence[i])
    {
      lines := lines + [LineReportOf(mask, evidence[k])];
    }
  }

  /** A covered line passes exactly when it has evidence. */
  lemma CoveredReport(mask: Region, evidence: Region)
    requires evidence <= mask
    ensures LineReportOf(mask, evidence).pass <==> evidence != {}
  {
    assert mask * evidence == evidence;
    if evidence != {} { WholeRatio(|evidence|); }
  }

  lemma WholeRatio(n: nat)
    requires n > 0
    ensures Ratio(n, n) == 1.0
  {
    var whole := n as real;
    assert whole * Ratio(n, n) == whole * 1.0;
  }

  lemma PassingLine(mask: Region, evidence: Region)
    requires LineReportOf(mask, evidence).pass
    ensures LineReportOf(mask, evidence).ratio >= MIN_COVERAGE
  {
    Round6KeepsThreshold(Ratio(|mask * evidence|, |evidence|));
  }

  lemma OwnedSeedKept(pic: Picture, seed: Region, polygons: seq<Region>)
    requires pic.Valid() && seed <= pic.frame
    ensures seed * pic.Envelope(polygons) <= pic.Unclipped(seed, polygons)
  {
    var owned := seed * pic.Envelope(polygons);
    DilateExtensive(owned, pic.fringeKernel, pic.frame);
    DilateMonotone(owned, (seed + pic.Outlines(seed, polygons)) * pic.Envelope(polygons), pic.fringeKernel, pic.frame);
  }

  lemma {:induction false} LeastKeepsThreshold(ratio: real, lines: seq<LineReport>)
    requires ratio >= MIN_COVERAGE && forall line :: line in lines ==> line.ratio >= MIN_COVERAGE
    ensures Least(ratio, lines) >= MIN_COVERAGE
    decreases |lines|
  {
    if lines != [] { LeastKeepsThreshold(if lines[0].ratio < ratio then lines[0].ratio else ratio, lines[1..]); }
  }
}
