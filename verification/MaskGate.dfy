/** research/gemini_vps_web_worker/authorized_mask.py, the decisions of both mask generators, and
    research/gemini_vps_web_worker/app.py, the gate that re-checks what a generator reported. */
module MaskGate {
  import opened Basics
  import opened MaskGeometry

  const ELIGIBLE := {"dialogue", "speech", "caption", "narration", "ordinary_text", "system", "thought"}
  const SFX := "sfx"
  const GEOMETRY_KIND := "owned_components_plus_supported_light_outline"
  const MAX_AREA: real := 0.12

  /** An OCR group: its class in lower case, its line polygons, the text mask the segmentation builds
      for it, its weakest line confidence, and the id derived from a hash of its content. */
  datatype Group = Group(
    classification: string, polygons: seq<Region>, textMask: Region, confidence: real, ownedId: string)

  lemma EligibleClasses(c: string)
    ensures c in ELIGIBLE <==> c == "dialogue" || c == "speech" || c == "caption" || c == "narration"
                               || c == "ordinary_text" || c == "system" || c == "thought"
  {}

  ghost predicate Identified(groups: seq<Group>) { forall g :: g in groups ==> g.ownedId != "" }

  // ---- choosing the target group -----------------------------------------------------------------

  datatype Target = Unspecified | NotAnIndex | Index(i: int)
  datatype Resolved = Chosen(i: nat) | Rejected(reason: string)

  function NonSfx(groups: seq<Group>, n: nat): (candidates: seq<nat>)
    requires n <= |groups|
    ensures forall k :: 0 <= k < |candidates| ==> candidates[k] < n && groups[candidates[k]].classification != SFX
    ensures forall i :: 0 <= i < n && groups[i].classification != SFX ==> i in candidates
    ensures forall j, k :: 0 <= j < k < |candidates| ==> candidates[j] < candidates[k]
  {
    if n == 0 then []
    else NonSfx(groups, n - 1) + (if groups[n - 1].classification != SFX then [n - 1] else [])
  }

  /** `_resolve_target_group`. */
  function Resolve(groups: seq<Group>, target: Target): Resolved {
    match target
    case NotAnIndex => Rejected("INVALID_TARGET_GROUP_INDEX")
    case Index(i) =>
      if i < 0 || i >= |groups| then Rejected("TARGET_GROUP_INDEX_OUT_OF_RANGE")
      else if groups[i].classification == SFX then Rejected("SFX_TARGET_FORBIDDEN")
      else Chosen(i)
    case Unspecified =>
      var candidates := NonSfx(groups, |groups|);
      if |candidates| == 1 then Chosen(candidates[0])
      else if |candidates| > 1 then Rejected("TARGET_GROUP_OWNERSHIP_REQUIRED")
      else Rejected("NO_OWNED_TEXT_GROUP")
  }

  /** A group is chosen exactly when it is not SFX and it is the one asked for, or nothing was
      asked for and no other group is eligible to be chosen. */
  lemma ResolveExactly(groups: seq<Group>, target: Target, i: nat)
    ensures Resolve(groups, target) == Chosen(i) <==>
              && i < |groups| && groups[i].classification != SFX
              && (target == Index(i)
                  || (target == Unspecified
                      && forall j :: 0 <= j < |groups| && groups[j].classification != SFX ==> j == i))
  {
    var candidates := NonSfx(groups, |groups|);
    if i < |groups| && groups[i].classification != SFX && target == Unspecified {
      assert i in candidates;
      if |candidates| > 1 {
        var j := OtherCandidate(candidates, i);
        assert groups[j].classification != SFX;
      }
    }
  }

  /** Why no group is chosen. */
  lemma RejectionExactly(groups: seq<Group>, target: Target)
    ensures var r := Resolve(groups, target);
            r.Rejected? ==>
              && (r.reason == "INVALID_TARGET_GROUP_INDEX" <==> target == NotAnIndex)
              && (r.reason == "TARGET_GROUP_INDEX_OUT_OF_RANGE" <==>
                    target.Index? && !(0 <= target.i < |groups|))
              && (r.reason == "SFX_TARGET_FORBIDDEN" <==>
                    target.Index? && 0 <= target.i < |groups| && groups[target.i].classification == "sfx")
              && (r.reason == "NO_OWNED_TEXT_GROUP" <==>
                    target == Unspecified && forall j :: 0 <= j < |groups| ==> groups[j].classification == "sfx")
              && (r.reason == "TARGET_GROUP_OWNERSHIP_REQUIRED" <==>
                    target == Unspecified && exists j :: 0 <= j < |groups| && groups[j].classification != "sfx")
  {
    var candidates := NonSfx(groups, |groups|);
    if candidates != [] { assert groups[candidates[0]].classification != "sfx"; }
  }

  lemma OtherCandidate(candidates: seq<nat>, i: nat) returns (j: nat)
    requires |candidates| > 1 && forall j, k :: 0 <= j < k < |candidates| ==> candidates[j] < candidates[k]
    ensures j in candidates && j != i
  {
    assert candidates[0] < candidates[1];
    j := if candidates[0] == i then candidates[1] else candidates[0];
  }

  // ---- protected regions ----------------------------------------------------------------------------

  /** `_line_geometry`: a group's line polygons, padded. */
  function LineGeometry(polygons: seq<Region>, padding: Region, frame: Region): Region {
    if polygons == [] then {} else Dilate(polygons[0], padding, frame) + LineGeometry(polygons[1..], padding, frame)
  }

  function SfxMask(groups: seq<Group>): Region {
    if groups == [] then {}
    else (if groups[0].classification == SFX then groups[0].textMask else {}) + SfxMask(groups[1..])
  }

  /** `_other_group_guard`, from group `at` on. */
  function Guard(groups: seq<Group>, target: int, at: nat, padding: Region, frame: Region): Region
    requires at <= |groups|
    decreases |groups| - at
  {
    if at == |groups| then {}
    else (if at != target then LineGeometry(groups[at].polygons, padding, frame) else {})
         + Guard(groups, target, at + 1, padding, frame)
  }

  /** A group's geometry is what its padded polygons reach. */
  lemma {:induction false} LineGeometryExactly(polygons: seq<Region>, padding: Region, frame: Region, p: Pixel)
    ensures p in LineGeometry(polygons, padding, frame)
       <==> p in frame && exists i :: 0 <= i < |polygons| && Near(polygons[i], padding, p)
  {
    if polygons != [] {
      var rest := polygons[1..];
      LineGeometryExactly(rest, padding, frame, p);
      DilateExactly(polygons[0], padding, frame, p);
      if i :| 0 <= i < |rest| && Near(rest[i], padding, p) { assert Near(polygons[i + 1], padding, p); }
      if i :| 0 <= i < |polygons| && Near(polygons[i], padding, p) { assert i > 0 ==> Near(rest[i - 1], padding, p); }
    }
  }

  ghost predicate OfOther(groups: seq<Group>, target: int, padding: Region, frame: Region, i: nat, p: Pixel) {
    i < |groups| && i != target && p in LineGeometry(groups[i].polygons, padding, frame)
  }

  /** Guarded is exactly what belongs to the lines of some other group. */
  lemma {:induction false} GuardExactly(groups: seq<Group>, target: int, at: nat, padding: Region, frame: Region,
                                         p: Pixel)
    requires at <= |groups|
    ensures p in Guard(groups, target, at, padding, frame)
       <==> exists i :: at <= i && OfOther(groups, target, padding, frame, i, p)
    decreases |groups| - at
  {
    if at < |groups| {
      GuardExactly(groups, target, at + 1, padding, frame, p);
      assert p in Guard(groups, target, at, padding, frame) <==>
               OfOther(groups, target, padding, frame, at, p) || p in Guard(groups, target, at + 1, padding, frame);
    }
  }

  /** Kept from every mask is exactly what belongs to the text of some sound effect. */
  lemma {:induction false} SfxExactly(groups: seq<Group>, p: Pixel)
    ensures p in SfxMask(groups) <==> exists g :: g in groups && g.classification == "sfx" && p in g.textMask
  {
    if groups != [] {
      SfxExactly(groups[1..], p);
      assert forall g :: g in groups <==> g == groups[0] || g in groups[1..];
    }
  }

  lemma {:induction false} GuardHolds(groups: seq<Group>, target: int, at: nat, padding: Region, frame: Region, i: nat)
    requires at <= i < |groups| && i != target
    ensures LineGeometry(groups[i].polygons, padding, frame) <= Guard(groups, target, at, padding, frame)
    decreases |groups| - at
  {
    if at < i { GuardHolds(groups, target, at + 1, padding, frame, i); }
  }

  lemma {:induction false} SfxHolds(groups: seq<Group>, g: Group)
    requires g in groups && g.classification == SFX
    ensures g.textMask <= SfxMask(groups)
  {
    if g != groups[0] { SfxHolds(groups[1..], g); }
  }

  // ---- what a generator returns ---------------------------------------------------------------------

  datatype MaskCoverage = MaskCoverage(
    pass: bool, kind: string, regionId: string, targetIndex: Option<int>, ownedGroupId: Option<string>,
    ratio: real, minimum: real, groups: seq<Report>)

  datatype Generated = Generated(pass: bool, mask: Region, accepted: bool, coverage: MaskCoverage)

  function MinRatio(reports: seq<Report>): (least: real)
    requires reports != []
    ensures forall r :: r in reports ==> least <= r.ratio
    ensures exists r :: r in reports && r.ratio == least
    decreases |reports|
  {
    if |reports| == 1 then reports[0].ratio
    else var m := MinRatio(reports[1..]); if reports[0].ratio < m then reports[0].ratio else m
  }

  function CoverageOf(reports: seq<Report>, regionId: string, chosen: Resolved, owned: Option<string>): MaskCoverage {
    MaskCoverage(reports != [] && forall r :: r in reports ==> r.pass, GEOMETRY_KIND,
                 if regionId == "" then "unassigned" else regionId,
                 if chosen.Chosen? then Some(chosen.i) else None, owned,
                 Round6(if reports == [] then 0.0 else MinRatio(reports)), MIN_COVERAGE, reports)
  }

  // ---- the API gate ------------------------------------------------------------------------------------

  /** The mask-coverage section of `_validate_v2_submission`. */
  predicate GateAccepts(mc: MaskCoverage, regionId: string) {
    && mc.pass
    && mc.kind == GEOMETRY_KIND && mc.regionId == regionId
    && mc.ownedGroupId.Some? && mc.ownedGroupId.value != ""
    && mc.targetIndex.Some? && mc.targetIndex.value >= 0
    && mc.minimum >= MIN_COVERAGE && mc.ratio >= mc.minimum
    && mc.groups != []
    && (forall r :: r in mc.groups ==> r.pass && r.ratio >= mc.minimum)
    && (forall r :: r in mc.groups ==>
          r.lines != [] && forall line :: line in r.lines ==> line.pass && line.ratio >= mc.minimum)
  }

  /** A single passing report, made for one region and submitted for another, goes through the gate exactly
      when the group has an owner id and both name the same region. */
  lemma PassingReportPassesGate(report: Report, made: string, asked: string, i: nat, owned: Option<string>)
    requires Sufficient(report) && report.pass
    ensures GateAccepts(CoverageOf([report], made, Chosen(i), owned), asked)
       <==> owned.Some? && owned.value != "" && asked == (if made == "" then "unassigned" else made)
  {
    Round6KeepsThreshold(report.ratio);
    var mc := CoverageOf([report], made, Chosen(i), owned);
    assert forall r :: r in mc.groups ==> r == report;
    assert report in mc.groups;
  }

  ghost predicate DefectiveLine(line: LineReport, minimum: real) { !line.pass || line.ratio < minimum }

  ghost predicate DefectiveGroup(r: Report, minimum: real) {
    !r.pass || r.ratio < minimum || r.lines == [] || exists line :: line in r.lines && DefectiveLine(line, minimum)
  }

  /** What can be wrong with a submitted coverage. */
  ghost predicate Defective(mc: MaskCoverage, regionId: string) {
    || !mc.pass || mc.kind != "owned_components_plus_supported_light_outline" || mc.regionId != regionId
    || mc.ownedGroupId.None? || mc.ownedGroupId.value == "" || mc.targetIndex.None? || mc.targetIndex.value < 0
    || mc.minimum < 0.98 || mc.ratio < mc.minimum || mc.groups == []
    || exists r :: r in mc.groups && DefectiveGroup(r, mc.minimum)
  }

  /** Any one defect refuses the submission, and nothing else does. */
  lemma GateRefusesExactly(mc: MaskCoverage, regionId: string)
    ensures GateAccepts(mc, regionId) <==> !Defective(mc, regionId)
  {
    forall r | r in mc.groups
      ensures DefectiveGroup(r, mc.minimum) <==>
                !(r.pass && r.ratio >= mc.minimum
                  && r.lines != [] && forall line :: line in r.lines ==> line.pass && line.ratio >= mc.minimum)
    {
      GroupDefects(r, mc.minimum);
    }
  }

  lemma GroupDefects(r: Report, minimum: real)
    ensures DefectiveGroup(r, minimum) <==>
              !(r.pass && r.ratio >= minimum
                && r.lines != [] && forall line :: line in r.lines ==> line.pass && line.ratio >= minimum)
  {
    forall line | line in r.lines ensures DefectiveLine(line, minimum) <==> !(line.pass && line.ratio >= minimum) {}
  }

  lemma NoReportFailsGate(reports: seq<Report>, regionId: string, chosen: Resolved, owned: Option<string>)
    requires reports == [] || !reports[0].pass
    ensures !GateAccepts(CoverageOf(reports, regionId, chosen, owned), regionId)
    ensures !CoverageOf(reports, regionId, chosen, owned).pass
    ensures reports == [] ==> CoverageOf(reports, regionId, chosen, owned).ratio == 0.0
  {
    if reports != [] { assert reports[0] in reports; }
  }

  // ---- what both generators guarantee --------------------------------------------------------------------

  /** The mask stays inside the target's envelopes and off every other group and every sound effect;
      and the gate accepts the report exactly when the generator accepted a source, for a named region.
      A passing generator has accepted a source. */
  ghost predicate Sound(g: Generated, pic: Picture, groups: seq<Group>, target: Target, regionId: string,
                        padding: Region)
  {
    var chosen := Resolve(groups, target);
    && (chosen.Rejected? ==> g.mask == {} && !g.accepted)
    && (chosen.Chosen? ==> chosen.i < |groups| && g.mask <= pic.Envelope(groups[chosen.i].polygons)
                           && g.mask !! Guard(groups, chosen.i, 0, padding, pic.frame))
    && g.mask !! SfxMask(groups)
    && (g.pass ==> g.accepted && g.mask != {})
    && (GateAccepts(g.coverage, regionId) <==> g.accepted && regionId != "")
  }

  /** Every passing mask of a named region goes through the gate, and none of its pixels belongs to
      another group's lines or to a sound effect. */
  lemma PassingMaskIsAcceptedAndHarmless(g: Generated, pic: Picture, groups: seq<Group>, target: Target,
                                         regionId: string, padding: Region)
    requires Sound(g, pic, groups, target, regionId, padding) && g.pass && regionId != ""
    ensures GateAccepts(g.coverage, regionId)
    ensures Resolve(groups, target).Chosen? && Resolve(groups, target).i < |groups|
    ensures forall j :: 0 <= j < |groups| && j != Resolve(groups, target).i ==>
              g.mask !! LineGeometry(groups[j].polygons, padding, pic.frame)
    ensures forall other :: other in groups && other.classification == SFX ==> g.mask !! other.textMask
  {
    var i := Resolve(groups, target).i;
    forall j | 0 <= j < |groups| && j != i ensures g.mask !! LineGeometry(groups[j].polygons, padding, pic.frame) {
      GuardHolds(groups, i, 0, padding, pic.frame, j);
    }
    forall other | other in groups && other.classification == SFX ensures g.mask !! other.textMask {
      SfxHolds(groups, other);
    }
  }

  /** What no mask of group i may touch. */
  function Protected(groups: seq<Group>, i: int, padding: Region, frame: Region): Region {
    SfxMask(groups) + Guard(groups, i, 0, padding, frame)
  }

  /** Completing one group's mask, cutting out everything protected. */
  method CompleteGroup(pic: Picture, groups: seq<Group>, i: nat, refined: Region, padding: Region, regionId: string)
    returns (mask: Region, report: Report)
    requires pic.Valid() && refined <= pic.frame && i < |groups|
    ensures mask <= pic.Envelope(groups[i].polygons)
    ensures mask !! Guard(groups, i, 0, padding, pic.frame) && mask !! SfxMask(groups)
    ensures report.pass ==> Sufficient(report)
    ensures report.pass <==> Completable(pic, refined, groups[i].polygons, Protected(groups, i, padding, pic.frame))
    ensures report.pass ==> mask == pic.Unclipped(refined, groups[i].polygons) && mask != {}
    ensures forall owned: Option<string> ::
              GateAccepts(CoverageOf([report], regionId, Chosen(i), owned), regionId)
              <==> report.pass && owned.Some? && owned.value != "" && regionId != ""
  {
    var protected := Protected(groups, i, padding, pic.frame);
    mask, report := CompleteOwnedGlyphMask(pic, refined, groups[i].polygons, protected);
    MaskAndReport(pic, refined, groups[i].polygons, protected, mask, report);
    if report.pass { OwnsSomething(pic, refined, groups[i].polygons, protected); }
    forall owned: Option<string>
      ensures GateAccepts(CoverageOf([report], regionId, Chosen(i), owned), regionId)
              <==> report.pass && owned.Some? && owned.value != "" && regionId != ""
    {
      if report.pass { PassingReportPassesGate(report, regionId, regionId, i, owned); }
      else { NoReportFailsGate([report], regionId, Chosen(i), owned); }
    }
  }

  /** A completed mask holds a pixel. */
  lemma OwnsSomething(pic: Picture, seed: Region, polygons: seq<Region>, protected: Region)
    requires pic.Valid() && seed <= pic.frame && Completable(pic, seed, polygons, protected)
    ensures pic.Unclipped(seed, polygons) != {}
    ensures pic.Unclipped(seed, polygons) - protected == pic.Unclipped(seed, polygons)
  {
    OwnedSeedKept(pic, seed, polygons);
    EnvelopeHolds(pic, seed, polygons, 0);
    var p :| p in seed * pic.Owner(polygons[0]);
    assert p in seed * pic.Envelope(polygons);
    forall q | q in pic.Unclipped(seed, polygons) ensures q !in protected {}
  }

  /** The group a request is for, if it can be completed from a component mask: its text fills it, and nothing
      protected has to be cut out of it. */
  ghost predicate CanComplete(pic: Picture, groups: seq<Group>, target: Target, padding: Region, seed: Region) {
    var chosen := Resolve(groups, target);
    && chosen.Chosen? && chosen.i < |groups| && seed != {}
    && Completable(pic, seed, groups[chosen.i].polygons, Protected(groups, chosen.i, padding, pic.frame))
  }

  /** The mask of a completed group. */
  function CompletedMask(pic: Picture, groups: seq<Group>, target: Target, seed: Region): Region {
    var chosen := Resolve(groups, target);
    if chosen.Chosen? && chosen.i < |groups| then pic.Unclipped(seed, groups[chosen.i].polygons) else {}
  }

  /** The confidence of the first generator's mask. */
  function FirstCertainty(confidence: real, components: nat): real {
    Round6(AtMostOne(Round6(confidence) * 0.85 + (if components > 0 then 0.15 else 0.0)))
  }

  /** Without a component 0.65 takes a confidence of about 0.765, with one about 0.588. */
  lemma FirstCertaintyMeans(confidence: real, components: nat)
    ensures FirstCertainty(confidence, components) >= 0.65 ==> confidence >= (if components > 0 then 0.588 else 0.764)
    ensures confidence >= (if components > 0 then 0.589 else 0.765) ==> FirstCertainty(confidence, components) >= 0.65
  {
    Round6Near(confidence);
    Round6Near(AtMostOne(Round6(confidence) * 0.85 + (if components > 0 then 0.15 else 0.0)));
  }

  /** What both generators do with the group a request is for: complete it, if it is usable, and keep the report. */
  method CompleteTarget(pic: Picture, groups: seq<Group>, target: Target, regionId: string, padding: Region,
                        seed: Region, usable: bool)
    returns (completed: Region, reports: seq<Report>, done: bool)
    requires pic.Valid() && seed <= pic.frame
    ensures done <==> usable && CanComplete(pic, groups, target, padding, seed)
    ensures completed == if done then CompletedMask(pic, groups, target, seed) else {}
    ensures completed !! SfxMask(groups)
    ensures done ==>
              && completed != {} && completed <= pic.Envelope(groups[Resolve(groups, target).i].polygons)
              && completed !! Guard(groups, Resolve(groups, target).i, 0, padding, pic.frame)
    ensures ReportsCompletion(reports, regionId, Resolve(groups, target), done)
  {
    var chosen := Resolve(groups, target);
    completed, reports, done := {}, [], false;
    if chosen.Chosen? && usable && seed != {} {
      var mask, report := CompleteGroup(pic, groups, chosen.i, seed, padding, regionId);
      reports := [report];
      if report.pass { completed, done := mask, true; }
    } else {
      forall owned: Option<string> ensures !GateAccepts(CoverageOf([], regionId, chosen, owned), regionId) {
        NoReportFailsGate([], regionId, chosen, owned);
      }
    }
  }

  /** The report `reports` goes through the gate exactly with an owner of a completed group, for a named region. */
  ghost predicate ReportsCompletion(reports: seq<Report>, regionId: string, chosen: Resolved, done: bool) {
    && (done <==> reports != [] && forall r :: r in reports ==> r.pass)
    && forall owned: Option<string> ::
         GateAccepts(CoverageOf(reports, regionId, chosen, owned), regionId)
         <==> done && owned.Some? && owned.value != "" && regionId != ""
  }

  /** What both generators return: an accepted source is owned, and passes when it is small and certain enough. */
  method Assemble(pic: Picture, groups: seq<Group>, target: Target, regionId: string, padding: Region,
                  mask: Region, reports: seq<Report>, accepted: bool, certain: bool, ghost done: bool)
    returns (g: Generated)
    requires pic.frame != {} && Identified(groups) && mask !! SfxMask(groups) && (accepted ==> done)
    requires ReportsCompletion(reports, regionId, Resolve(groups, target), done)
    requires if !accepted then mask == {}
             else
               && Resolve(groups, target).Chosen? && mask != {}
               && mask <= pic.Envelope(groups[Resolve(groups, target).i].polygons)
               && mask !! Guard(groups, Resolve(groups, target).i, 0, padding, pic.frame)
    ensures Sound(g, pic, groups, target, regionId, padding)
    ensures g.accepted == accepted && g.mask == mask
    ensures g.pass <==> accepted && 100 * |mask| <= 12 * |pic.frame| && certain
  {
    var chosen := Resolve(groups, target);
    var owned := if accepted then Some(groups[chosen.i].ownedId) else None;
    assert GateAccepts(CoverageOf(reports, regionId, chosen, owned), regionId) <==> accepted && regionId != "";
    var coverage := CoverageOf(reports, regionId, chosen, owned);
    g := Generated(owned.Some? && coverage.pass && mask != {} && SmallEnough(|mask|, |pic.frame|) && certain,
                   mask, owned.Some?, coverage);
  }

  /** `generate_authorized_mask`; the refined component mask and the component count come from the
      segmentation. A source is accepted exactly when the chosen group is of an eligible class and can be
      completed; the mask is then the whole completed mask; and it passes exactly when it is small enough
      and certain enough. */
  method GenerateV1(pic: Picture, groups: seq<Group>, target: Target, regionId: string, padding: Region,
                    refined: Region, components: nat) returns (g: Generated)
    requires pic.Valid() && refined <= pic.frame && pic.frame != {} && Identified(groups)
    ensures Sound(g, pic, groups, target, regionId, padding)
    ensures g.accepted <==> CanComplete(pic, groups, target, padding, refined)
                            && groups[Resolve(groups, target).i].classification in ELIGIBLE
    ensures g.mask == if g.accepted then CompletedMask(pic, groups, target, refined) else {}
    ensures g.pass <==> g.accepted && 100 * |g.mask| <= 12 * |pic.frame|
                        && FirstCertainty(groups[Resolve(groups, target).i].confidence, components) >= 0.65
  {
    var chosen := Resolve(groups, target);
    var usable := chosen.Chosen? && groups[chosen.i].classification in ELIGIBLE;
    var mask, reports, done := CompleteTarget(pic, groups, target, regionId, padding, refined, usable);
    var confidence := if done then groups[chosen.i].confidence else 0.0;
    assert mask - SfxMask(groups) == mask;
    mask := mask - SfxMask(groups);
    var certain := FirstCertainty(confidence, components) >= 0.65;
    g := Assemble(pic, groups, target, regionId, padding, mask, reports, done, certain, done);
  }

  /** At most 12 percent of the page. */
  predicate SmallEnough(pixels: nat, total: nat)
    requires total > 0
    ensures SmallEnough(pixels, total) <==> 100 * pixels <= 12 * total
  {
    ShareOf(pixels as real, total as real, pixels as real / total as real);
    assert 100.0 * pixels as real == (100 * pixels) as real && 12.0 * total as real == (12 * total) as real;
    pixels as real / total as real <= MAX_AREA
  }

  lemma ShareOf(part: real, whole: real, share: real)
    requires whole > 0.0 && share == part / whole
    ensures share <= 0.12 <==> 100.0 * part <= 12.0 * whole
  {
    assert share * whole == part;
    if share <= 0.12 { assert share * whole <= 0.12 * whole; } else { assert share * whole > 0.12 * whole; }
  }

  datatype ReasonCode =
    | LowOcrSupport | ShortUnknownText | BackgroundTextureComplex | TextTouchingLineArt
    | GlyphMaskLowSupport | GlyphMaskOverexpansion | EmptyOutlinedMask

  function Code(stands: bool, code: ReasonCode): (codes: seq<ReasonCode>)
    ensures forall c :: c in codes <==> stands && c == code
  {
    if stands then [code] else []
  }

  /** What the second generator measures around a group of unknown class. */
  datatype Surroundings = Surroundings(
    tokens: nat, localClass: string, backgroundType: string, longLines: int,
    edgeDensity: real, candidateRatio: real, artContact: real, outlined: bool)
  {
    /** The reason codes against promoting a group whose weakest line has this confidence, in order. */
    function Reasons(support: real): seq<ReasonCode> {
      Code(support < 0.85, LowOcrSupport) + Code(tokens < 3, ShortUnknownText)
      + Code(localClass !in {"gradient", "plain", "uniform"}, BackgroundTextureComplex)
      + Code(backgroundType in {"speed_lines", "textured_art", "art"} || longLines > 2 || edgeDensity > 0.08,
             TextTouchingLineArt)
      + Code(candidateRatio < 0.04, GlyphMaskLowSupport) + Code(candidateRatio > 0.35, GlyphMaskOverexpansion)
      + Code(artContact > 0.12, TextTouchingLineArt) + Code(!outlined, EmptyOutlinedMask)
    }

    /** Everything speaks for promoting it. */
    predicate Promotes(support: real) {
      && support >= 0.85 && tokens >= 3
      && localClass in {"gradient", "plain", "uniform"}
      && backgroundType !in {"speed_lines", "textured_art", "art"} && longLines <= 2 && edgeDensity <= 0.08
      && 0.04 <= candidateRatio <= 0.35 && artContact <= 0.12 && outlined
    }
  }

  /** What each reason code stands for. */
  lemma ReasonsExactly(around: Surroundings, support: real, code: ReasonCode)
    ensures code in around.Reasons(support) <==>
              match code
              case LowOcrSupport => support < 0.85
              case ShortUnknownText => around.tokens < 3
              case BackgroundTextureComplex => around.localClass !in {"gradient", "plain", "uniform"}
              case TextTouchingLineArt =>
                around.backgroundType in {"speed_lines", "textured_art", "art"} || around.longLines > 2
                || around.edgeDensity > 0.08 || around.artContact > 0.12
              case GlyphMaskLowSupport => around.candidateRatio < 0.04
              case GlyphMaskOverexpansion => around.candidateRatio > 0.35
              case EmptyOutlinedMask => !around.outlined
  {}

  /** A group is promoted exactly when no reason code stands against it. */
  lemma PromotedWithoutReason(around: Surroundings, support: real)
    ensures around.Reasons(support) == [] <==> around.Promotes(support)
  {}

  /** A group the second generator tries to complete. */
  ghost predicate Usable(group: Group, around: Surroundings) {
    group.classification in ELIGIBLE || (group.classification == "unknown" && around.Promotes(group.confidence))
  }

  /** It tries an unknown group when no reason code stands against it. */
  method Consider(group: Group, around: Surroundings) returns (usable: bool)
    ensures usable <==> Usable(group, around)
  {
    PromotedWithoutReason(around, group.confidence);
    if group.classification in ELIGIBLE { return true; }
    usable := group.classification == "unknown" && around.Reasons(group.confidence) == [];
  }

  /** The second generator, once it is known whether the chosen group is usable. */
  method GenerateUsable(pic: Picture, groups: seq<Group>, target: Target, regionId: string, padding: Region,
                    selected: Region, usable: bool, core: Region -> Region, components: nat)
    returns (g: Generated)
    requires pic.Valid() && selected <= pic.frame && pic.frame != {} && Identified(groups)
    ensures Sound(g, pic, groups, target, regionId, padding)
    ensures g.accepted <==> CanComplete(pic, groups, target, padding, selected)
                            && core(CompletedMask(pic, groups, target, selected)) != {} && usable
    ensures g.mask == if g.accepted then CompletedMask(pic, groups, target, selected) else {}
    ensures g.pass <==> g.accepted && 100 * |g.mask| <= 12 * |pic.frame|
                        && Certainty(Round6(groups[Resolve(groups, target).i].confidence),
                                     |core(g.mask) - SfxMask(groups)|, |g.mask|, components) >= 0.75
  {
    var chosen := Resolve(groups, target);
    var completed, reports, done := CompleteTarget(pic, groups, target, regionId, padding, selected, usable);
    var accepted := done && core(completed) != {};
    var mask, coreMask := if accepted then completed else {}, if accepted then core(completed) else {};
    var support := if accepted then Round6(groups[chosen.i].confidence) else 0.0;
    assert mask - SfxMask(groups) == mask;
    mask, coreMask := mask - SfxMask(groups), coreMask - SfxMask(groups);
    var certain := Certainty(support, |coreMask|, |mask|, components) >= 0.75;
    g := Assemble(pic, groups, target, regionId, padding, mask, reports, accepted, certain, done);
  }

  /** `generate_authorized_mask_v2`; `selected` is the component mask of an eligible group or the
      outlined-glyph mask of an unknown one, `core` its erosion. */
  method GenerateV2(pic: Picture, groups: seq<Group>, target: Target, regionId: string, padding: Region,
                    selected: Region, around: Surroundings, core: Region -> Region, components: nat)
    returns (g: Generated)
    requires pic.Valid() && selected <= pic.frame && pic.frame != {} && Identified(groups)
    ensures Sound(g, pic, groups, target, regionId, padding)
    ensures g.accepted <==> CanComplete(pic, groups, target, padding, selected)
                            && core(CompletedMask(pic, groups, target, selected)) != {}
                            && Usable(groups[Resolve(groups, target).i], around)
    ensures g.mask == if g.accepted then CompletedMask(pic, groups, target, selected) else {}
    ensures g.pass <==> g.accepted && 100 * |g.mask| <= 12 * |pic.frame|
                        && Certainty(Round6(groups[Resolve(groups, target).i].confidence),
                                     |core(g.mask) - SfxMask(groups)|, |g.mask|, components) >= 0.75
  {
    var chosen, usable := Resolve(groups, target), false;
    if chosen.Chosen? { usable := Consider(groups[chosen.i], around); }
    g := GenerateUsable(pic, groups, target, regionId, padding, selected, usable, core, components);
  }

  function AtMostOne(x: real): real { if x > 1.0 then 1.0 else x }

  /** The second generator's confidence; the picture alone never makes up for unsupported text. */
  function Certainty(support: real, core: nat, pixels: nat, components: nat): (certainty: real)
    ensures certainty >= 0.75 ==> support >= 0.54545
  {
    CertaintyBound(support * 0.55, AtMostOne(core as real / (if pixels < 1 then 1 else pixels) as real),
                   AtMostOne(components as real / 20.0));
    Round6(support * 0.55 + AtMostOne(core as real / (if pixels < 1 then 1 else pixels) as real) * 0.2
           + AtMostOne(components as real / 20.0) * 0.1 + 0.15)
  }

  /** It is the weighted sum of the text's support, the core's share of the mask and the components up to
      twenty, to the nearest millionth. */
  lemma CertaintyMeans(support: real, core: nat, pixels: nat, components: nat)
    ensures var share := if core == 0 then 0.0 else if core >= pixels then 1.0 else core as real / pixels as real;
            var parts := if components >= 20 then 0.1 else 0.005 * components as real;
            var sum := 0.55 * support + 0.2 * share + parts + 0.15;
            sum - 0.0000005 <= Certainty(support, core, pixels, components) <= sum + 0.0000005
  {
    var share := core as real / (if pixels < 1 then 1 else pixels) as real;
    if core >= pixels > 0 {
      AtLeastOne(core, pixels);
    } else if core < pixels {
      BelowOne(core, pixels);
    }
    Round6Near(support * 0.55 + AtMostOne(share) * 0.2 + AtMostOne(components as real / 20.0) * 0.1 + 0.15);
  }

  lemma AtLeastOne(part: nat, whole: nat)
    requires part >= whole > 0
    ensures part as real / whole as real >= 1.0
  {
    assert part as real / whole as real * whole as real == part as real;
  }

  lemma BelowOne(part: nat, whole: nat)
    requires part < whole
    ensures part as real / whole as real < 1.0 && (part == 0 ==> part as real / whole as real == 0.0)
  {
    assert part as real / whole as real * whole as real == part as real;
  }

  lemma CertaintyBound(text: real, share: real, parts: real)
    requires share <= 1.0 && parts <= 1.0
    ensures Round6(text + share * 0.2 + parts * 0.1 + 0.15) <= text + 0.4500005
  {
    Round6Near(text + share * 0.2 + parts * 0.1 + 0.15);
  }
}
