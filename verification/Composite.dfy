/** research/gemini_vps_web_worker/validation.py: placing the authorized mask on its page, composing
    the generated picture inside it, and the quality and training decisions about the result. */
module Composite {
  import opened Basics

  datatype Result<+T> = Ok(value: T) | Err(reason: string)

  /** A picture: a value for every pixel of its frame (what `at` says elsewhere means nothing). */
  datatype Picture<+T> = Picture(width: nat, height: nat, at: (int, int) -> T) {
    predicate Valid() { width > 0 && height > 0 }
    predicate Has(x: int, y: int) { 0 <= x < width && 0 <= y < height }
  }

  // ---- placing the mask ---------------------------------------------------------------------------

  datatype Space = PageSpace | CropSpace | OtherSpace
  datatype Box = Box(x: int, y: int, w: int, h: int) {
    predicate Has(px: int, py: int) { x <= px < x + w && y <= py < y + h }
  }

  const OPAQUE: int := 128
  const MAX_MASK_PERCENT: nat := 34

  /** A blank page with the mask pasted at (left, top). */
  function Pasted(mask: Picture<int>, pageWidth: nat, pageHeight: nat, left: int, top: int): Picture<int> {
    Picture(pageWidth, pageHeight, (x, y) => if mask.Has(x - left, y - top) then mask.at(x - left, y - top) else 0)
  }

  /** The mask as a page, or why there is none. */
  function PageOf(mask: Picture<int>, pageWidth: nat, pageHeight: nat, space: Space, box: Option<Box>)
    : Result<Picture<int>>
  {
    match space
    case PageSpace =>
      if mask.width == pageWidth && mask.height == pageHeight then Ok(mask) else Err("mask_shape_mismatch")
    case CropSpace =>
      if box.None? then Err("mask_crop_geometry_required")
      else
        var b := box.value;
        if b.w <= 0 || b.h <= 0 || mask.width != b.w || mask.height != b.h then Err("mask_crop_shape_mismatch")
        else if b.x < 0 || b.y < 0 || b.x + b.w > pageWidth || b.y + b.h > pageHeight
        then Err("mask_crop_out_of_bounds")
        else Ok(Pasted(mask, pageWidth, pageHeight, b.x, b.y))
    case OtherSpace => Err("mask_coordinate_space_invalid")
  }

  /** The pixels of a page mask with value 128 or more. */
  function Opaque(page: Picture<int>): (region: set<Pixel>)
    ensures forall x, y :: (x, y) in region <==> page.Has(x, y) && page.at(x, y) >= OPAQUE
  {
    set x, y | 0 <= x < page.width && 0 <= y < page.height && page.at(x, y) >= OPAQUE :: (x, y)
  }

  /** `_page_mask`: the authorized pixels of the page. */
  function PageMask(mask: Picture<int>, pageWidth: nat, pageHeight: nat, space: Space, box: Option<Box>)
    : Result<set<Pixel>>
  {
    match PageOf(mask, pageWidth, pageHeight, space, box)
    case Err(reason) => Err(reason)
    case Ok(page) => Limited(Opaque(page), pageWidth * pageHeight)
  }

  function Limited(region: set<Pixel>, total: nat): (r: Result<set<Pixel>>)
    ensures r.Ok? ==> r.value == region && region != {} && |region| * 100 <= MAX_MASK_PERCENT * total
  {
    if |region| == 0 then Err("mask_empty")
    else if |region| == total then Err("mask_full_image_forbidden")
    else if |region| * 100 > MAX_MASK_PERCENT * total then Err("mask_area_excessive")
    else Ok(region)
  }

  /** Whether a mask belongs on the page: its own size is the page's, or it is a crop that fits its box and
      the box the page. */
  ghost predicate Belongs(mask: Picture<int>, pageWidth: nat, pageHeight: nat, space: Space, box: Option<Box>) {
    match space
    case PageSpace => mask.width == pageWidth && mask.height == pageHeight
    case CropSpace =>
      && box.Some? && mask.width > 0 && mask.height > 0 && (mask.width, mask.height) == (box.value.w, box.value.h)
      && box.value.x >= 0 && box.value.y >= 0
      && box.value.x + mask.width <= pageWidth && box.value.y + mask.height <= pageHeight
    case OtherSpace => false
  }

  /** Where a mask's corner lies on the page. */
  function Corner(space: Space, box: Option<Box>): Pixel {
    if space == CropSpace && box.Some? then (box.value.x, box.value.y) else (0, 0)
  }

  lemma PageShows(mask: Picture<int>, pageWidth: nat, pageHeight: nat, space: Space, box: Option<Box>, x: int, y: int)
    requires PageOf(mask, pageWidth, pageHeight, space, box).Ok?
    ensures var page, c := PageOf(mask, pageWidth, pageHeight, space, box).value, Corner(space, box);
            && page.width == pageWidth && page.height == pageHeight
            && (page.Has(x, y) && page.at(x, y) >= OPAQUE
                <==> mask.Has(x - c.0, y - c.1) && mask.at(x - c.0, y - c.1) >= OPAQUE)
  {}

  /** The mask has an opaque pixel at (x, y) of the page, once its corner is moved there. */
  predicate Covers(mask: Picture<int>, corner: Pixel, x: int, y: int) {
    mask.Has(x - corner.0, y - corner.1) && mask.at(x - corner.0, y - corner.1) >= 128
  }

  /** The region holds exactly the mask's opaque pixels, moved to where the mask belongs. */
  ghost predicate Moved(mask: Picture<int>, corner: Pixel, region: set<Pixel>) {
    forall x, y :: (x, y) in region <==> Covers(mask, corner, x, y)
  }

  lemma BelongsExactly(mask: Picture<int>, pageWidth: nat, pageHeight: nat, space: Space, box: Option<Box>)
    ensures PageOf(mask, pageWidth, pageHeight, space, box).Ok? <==> Belongs(mask, pageWidth, pageHeight, space, box)
  {}

  lemma PageCovers(mask: Picture<int>, pageWidth: nat, pageHeight: nat, space: Space, box: Option<Box>, x: int, y: int)
    requires PageOf(mask, pageWidth, pageHeight, space, box).Ok?
    ensures (x, y) in Opaque(PageOf(mask, pageWidth, pageHeight, space, box).value)
       <==> Covers(mask, Corner(space, box), x, y)
  {
    PageShows(mask, pageWidth, pageHeight, space, box, x, y);
  }

  lemma OpaqueMoved(mask: Picture<int>, pageWidth: nat, pageHeight: nat, space: Space, box: Option<Box>)
    requires PageOf(mask, pageWidth, pageHeight, space, box).Ok?
    ensures Moved(mask, Corner(space, box), Opaque(PageOf(mask, pageWidth, pageHeight, space, box).value))
  {
    forall x, y ensures (x, y) in Opaque(PageOf(mask, pageWidth, pageHeight, space, box).value)
                   <==> Covers(mask, Corner(space, box), x, y)
    {
      PageCovers(mask, pageWidth, pageHeight, space, box, x, y);
    }
  }

  lemma MovedOnce(mask: Picture<int>, corner: Pixel, a: set<Pixel>, b: set<Pixel>)
    requires Moved(mask, corner, a) && Moved(mask, corner, b)
    ensures a == b
  {
    forall p: Pixel ensures p in a <==> p in b {
      var (x, y) := p;
      assert (x, y) in a <==> Covers(mask, corner, x, y);
      assert (x, y) in b <==> Covers(mask, corner, x, y);
    }
  }

  lemma LimitedExactly(region: set<Pixel>, total: nat)
    requires total > 0
    ensures Limited(region, total) == Ok(region) <==> region != {} && 100 * |region| <= 34 * total
  {}

  /** A mask authorizes something exactly when it belongs on the page and its opaque pixels, moved there,
      are at least one and at most 34 percent of the page. */
  lemma AuthorizedExactly(mask: Picture<int>, pageWidth: nat, pageHeight: nat, space: Space, box: Option<Box>,
                          region: set<Pixel>)
    requires pageWidth * pageHeight > 0
    ensures PageMask(mask, pageWidth, pageHeight, space, box) == Ok(region) <==>
              && Belongs(mask, pageWidth, pageHeight, space, box) && Moved(mask, Corner(space, box), region)
              && region != {} && 100 * |region| <= 34 * (pageWidth * pageHeight)
  {
    BelongsExactly(mask, pageWidth, pageHeight, space, box);
    if Belongs(mask, pageWidth, pageHeight, space, box) {
      var pixels := Opaque(PageOf(mask, pageWidth, pageHeight, space, box).value);
      OpaqueMoved(mask, pageWidth, pageHeight, space, box);
      LimitedExactly(pixels, pageWidth * pageHeight);
      if Moved(mask, Corner(space, box), region) { MovedOnce(mask, Corner(space, box), region, pixels); }
    }
  }

  /** A mask that does not belong is refused for where it does not. */
  lemma MisplacedExactly(mask: Picture<int>, pageWidth: nat, pageHeight: nat, space: Space, box: Option<Box>)
    requires !Belongs(mask, pageWidth, pageHeight, space, box)
    ensures PageMask(mask, pageWidth, pageHeight, space, box) == Err(
              match space
              case PageSpace => "mask_shape_mismatch"
              case OtherSpace => "mask_coordinate_space_invalid"
              case CropSpace =>
                if box.None? then "mask_crop_geometry_required"
                else if mask.width > 0 && mask.height > 0 && mask.width == box.value.w && mask.height == box.value.h
                then "mask_crop_out_of_bounds" else "mask_crop_shape_mismatch")
  {}

  lemma LimitNamed(region: set<Pixel>, total: nat)
    ensures region == {} ==> Limited(region, total) == Err("mask_empty")
    ensures region != {} && |region| == total ==> Limited(region, total) == Err("mask_full_image_forbidden")
    ensures |region| != total && 100 * |region| > 34 * total ==> Limited(region, total) == Err("mask_area_excessive")
  {}

  lemma LimitsRegion(mask: Picture<int>, pageWidth: nat, pageHeight: nat, space: Space, box: Option<Box>,
                     region: set<Pixel>, total: nat)
    requires Belongs(mask, pageWidth, pageHeight, space, box) && Moved(mask, Corner(space, box), region)
    requires total == pageWidth * pageHeight
    ensures PageMask(mask, pageWidth, pageHeight, space, box) == Limited(region, total)
  {
    BelongsExactly(mask, pageWidth, pageHeight, space, box);
    var pixels := Opaque(PageOf(mask, pageWidth, pageHeight, space, box).value);
    OpaqueMoved(mask, pageWidth, pageHeight, space, box);
    MovedOnce(mask, Corner(space, box), region, pixels);
  }

  /** One that belongs is refused for covering nothing, the whole page, or too much of it. */
  lemma CoveringExactly(mask: Picture<int>, pageWidth: nat, pageHeight: nat, space: Space, box: Option<Box>,
                        region: set<Pixel>, total: nat)
    requires Belongs(mask, pageWidth, pageHeight, space, box) && Moved(mask, Corner(space, box), region)
    requires total == pageWidth * pageHeight
    ensures var r := PageMask(mask, pageWidth, pageHeight, space, box);
            && (region == {} ==> r == Err("mask_empty"))
            && (region != {} && |region| == total ==> r == Err("mask_full_image_forbidden"))
            && (|region| != total && 100 * |region| > 34 * total ==> r == Err("mask_area_excessive"))
  {
    LimitsRegion(mask, pageWidth, pageHeight, space, box, region, total);
    LimitNamed(region, total);
  }

  /** An authorized region is never empty nor more than 34 percent of the page, lies on the page,
      and is exactly the mask's opaque pixels moved to where the mask belongs. */
  lemma AuthorizedRegion(mask: Picture<int>, pageWidth: nat, pageHeight: nat, space: Space, box: Option<Box>,
                         x: int, y: int)
    requires PageMask(mask, pageWidth, pageHeight, space, box).Ok?
    ensures var region, c := PageMask(mask, pageWidth, pageHeight, space, box).value, Corner(space, box);
            && region != {} && |region| * 100 <= MAX_MASK_PERCENT * (pageWidth * pageHeight)
            && ((x, y) in region ==> 0 <= x < pageWidth && 0 <= y < pageHeight)
            && ((x, y) in region <==> mask.Has(x - c.0, y - c.1) && mask.at(x - c.0, y - c.1) >= OPAQUE)
  {
    PageShows(mask, pageWidth, pageHeight, space, box, x, y);
  }

  predicate Inside(mask: Picture<int>, b: Box) {
    b.w > 0 && b.h > 0 && 0 <= b.x && 0 <= b.y && b.x + b.w <= mask.width && b.y + b.h <= mask.height
  }

  /** The part of a page mask inside a box, as a crop mask. */
  function Cropped(mask: Picture<int>, b: Box): Picture<int>
    requires Inside(mask, b)
  {
    Picture(b.w, b.h, (x, y) => mask.at(x + b.x, y + b.y))
  }

  /** Sending a page mask or only its crop authorizes the same pixels (or fails alike), as long as
      every opaque pixel is inside the crop box. */
  lemma CropAuthorizesTheSame(mask: Picture<int>, b: Box)
    requires b.w > 0 && b.h > 0 && 0 <= b.x && 0 <= b.y && b.x + b.w <= mask.width && b.y + b.h <= mask.height
    requires forall p :: p in Opaque(mask) ==> b.Has(p.0, p.1)
    ensures PageMask(Cropped(mask, b), mask.width, mask.height, CropSpace, Some(b))
         == PageMask(mask, mask.width, mask.height, PageSpace, None)
  {
    var page := Pasted(Cropped(mask, b), mask.width, mask.height, b.x, b.y);
    forall p | true ensures p in Opaque(page) <==> p in Opaque(mask) { PastedBack(mask, b, p.0, p.1); }
    assert Opaque(page) == Opaque(mask);
    assert PageOf(Cropped(mask, b), mask.width, mask.height, CropSpace, Some(b)) == Ok(page);
  }

  lemma PastedBack(mask: Picture<int>, b: Box, x: int, y: int)
    requires Inside(mask, b) && ((x, y) in Opaque(mask) ==> b.Has(x, y))
    ensures (x, y) in Opaque(Pasted(Cropped(mask, b), mask.width, mask.height, b.x, b.y)) <==> (x, y) in Opaque(mask)
  {
    var crop, u, v := Cropped(mask, b), x - b.x, y - b.y;
    assert crop.Has(u, v) <==> b.Has(x, y);
    assert crop.at(u, v) == mask.at(u + b.x, v + b.y);
    assert u + b.x == x && v + b.y == y;
    assert Pasted(crop, mask.width, mask.height, b.x, b.y).at(x, y) == if crop.Has(u, v) then crop.at(u, v) else 0;
  }

  // ---- composing -----------------------------------------------------------------------------------------

  type Color = (int, int, int, int)

  /** `Image.composite` with a binary mask: the generated pixel inside, the original outside. */
  function Composed(visible: Picture<Color>, original: Picture<Color>, region: set<Pixel>): Picture<Color>
    requires visible.Valid() && original.Valid() && visible.width == original.width && visible.height == original.height
  {
    Picture(original.width, original.height, (x, y) => if (x, y) in region then visible.at(x, y) else original.at(x, y))
  }

  function ChangedOutside(result: Picture<Color>, original: Picture<Color>, region: set<Pixel>): set<Pixel> {
    set x, y | 0 <= x < original.width && 0 <= y < original.height
               && (x, y) !in region && result.at(x, y) != original.at(x, y) :: (x, y)
  }

  /** Inside the region a picture shows the generated one, everywhere else the original. */
  ghost predicate Composes(result: Picture<Color>, original: Picture<Color>, visible: Picture<Color>,
                           region: set<Pixel>)
  {
    && result.width == original.width && result.height == original.height
    && forall x, y :: original.Has(x, y) ==>
         result.at(x, y) == if (x, y) in region then visible.at(x, y) else original.at(x, y)
  }

  /** The composite shows the generated picture on every pixel of the region and the original on every
      other, so nothing changed is counted outside. */
  lemma ComposedChangesOnlyInside(visible: Picture<Color>, original: Picture<Color>, region: set<Pixel>)
    requires visible.Valid() && original.Valid() && visible.width == original.width && visible.height == original.height
    ensures var result := Composed(visible, original, region);
            && Composes(result, original, visible, region)
            && ChangedOutside(result, original, region) == {}
  {}

  /** What is counted outside: every pixel of the page that is not in the region and differs. */
  lemma ChangedOutsideMeans(result: Picture<Color>, original: Picture<Color>, region: set<Pixel>, x: int, y: int)
    ensures (x, y) in ChangedOutside(result, original, region)
       <==> original.Has(x, y) && (x, y) !in region && result.at(x, y) != original.at(x, y)
  {}

  // ---- decisions ------------------------------------------------------------------------------------------

  datatype Quality =
    | Acceptable | SfxProtected | RawTransparent | NoAuthorizedMask | AlignmentMismatch
    | ProtocolIdentity | OutsideMaskChanged | SeamReview | ResidualSourceText | OcrInconclusive

  datatype Verdict = Pass | Fail | Inconclusive | NotRun | Missing

  const SCHEMA := "safe-clean.v2"

  /** What the training decision reads of a validation; `schema` is None without an identity. */
  datatype Validation = Validation(
    quality: Quality, schema: Option<string>, seam: Verdict, outsideChanged: Option<nat>,
    alignment: Verdict, residual: Verdict, ocr: Verdict, sfx: Verdict)

  function Checks(v: Validation): seq<(string, bool)> {
    [("QUALITY", v.quality == Acceptable), ("IDENTITY", v.schema == Some(SCHEMA)), ("SEAM", v.seam == Pass),
     ("OUTSIDE_MASK", v.outsideChanged == Some(0)), ("ALIGNMENT", v.alignment == Pass),
     ("RESIDUAL", v.residual == Pass),
     ("OCR_TEXT_REMOVAL", v.ocr == Pass), ("SFX", v.sfx == Pass)]
  }

  /** `training_candidate_decision`: None, or the first gate missing. */
  function MissingGate(checks: seq<(string, bool)>): Option<string> {
    if checks == [] then None else if !checks[0].1 then Some(checks[0].0) else MissingGate(checks[1..])
  }

  predicate TrainingCandidate(v: Validation) { forall c :: c in Checks(v) ==> c.1 }

  lemma {:induction false} MissingGateMeans(checks: seq<(string, bool)>)
    ensures MissingGate(checks) == None <==> forall c :: c in checks ==> c.1
    ensures MissingGate(checks).Some? ==> (MissingGate(checks).value, false) in checks
  {
    if checks != [] && checks[0].1 { MissingGateMeans(checks[1..]); }
  }

  lemma {:induction false} FirstMissing(checks: seq<(string, bool)>, k: nat)
    requires k < |checks| && !checks[k].1 && forall j :: 0 <= j < k ==> checks[j].1
    ensures MissingGate(checks) == Some(checks[k].0)
  {
    if k > 0 { FirstMissing(checks[1..], k - 1); }
  }

  /** Which gate a refusal names: the first of these that does not hold, in this order. */
  lemma GateNamed(v: Validation)
    ensures MissingGate(Checks(v)) ==
              if v.quality != Acceptable then Some("QUALITY")
              else if v.schema != Some("safe-clean.v2") then Some("IDENTITY")
              else if v.seam != Pass then Some("SEAM") else if v.outsideChanged != Some(0) then Some("OUTSIDE_MASK")
              else if v.alignment != Pass then Some("ALIGNMENT") else if v.residual != Pass then Some("RESIDUAL")
              else if v.ocr != Pass then Some("OCR_TEXT_REMOVAL") else if v.sfx != Pass then Some("SFX") else None
  {
    var checks := Checks(v);
    assert |checks| == 8;
    if v.quality != Acceptable { FirstMissing(checks, 0); }
    else if v.schema != Some(SCHEMA) { FirstMissing(checks, 1); }
    else if v.seam != Pass { FirstMissing(checks, 2); }
    else if v.outsideChanged != Some(0) { FirstMissing(checks, 3); }
    else if v.alignment != Pass { FirstMissing(checks, 4); }
    else if v.residual != Pass { FirstMissing(checks, 5); }
    else if v.ocr != Pass { FirstMissing(checks, 6); }
    else if v.sfx != Pass { FirstMissing(checks, 7); }
    else { MissingGateMeans(checks); }
  }

  /** Submission metadata that identifies the job; the flags say whether the stated source and mask
      hashes equal the ones computed. */
  datatype Identity = Identity(
    schema: string, requestId: string, parentJobId: string, runId: string, pageId: string, regionIds: seq<string>,
    sourceMatches: bool, maskMatches: bool, baseSha: string)
  {
    predicate Complete() {
      && schema == SCHEMA && requestId != "" && parentJobId != "" && runId != "" && pageId != "" && regionIds != []
      && sourceMatches && maskMatches && |baseSha| == 64
    }
  }

  /** One job to validate. `raw` is the decoded generated picture's size and whether it is fully
      transparent; `visible` is it scaled to the page and blended over the original; seam and text
      removal come from their own measurements. */
  datatype Submission = Submission(
    sfxProtected: bool, rawDecodes: bool, rawTransparent: bool, rawWidth: nat, rawHeight: nat,
    original: Picture<Color>, visible: Picture<Color>, mask: Option<Picture<int>>, space: Space, box: Option<Box>,
    identity: Identity, seamPass: bool, textRemoval: Verdict)
  {
    ghost predicate Valid() {
      && original.Valid() && visible.Valid() && visible.width == original.width && visible.height == original.height
      && rawWidth > 0 && rawHeight > 0 && (mask.Some? ==> mask.value.Valid())
    }

    predicate SameShape()
      requires rawHeight > 0 && original.height > 0
    {
      (rawWidth, rawHeight) == (original.width, original.height)
      || (var d := original.width as real / original.height as real - rawWidth as real / rawHeight as real;
          -0.001 <= d <= 0.001)
    }

    /** The pixels the submission authorizes to change, or why there are none. */
    function Placed(): Result<set<Pixel>>
      requires mask.Some?
    {
      PageMask(mask.value, original.width, original.height, space, box)
    }
  }

  /** The shapes match when the sides are proportional to a thousandth: a generated picture of the page's own
      size always does. */
  lemma SameShapeExactly(s: Submission)
    requires s.rawHeight > 0 && s.original.height > 0
    ensures s.SameShape() <==>
              var across := s.original.width * s.rawHeight - s.rawWidth * s.original.height;
              -(s.original.height * s.rawHeight) <= 1000 * across <= s.original.height * s.rawHeight
  {
    CrossMultiplied(s.original.width, s.original.height, s.rawWidth, s.rawHeight);
  }

  lemma CrossMultiplied(w: nat, h: nat, u: nat, v: nat)
    requires h > 0 && v > 0
    ensures -0.001 <= w as real / h as real - u as real / v as real <= 0.001
       <==> -(h * v) <= 1000 * (w * v - u * h) <= h * v
  {
    var a, b := w as real / h as real, u as real / v as real;
    ProductOf(w, h, v, a);
    ProductOf(u, v, h, b);
    var d, across := a - b, w * v - u * h;
    assert d * (h * v) as real == across as real;
    assert -d * (h * v) as real == (-across) as real;
    Thousandth(d, h * v, across);
    Thousandth(-d, h * v, -across);
  }

  lemma Thousandth(d: real, total: nat, across: int)
    requires total > 0 && d * total as real == across as real
    ensures d <= 0.001 <==> 1000 * across <= total
  {
    if d <= 0.001 { assert d * total as real <= 0.001 * total as real; }
    else { assert d * total as real > 0.001 * total as real; }
  }

  lemma ProductOf(n: nat, d: nat, m: nat, q: real)
    requires d > 0 && q == n as real / d as real
    ensures q * (d * m) as real == (n * m) as real
  {
    assert q * d as real == n as real;
    assert (d * m) as real == d as real * m as real;
    assert (n * m) as real == n as real * m as real;
  }

  /** A submission gets as far as being composed. */
  ghost predicate Reaches(s: Submission, sameShape: bool, placed: Result<set<Pixel>>) {
    !s.sfxProtected && s.rawDecodes && !s.rawTransparent && s.mask.Some? && sameShape && placed.Ok?
  }

  /** Something of the identity is missing or does not match. */
  ghost predicate Unidentified(i: Identity) {
    || i.schema != "safe-clean.v2" || i.requestId == "" || i.parentJobId == "" || i.runId == "" || i.pageId == ""
    || i.regionIds == [] || !i.sourceMatches || !i.maskMatches || |i.baseSha| != 64
  }

  /** The quality of every submission that does not raise. */
  ghost predicate Graded(s: Submission, sameShape: bool, placed: Result<set<Pixel>>, quality: Quality) {
    var composed := Reaches(s, sameShape, placed);
    && (quality == SfxProtected <==> s.sfxProtected)
    && (quality == RawTransparent <==> !s.sfxProtected && s.rawTransparent)
    && (quality == NoAuthorizedMask <==> !s.sfxProtected && !s.rawTransparent && s.mask.None?)
    && (quality == AlignmentMismatch <==> !s.sfxProtected && !s.rawTransparent && s.mask.Some? && !sameShape)
    && (quality == ProtocolIdentity <==> composed && Unidentified(s.identity))
    && (quality == SeamReview <==> composed && s.identity.Complete() && !s.seamPass)
    && (quality == ResidualSourceText <==> composed && s.identity.Complete() && s.seamPass && s.textRemoval == Fail)
    && (quality == Acceptable <==> composed && s.identity.Complete() && s.seamPass && s.textRemoval == Pass)
    && quality != OutsideMaskChanged
  }

  /** What a validation promises, given whether the shapes match and what the mask authorizes. */
  ghost predicate Promised(s: Submission, sameShape: bool, placed: Result<set<Pixel>>,
                           v: Result<Validation>, saved: Option<Picture<Color>>)
    requires s.Valid()
  {
    // it raises exactly for an unreadable picture, or a misplaced mask that is needed
    && (v.Err? <==>
          !s.sfxProtected && (!s.rawDecodes || (!s.rawTransparent && s.mask.Some? && sameShape && placed.Err?)))
    && (v.Err? ==> v.reason == if s.rawDecodes then placed.reason else "raw output failed decode")
    && (v.Ok? ==> Graded(s, sameShape, placed, v.value.quality))
    // the training decision takes exactly the acceptable results
    && (v.Ok? ==> (TrainingCandidate(v.value) <==> v.value.quality == Acceptable))
    // no pixel outside the mask is ever reported changed
    && (v.Ok? ==> v.value.outsideChanged == if saved.Some? then Some(0) else None)
    // a picture is saved when the generated one is transparent, which leaves the original, or composed
    && (saved.Some? <==> (!s.sfxProtected && s.rawDecodes && s.rawTransparent) || Reaches(s, sameShape, placed))
    && (saved.Some? && s.rawTransparent ==> Composes(saved.value, s.original, s.visible, {}))
    && (saved.Some? && !s.rawTransparent ==> Composes(saved.value, s.original, s.visible, placed.value))
  }

  /** `validate_and_composite`: Err stands for the ValueError. The saved picture shows the generated one on
      every authorized pixel and the original on every other, so the outside-mask-changed outcome is
      unreachable; and a result is acceptable exactly when the training decision takes it. */
  method ValidateAndComposite(s: Submission) returns (v: Result<Validation>, saved: Option<Picture<Color>>)
    requires s.Valid()
    ensures Promised(s, s.SameShape(), if s.mask.Some? then s.Placed() else Err("no mask"), v, saved)
  {
    var placed := if s.mask.Some? then s.Placed() else Err("no mask");
    v, saved := Validate(s, s.SameShape(), placed);
  }

  method Validate(s: Submission, sameShape: bool, placed: Result<set<Pixel>>)
    returns (v: Result<Validation>, saved: Option<Picture<Color>>)
    requires s.Valid()
    ensures Promised(s, sameShape, placed, v, saved)
  {
    if s.sfxProtected { return Ok(Early(SfxProtected, None, Missing, Missing, Missing)), None; }
    if !s.rawDecodes { return Err("raw output failed decode"), None; }
    if s.rawTransparent {
      return Ok(Early(RawTransparent, Some(0), NotRun, Inconclusive, Pass)), Some(s.original);
    }
    if s.mask.None? { return Ok(Early(NoAuthorizedMask, None, Missing, Missing, Missing)), None; }
    if !sameShape { return Ok(Early(AlignmentMismatch, None, Missing, Missing, Missing)), None; }
    if placed.Err? { return Err(placed.reason), None; }
    var validation, result := ComposeAndJudge(s, placed.value);
    v, saved := Ok(validation), Some(result);
  }

  method ComposeAndJudge(s: Submission, region: set<Pixel>) returns (v: Validation, result: Picture<Color>)
    requires s.Valid()
    ensures v == Judged(s.identity, 0, s.seamPass, s.textRemoval)
    ensures Composes(result, s.original, s.visible, region)
  {
    result := Composed(s.visible, s.original, region);
    var changed := ChangedOutside(result, s.original, region);
    ComposedChangesOnlyInside(s.visible, s.original, region);
    v := Judged(s.identity, |changed|, s.seamPass, s.textRemoval);
  }

  /** The verdict on a composed page. */
  function Judged(identity: Identity, changed: nat, seamPass: bool, textRemoval: Verdict): (v: Validation)
    ensures v.quality == Acceptable <==> identity.Complete() && changed == 0 && seamPass && textRemoval == Pass
    ensures TrainingCandidate(v) <==> v.quality == Acceptable
    ensures v.quality == ProtocolIdentity <==> !identity.Complete()
    ensures v.quality == OutsideMaskChanged <==> identity.Complete() && changed != 0
    ensures v.quality == SeamReview <==> identity.Complete() && changed == 0 && !seamPass
    ensures v.quality == ResidualSourceText <==>
              identity.Complete() && changed == 0 && seamPass && textRemoval == Fail
    ensures v.quality !in {SfxProtected, RawTransparent, NoAuthorizedMask, AlignmentMismatch}
    ensures v.outsideChanged == Some(changed) && v.schema == Some(identity.schema)
    ensures (v.alignment, v.ocr, v.sfx) == (Pass, textRemoval, Pass) && (v.seam == Pass <==> seamPass)
    ensures (v.residual == Pass <==> textRemoval == Pass) && (v.residual == Fail <==> textRemoval == Fail)
  {
    var quality := if !identity.Complete() then ProtocolIdentity
      else if changed != 0 then OutsideMaskChanged
      else if !seamPass then SeamReview
      else if textRemoval == Fail then ResidualSourceText
      else if textRemoval != Pass then OcrInconclusive
      else Acceptable;
    var residual := if textRemoval == Pass then Pass else if textRemoval == Fail then Fail else Inconclusive;
    var v := Validation(quality, Some(identity.schema), if seamPass then Pass else Inconclusive, Some(changed),
                        Pass, residual, textRemoval, Pass);
    CheckList(v);
    v
  }

  /** A result that stops before composing carries no identity. */
  function Early(quality: Quality, changed: Option<nat>, alignment: Verdict, text: Verdict, sfx: Verdict)
    : (v: Validation)
    requires quality != Acceptable
    ensures v.quality == quality && v.outsideChanged == changed && !TrainingCandidate(v)
  {
    var v := Validation(quality, None, Missing, changed, alignment, text, text, sfx);
    assert Checks(v)[0] in Checks(v);
    v
  }

  lemma CheckList(v: Validation)
    ensures TrainingCandidate(v) <==>
              && v.quality == Acceptable && v.schema == Some("safe-clean.v2") && v.seam == Pass
              && v.outsideChanged == Some(0)
              && v.alignment == Pass && v.residual == Pass && v.ocr == Pass && v.sfx == Pass
  {
    var checks := Checks(v);
    assert checks[0] in checks && checks[1] in checks && checks[2] in checks && checks[3] in checks;
    assert checks[4] in checks && checks[5] in checks && checks[6] in checks && checks[7] in checks;
  }
}
