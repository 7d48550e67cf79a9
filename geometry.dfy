/** Page geometry of the book builder: the trim size of the book, cover and
    back documents (explicit overrides, auto-trim from a sample image's
    aspect ratio, or the fixed default), bleed added on every side, the
    conversion from centimetres to points, and the crop-mark segments drawn
    at the corners of every page. All lengths are in centimetres unless the
    name says points. */
module Geometry {
  import opened Wrappers
  import Strings

  const PointsPerInch: real := 72.0
  const CmPerInch: real := 2.54

  /** cm_to_points: (cm / 2.54) * 72. */
  function CmToPoints(cmValue: real): (points: real)
    ensures points * CmPerInch == cmValue * PointsPerInch
  {
    (cmValue / 2.54) * 72.0
  }

  /** The conversion is linear, so converting a sum or a multiple never drifts
      from converting its parts. */
  lemma CmToPointsIsLinear(a: real, b: real, k: real)
    ensures CmToPoints(a + b) == CmToPoints(a) + CmToPoints(b)
    ensures CmToPoints(k * a) == k * CmToPoints(a)
    ensures CmToPoints(0.0) == 0.0
  {
  }

  /** A command-line length counts as given only when it is present and
      non-zero: Python's `if args.page_width_cm` treats 0.0 as absent. */
  predicate Given(o: Option<real>) {
    o.Some? && o.value != 0.0
  }

  datatype Size = Size(width: real, height: real)

  /** Pixel size of the sample image used by auto-trim. */
  datatype ImageSize = ImageSize(width: nat, height: nat)

  /** The sizing options of the command line (centimetres). */
  datatype SizeOptions = SizeOptions(
    pageWidth: Option<real>, pageHeight: Option<real>,
    coverWidth: Option<real>, coverHeight: Option<real>,
    backWidth: Option<real>, backHeight: Option<real>,
    autoTrim: bool,
    squareSize: real, rectWidth: real, rectHeight: real,
    bleed: real)

  /** The argparse defaults: square 19, rectangle 21 x 14.8, bleed 0.5. */
  const DefaultSquareSize: real := 19.0
  const DefaultRectWidth: real := 21.0
  const DefaultRectHeight: real := 14.8
  const DefaultBleed: real := 0.5

  /** The trim used when nothing is given and auto-trim finds no sample. */
  const DefaultTrim: real := 19.0

  /** An aspect ratio within this distance of 1 counts as square. */
  const SquareTolerance: real := 0.02

  function Abs(x: real): real {
    if x < 0.0 then -x else x
  }

  function Aspect(image: ImageSize): real
    requires image.height > 0
  {
    (image.width as real) / (image.height as real)
  }

  predicate NearSquare(image: ImageSize)
    requires image.height > 0
  {
    Abs(Aspect(image) - 1.0) <= SquareTolerance
  }

  /** The auto-trim choice for a readable sample: the square preset when the
      aspect is near 1, else the rectangle preset, turned upright for a
      portrait image. No sample, or a zero height, keeps the default. */
  function AutoTrimSize(opts: SizeOptions, sample: Option<ImageSize>): Size {
    if sample.Some? && sample.value.height > 0 then
      if NearSquare(sample.value) then Size(opts.squareSize, opts.squareSize)
      else if Aspect(sample.value) >= 1.0 then Size(opts.rectWidth, opts.rectHeight)
      else Size(opts.rectHeight, opts.rectWidth)
    else Size(DefaultTrim, DefaultTrim)
  }

  /** The trim of the book's pages. */
  function BookTrim(opts: SizeOptions, sample: Option<ImageSize>): Size {
    if Given(opts.pageWidth) || Given(opts.pageHeight) then
      if Given(opts.pageWidth) && Given(opts.pageHeight) then Size(opts.pageWidth.value, opts.pageHeight.value)
      else
        var v := if Given(opts.pageWidth) then opts.pageWidth.value else opts.pageHeight.value;
        Size(v, v)
    else if opts.autoTrim then AutoTrimSize(opts, sample)
    else Size(DefaultTrim, DefaultTrim)
  }

  /** The cover's trim: its own width or the book's; its own height, else its
      own width, else the book's height. */
  function CoverTrim(opts: SizeOptions, book: Size): Size {
    var w := if Given(opts.coverWidth) then opts.coverWidth.value else book.width;
    var h := if Given(opts.coverHeight) then opts.coverHeight.value
             else if Given(opts.coverWidth) then opts.coverWidth.value
             else book.height;
    Size(w, h)
  }

  /** The back's trim cascades from the cover's the same way. */
  function BackTrim(opts: SizeOptions, cover: Size): Size {
    var w := if Given(opts.backWidth) then opts.backWidth.value else cover.width;
    var h := if Given(opts.backHeight) then opts.backHeight.value
             else if Given(opts.backWidth) then opts.backWidth.value
             else cover.height;
    Size(w, h)
  }

  /** One document's page size: trim, bleed, final size in cm and in points. */
  datatype PageGeometry = PageGeometry(
    trimWidth: real, trimHeight: real, bleed: real,
    finalWidth: real, finalHeight: real,
    pageWidth: real, pageHeight: real)

  function WithBleed(trim: Size, bleed: real): PageGeometry {
    var fw := trim.width + bleed * 2.0;
    var fh := trim.height + bleed * 2.0;
    PageGeometry(trim.width, trim.height, bleed, fw, fh, CmToPoints(fw), CmToPoints(fh))
  }

  datatype Geometries = Geometries(book: PageGeometry, cover: PageGeometry, back: PageGeometry)

  /** The three page geometries of a run. */
  function Resolve(opts: SizeOptions, sample: Option<ImageSize>): Geometries {
    var book := BookTrim(opts, sample);
    var cover := CoverTrim(opts, book);
    var back := BackTrim(opts, cover);
    Geometries(WithBleed(book, opts.bleed), WithBleed(cover, opts.bleed), WithBleed(back, opts.bleed))
  }

  /** Every geometry is its trim plus the shared bleed on both sides, and its
      point size is the converted final size. */
  predicate Consistent(g: PageGeometry, bleed: real) {
    && g.bleed == bleed
    && g.finalWidth == g.trimWidth + 2.0 * bleed
    && g.finalHeight == g.trimHeight + 2.0 * bleed
    && g.pageWidth * CmPerInch == g.finalWidth * PointsPerInch
    && g.pageHeight * CmPerInch == g.finalHeight * PointsPerInch
  }

  lemma ResolveAddsBleed(opts: SizeOptions, sample: Option<ImageSize>)
    ensures var g := Resolve(opts, sample);
      && Consistent(g.book, opts.bleed) && Consistent(g.cover, opts.bleed) && Consistent(g.back, opts.bleed)
      && g.book.trimWidth == BookTrim(opts, sample).width
      && g.book.trimHeight == BookTrim(opts, sample).height
  {
  }

  /** Explicit sizes win over auto-trim; a single one gives a square page. */
  lemma ExplicitTrim(opts: SizeOptions, sample: Option<ImageSize>)
    ensures Given(opts.pageWidth) && Given(opts.pageHeight) ==>
      BookTrim(opts, sample) == Size(opts.pageWidth.value, opts.pageHeight.value)
    ensures Given(opts.pageWidth) && !Given(opts.pageHeight) ==>
      BookTrim(opts, sample) == Size(opts.pageWidth.value, opts.pageWidth.value)
    ensures !Given(opts.pageWidth) && Given(opts.pageHeight) ==>
      BookTrim(opts, sample) == Size(opts.pageHeight.value, opts.pageHeight.value)
  {
  }

  /** Without explicit sizes: the default trim unless auto-trim has a sample
      with a non-zero height. */
  lemma DefaultTrimWithoutSample(opts: SizeOptions, sample: Option<ImageSize>)
    requires !Given(opts.pageWidth) && !Given(opts.pageHeight)
    requires !opts.autoTrim || sample.None? || sample.value.height == 0
    ensures BookTrim(opts, sample) == Size(DefaultTrim, DefaultTrim)
  {
  }

  /** Auto-trim with a sample: a near-square image gives the square preset;
      otherwise the rectangle preset follows the image's orientation. */
  lemma AutoTrimChoice(opts: SizeOptions, image: ImageSize)
    requires !Given(opts.pageWidth) && !Given(opts.pageHeight) && opts.autoTrim
    requires image.height > 0
    ensures NearSquare(image) ==> BookTrim(opts, Some(image)) == Size(opts.squareSize, opts.squareSize)
    ensures !NearSquare(image) && image.width >= image.height ==>
      BookTrim(opts, Some(image)) == Size(opts.rectWidth, opts.rectHeight)
    ensures !NearSquare(image) && image.width < image.height ==>
      BookTrim(opts, Some(image)) == Size(opts.rectHeight, opts.rectWidth)
  {
    AspectAtLeastOne(image);
  }

  lemma AspectAtLeastOne(image: ImageSize)
    requires image.height > 0
    ensures Aspect(image) >= 1.0 <==> image.width >= image.height
  {
    var w, h := image.width as real, image.height as real;
    assert Aspect(image) * h == w;
    if Aspect(image) >= 1.0 {
      assert Aspect(image) * h >= 1.0 * h;
    } else {
      assert Aspect(image) * h < 1.0 * h;
    }
  }

  /** Turning the sample image on its side turns the auto-trimmed page too,
      whenever neither orientation counts as square. */
  lemma AutoTrimFollowsRotation(opts: SizeOptions, image: ImageSize)
    requires !Given(opts.pageWidth) && !Given(opts.pageHeight) && opts.autoTrim
    requires image.width > 0 && image.height > 0
    requires !NearSquare(image) && !NearSquare(ImageSize(image.height, image.width))
    ensures var t := BookTrim(opts, Some(image));
            var r := BookTrim(opts, Some(ImageSize(image.height, image.width)));
            r == Size(t.height, t.width)
  {
    var rotated := ImageSize(image.height, image.width);
    AutoTrimChoice(opts, image);
    AutoTrimChoice(opts, rotated);
    EqualSidesNearSquare(image);
  }

  lemma EqualSidesNearSquare(image: ImageSize)
    requires image.height > 0
    ensures image.width == image.height ==> NearSquare(image)
  {
  }

  /** With the rectangle preset wider than tall, an auto-trimmed page that is
      not square is landscape exactly when the image is. */
  lemma AutoTrimOrientation(opts: SizeOptions, image: ImageSize)
    requires !Given(opts.pageWidth) && !Given(opts.pageHeight) && opts.autoTrim
    requires image.height > 0 && !NearSquare(image)
    requires opts.rectWidth > opts.rectHeight
    ensures var t := BookTrim(opts, Some(image));
            t.width > t.height <==> image.width >= image.height
  {
    AutoTrimChoice(opts, image);
  }

  /** With no cover or back overrides, the cover and the back have the book's
      page size; a cover width alone gives a square cover. */
  lemma CascadeDefaults(opts: SizeOptions, sample: Option<ImageSize>)
    ensures var g := Resolve(opts, sample);
      !Given(opts.coverWidth) && !Given(opts.coverHeight) ==> g.cover == g.book
    ensures var g := Resolve(opts, sample);
      !Given(opts.backWidth) && !Given(opts.backHeight) ==> g.back == g.cover
    ensures var g := Resolve(opts, sample);
      && (Given(opts.coverWidth) ==> g.cover.trimWidth == opts.coverWidth.value)
      && (!Given(opts.coverWidth) ==> g.cover.trimWidth == g.book.trimWidth)
      && (Given(opts.coverHeight) ==> g.cover.trimHeight == opts.coverHeight.value)
    ensures var g := Resolve(opts, sample);
      Given(opts.coverWidth) && !Given(opts.coverHeight) ==>
        g.cover.trimWidth == g.cover.trimHeight == opts.coverWidth.value
    ensures var g := Resolve(opts, sample);
      && (Given(opts.backWidth) ==> g.back.trimWidth == opts.backWidth.value)
      && (!Given(opts.backWidth) ==> g.back.trimWidth == g.cover.trimWidth)
      && (Given(opts.backHeight) ==> g.back.trimHeight == opts.backHeight.value)
    ensures var g := Resolve(opts, sample);
      Given(opts.backWidth) && !Given(opts.backHeight) ==>
        g.back.trimWidth == g.back.trimHeight == opts.backWidth.value
    ensures var g := Resolve(opts, sample);
      !Given(opts.backHeight) && !Given(opts.backWidth) && !Given(opts.coverWidth) && !Given(opts.coverHeight) ==>
        g.back.trimHeight == g.book.trimHeight
  {
  }

  /** The scenario of an explicit width of 20 cm alone: a 20 x 20 trim and,
      with the default bleed, a 21 x 21 page. */
  lemma WidthOnlyScenario(opts: SizeOptions, sample: Option<ImageSize>)
    requires opts.pageWidth == Some(20.0) && opts.pageHeight == None && opts.bleed == DefaultBleed
    ensures Resolve(opts, sample).book.trimWidth == 20.0 && Resolve(opts, sample).book.trimHeight == 20.0
    ensures Resolve(opts, sample).book.finalWidth == 21.0 && Resolve(opts, sample).book.finalHeight == 21.0
  {
  }

  // ---- the auto-trim sample image ----

  const ImageExtensions: seq<string> := [".tif", ".tiff", ".jpg", ".jpeg", ".png"]

  /** `f.lower().endswith(('.tif', '.tiff', '.jpg', '.jpeg', '.png'))` */
  predicate HasImageExtension(f: string) {
    exists i :: 0 <= i < |ImageExtensions| && Strings.EndsWithSeq(Strings.Lower(f), ImageExtensions[i])
  }

  /** The index of the first listed file with an image extension, or |files|. */
  function FirstImageIndex(files: seq<string>): (k: nat)
    ensures k <= |files|
    ensures k < |files| ==> HasImageExtension(files[k])
    ensures forall j :: 0 <= j < k ==> !HasImageExtension(files[j])
  {
    if files == [] then 0
    else if HasImageExtension(files[0]) then 0
    else 1 + FirstImageIndex(files[1..])
  }

  /** _first_image_for_aspect: cover, else first scene, else back, else the
      first image file of the (sorted) legacy folder listing; a listing that
      could not be read is None. */
  function FirstImageForAspect(cover: Option<string>, scenes: seq<string>, back: Option<string>,
                               legacyFolder: string, listing: Option<seq<string>>): Option<string>
  {
    if cover.Some? then cover
    else if scenes != [] then Some(scenes[0])
    else if back.Some? then back
    else if listing.Some? && FirstImageIndex(listing.value) < |listing.value| then
      Some(Strings.PathJoin(legacyFolder, listing.value[FirstImageIndex(listing.value)]))
    else None
  }

  /** The legacy fallback picks the earliest listed image file, and only
      when there is neither a cover, a scene nor a back image. */
  lemma FirstImageFromListing(legacyFolder: string, files: seq<string>, k: nat)
    requires k < |files| && HasImageExtension(files[k])
    requires forall j :: 0 <= j < k ==> !HasImageExtension(files[j])
    ensures FirstImageForAspect(None, [], None, legacyFolder, Some(files)) == Some(Strings.PathJoin(legacyFolder, files[k]))
  {
  }

  // ---- crop marks ----

  /** draw_crop_marks defaults: marks 0.3 cm in from the page edge, 15 points long. */
  const CropMarkInsetCm: real := 0.3
  const CropMarkLength: real := 15.0

  datatype Segment = Segment(x1: real, y1: real, x2: real, y2: real)

  /** The eight line segments draw_crop_marks draws on a page when crop marks
      are enabled: two at each corner of the rectangle inset by insetCm. */
  function CropMarks(pageWidth: real, pageHeight: real, enabled: bool, insetCm: real, markLength: real): (marks: seq<Segment>)
    ensures !enabled ==> marks == []
    ensures enabled ==> |marks| == 8
  {
    if !enabled then [] else MarksAt(pageWidth, pageHeight, insetCm * CmToPoints(1.0), markLength)
  }

  /** The marks for an inset of t points and a length of l points. */
  function MarksAt(w: real, h: real, t: real, l: real): seq<Segment> {
    [ Segment(t - l, t, t, t), Segment(t, t - l, t, t),
      Segment(t - l, h - t, t, h - t), Segment(t, h - t, t, h - t + l),
      Segment(w - t, t - l, w - t, t), Segment(w - t, t, w - t + l, t),
      Segment(w - t, h - t, w - t + l, h - t), Segment(w - t, h - t, w - t, h - t + l) ]
  }

  predicate IsInsetCorner(x: real, y: real, w: real, h: real, t: real) {
    (x == t || x == w - t) && (y == t || y == h - t)
  }

  /** From the inset corner (cx, cy), the point (fx, fy) lies l further out,
      away from the page centre, along exactly one axis. */
  predicate ReachesOutward(cx: real, cy: real, fx: real, fy: real, w: real, h: real, t: real, l: real) {
    && IsInsetCorner(cx, cy, w, h, t)
    && ((fy == cy && fx == (if cx == t then t - l else w - t + l))
        || (fx == cx && fy == (if cy == t then t - l else h - t + l)))
  }

  predicate MarksCorner(m: Segment, w: real, h: real, t: real, l: real) {
    ReachesOutward(m.x1, m.y1, m.x2, m.y2, w, h, t, l) || ReachesOutward(m.x2, m.y2, m.x1, m.y1, w, h, t, l)
  }

  predicate Horizontal(m: Segment) {
    m.y1 == m.y2
  }

  /** The corners of the inset rectangle, numbered in drawing order:
      bottom-left, top-left, bottom-right, top-right. */
  function CornerX(k: int, w: real, t: real): real {
    if k < 2 then t else w - t
  }

  function CornerY(k: int, h: real, t: real): real {
    if k % 2 == 0 then t else h - t
  }

  /** The mark has one end at the inset corner (cx, cy) and its other end
      l further out along one axis. */
  predicate MarksCornerAt(m: Segment, cx: real, cy: real, w: real, h: real, t: real, l: real) {
    || (m.x1 == cx && m.y1 == cy && ReachesOutward(cx, cy, m.x2, m.y2, w, h, t, l))
    || (m.x2 == cx && m.y2 == cy && ReachesOutward(cx, cy, m.x1, m.y1, w, h, t, l))
  }

  /** Every crop mark starts at a corner of the inset rectangle and runs
      markLength outward, away from the page, along one axis. Marks 2k and
      2k + 1 both sit at corner k, one horizontal and one vertical, and the
      four corners are distinct, so each corner gets exactly one pair. The
      inset depends only on insetCm, never on the page's bleed. */
  lemma CropMarksPointOutward(pageWidth: real, pageHeight: real, insetCm: real, markLength: real)
    requires insetCm * CmToPoints(1.0) * 2.0 < pageWidth && insetCm * CmToPoints(1.0) * 2.0 < pageHeight
    requires markLength > 0.0
    ensures var marks := CropMarks(pageWidth, pageHeight, true, insetCm, markLength);
      forall i :: 0 <= i < |marks| ==>
        MarksCorner(marks[i], pageWidth, pageHeight, insetCm * CmToPoints(1.0), markLength)
    ensures var marks := CropMarks(pageWidth, pageHeight, true, insetCm, markLength);
      forall k :: 0 <= k < 4 ==> Horizontal(marks[2 * k]) != Horizontal(marks[2 * k + 1])
    ensures var marks := CropMarks(pageWidth, pageHeight, true, insetCm, markLength);
      var t := insetCm * CmToPoints(1.0);
      forall k :: 0 <= k < 4 ==>
        && MarksCornerAt(marks[2 * k], CornerX(k, pageWidth, t), CornerY(k, pageHeight, t), pageWidth, pageHeight, t, markLength)
        && MarksCornerAt(marks[2 * k + 1], CornerX(k, pageWidth, t), CornerY(k, pageHeight, t), pageWidth, pageHeight, t, markLength)
    ensures var t := insetCm * CmToPoints(1.0);
      forall j, k :: 0 <= j < k < 4 ==>
        CornerX(j, pageWidth, t) != CornerX(k, pageWidth, t) || CornerY(j, pageHeight, t) != CornerY(k, pageHeight, t)
  {
    var t := insetCm * CmToPoints(1.0);
    assert 2.0 * t < pageWidth && 2.0 * t < pageHeight;
    MarksAtPointOutward(pageWidth, pageHeight, t, markLength);
    MarksAtCorners(pageWidth, pageHeight, t, markLength);
    assert CropMarks(pageWidth, pageHeight, true, insetCm, markLength) == MarksAt(pageWidth, pageHeight, t, markLength);
  }

  lemma MarksAtPointOutward(w: real, h: real, t: real, l: real)
    requires 2.0 * t < w && 2.0 * t < h && l > 0.0
    ensures forall i :: 0 <= i < 8 ==> MarksCorner(MarksAt(w, h, t, l)[i], w, h, t, l)
    ensures forall k :: 0 <= k < 4 ==> Horizontal(MarksAt(w, h, t, l)[2 * k]) != Horizontal(MarksAt(w, h, t, l)[2 * k + 1])
  {
    var marks := MarksAt(w, h, t, l);
    assert t != w - t && t != h - t;
    assert ReachesOutward(t, t, t - l, t, w, h, t, l);
    assert ReachesOutward(t, t, t, t - l, w, h, t, l);
    assert ReachesOutward(t, h - t, t - l, h - t, w, h, t, l);
    assert ReachesOutward(t, h - t, t, h - t + l, w, h, t, l);
    assert ReachesOutward(w - t, t, w - t, t - l, w, h, t, l);
    assert ReachesOutward(w - t, t, w - t + l, t, w, h, t, l);
    assert ReachesOutward(w - t, h - t, w - t + l, h - t, w, h, t, l);
    assert ReachesOutward(w - t, h - t, w - t, h - t + l, w, h, t, l);
  }

  /** Marks 2k and 2k + 1 sit at corner k, and the corners are distinct. */
  lemma MarksAtCorners(w: real, h: real, t: real, l: real)
    requires 2.0 * t < w && 2.0 * t < h && l > 0.0
    ensures forall k :: 0 <= k < 4 ==>
      && MarksCornerAt(MarksAt(w, h, t, l)[2 * k], CornerX(k, w, t), CornerY(k, h, t), w, h, t, l)
      && MarksCornerAt(MarksAt(w, h, t, l)[2 * k + 1], CornerX(k, w, t), CornerY(k, h, t), w, h, t, l)
    ensures forall j, k :: 0 <= j < k < 4 ==> CornerX(j, w, t) != CornerX(k, w, t) || CornerY(j, h, t) != CornerY(k, h, t)
  {
    var marks := MarksAt(w, h, t, l);
    assert t != w - t && t != h - t;
    forall k | 0 <= k < 4
      ensures MarksCornerAt(marks[2 * k], CornerX(k, w, t), CornerY(k, h, t), w, h, t, l)
      ensures MarksCornerAt(marks[2 * k + 1], CornerX(k, w, t), CornerY(k, h, t), w, h, t, l)
    {
      if k == 0 {
        assert ReachesOutward(t, t, t - l, t, w, h, t, l);
        assert ReachesOutward(t, t, t, t - l, w, h, t, l);
      } else if k == 1 {
        assert ReachesOutward(t, h - t, t - l, h - t, w, h, t, l);
        assert ReachesOutward(t, h - t, t, h - t + l, w, h, t, l);
      } else if k == 2 {
        assert ReachesOutward(w - t, t, w - t, t - l, w, h, t, l);
        assert ReachesOutward(w - t, t, w - t + l, t, w, h, t, l);
      } else {
        assert ReachesOutward(w - t, h - t, w - t + l, h - t, w, h, t, l);
        assert ReachesOutward(w - t, h - t, w - t, h - t + l, w, h, t, l);
      }
    }
  }
}
