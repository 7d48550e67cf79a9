/** The preview rasteriser's arithmetic: which pages of the rendered PDF are
    kept for a page range, the page number and file name each one is saved
    under, the size it is scaled down to, and the save options of the
    chosen format. Rendering and decoding are left to the caller: a page is
    known here by its pixel size. */
module Preview {
  import opened Wrappers
  import opened Strings

  // ---- the page range ----

  /** Python's `max(0, start_page - 1)` / `0`. */
  function StartIndex(startPage: Option<int>): (i: nat)
    ensures startPage.Some? && startPage.value >= 1 ==> i == startPage.value - 1
    ensures startPage.None? || startPage.value <= 1 ==> i == 0
  {
    if startPage.Some? then (if startPage.value - 1 > 0 then startPage.value - 1 else 0) else 0
  }

  /** Python's `min(len(images), end_page)` / `len(images)`; may be negative. */
  function EndIndex(count: nat, endPage: Option<int>): (e: int)
    ensures e <= count
    ensures endPage.None? ==> e == count
    ensures endPage.Some? ==> e == endPage.value || e == count
    ensures endPage.Some? ==> e <= endPage.value
  {
    if endPage.Some? then (if endPage.value < count then endPage.value else count) else count
  }

  /** Where a slice bound lands in a sequence of n items, Python style: a
      negative bound counts from the end, and every bound is clamped to
      [0, n]. */
  function SliceBound(n: nat, b: int): (k: nat)
    ensures k <= n
    ensures 0 <= b <= n ==> k == b
    ensures b > n ==> k == n
    ensures b < 0 ==> k == (if n + b > 0 then n + b else 0)
  {
    if b < 0 then (if n + b > 0 then n + b else 0)
    else if b > n then n
    else b
  }

  /** `items[start:end]` for any integer bounds: in-range bounds cut the
      sequence there, an empty or reversed range gives nothing, a bound past
      the end acts as the length, a negative bound -k acts as |items| - k,
      and one below -|items| acts as 0. Each pair of bound kinds (below
      -|items|, negative, in range, past the end) has its clause. */
  function PySlice<T>(items: seq<T>, start: int, end: int): (r: seq<T>)
    ensures 0 <= start <= end <= |items| ==> r == items[start..end]
    ensures 0 <= end <= start || |items| <= start || end < -|items| ==> r == []
    ensures 0 <= start <= |items| < end ==> r == items[start..]
    ensures -|items| <= end < 0 && 0 <= start <= |items| + end ==> r == items[start..|items| + end]
    ensures -|items| <= start < 0 && |items| <= end ==> r == items[|items| + start..]
    ensures start < -|items| && 0 <= end <= |items| ==> r == items[..end]
    ensures -|items| <= end < 0 && 0 <= start && |items| + end <= start ==> r == []
    ensures start < -|items| && -|items| <= end < 0 ==> r == items[..|items| + end]
    ensures start < -|items| && |items| < end ==> r == items
    ensures -|items| <= start < end < 0 ==> r == items[|items| + start..|items| + end]
    ensures -|items| <= end <= start < 0 ==> r == []
    ensures -|items| <= start < 0 && |items| + start <= end <= |items| ==> r == items[|items| + start..end]
    ensures -|items| <= start < 0 && 0 <= end < |items| + start ==> r == []
  {
    var s, e := SliceBound(|items|, start), SliceBound(|items|, end);
    if s < e then items[s..e] else []
  }

  /** The rendered pages kept for a page range. */
  function SelectPages<T>(images: seq<T>, startPage: Option<int>, endPage: Option<int>): seq<T> {
    PySlice(images, StartIndex(startPage), EndIndex(|images|, endPage))
  }

  /** Pages start to end (1-indexed, inclusive) are kept when they exist;
      without a range every page is kept. */
  lemma SelectPagesInRange<T>(images: seq<T>, startPage: int, endPage: int)
    requires 1 <= startPage <= endPage <= |images|
    ensures SelectPages(images, Some(startPage), Some(endPage)) == images[startPage - 1..endPage]
    ensures SelectPages(images, None, None) == images
  {
  }

  /** A range that starts after the last page, or ends before the first,
      keeps nothing. An end page of -k drops the last k pages, as a negative
      slice bound does. */
  lemma SelectPagesEdges<T>(images: seq<T>, startPage: int, k: int)
    ensures startPage > |images| ==> SelectPages(images, Some(startPage), None) == []
    ensures SelectPages(images, None, Some(0)) == []
    ensures 0 < k < |images| ==> SelectPages(images, None, Some(-k)) == images[..|images| - k]
  {
    if startPage > |images| {
      assert SliceBound(|images|, StartIndex(Some(startPage))) == |images|;
    }
  }

  /** A range whose end falls before its start keeps nothing, whether the
      end page is a page number or counts back from the last page; an end
      page past the last page keeps the rest of the PDF, and an end page of
      -k with the start at or before it keeps pages start..|images| - k. */
  lemma SelectPagesReversed<T>(images: seq<T>, startPage: int, endPage: int)
    requires 1 <= startPage
    ensures 0 <= endPage < startPage ==> SelectPages(images, Some(startPage), Some(endPage)) == []
    ensures -|images| <= endPage < 0 && |images| + endPage < startPage ==>
      SelectPages(images, Some(startPage), Some(endPage)) == []
    ensures startPage <= |images| < endPage ==>
      SelectPages(images, Some(startPage), Some(endPage)) == images[startPage - 1..]
    ensures -|images| <= endPage < 0 && startPage <= |images| + endPage ==>
      SelectPages(images, Some(startPage), Some(endPage)) == images[startPage - 1..|images| + endPage]
  {
  }

  /** Five pages with `--start-page 5 --end-page -2` keep nothing, as
      `images[4:-2]` is empty, and so does `--start-page 4 --end-page 2`. */
  lemma SelectPagesReversedExample(images: seq<int>)
    requires |images| == 5
    ensures SelectPages(images, Some(5), Some(-2)) == []
    ensures SelectPages(images, Some(4), Some(2)) == []
  {
    SelectPagesReversed(images, 5, -2);
    SelectPagesReversed(images, 4, 2);
  }

  /** The page number of the k-th kept page (counted from 0):
      `start_idx + k + 1` when a start page was given (and is not 0), else
      `k + 1`. */
  function PageNumber(startPage: Option<int>, k: nat): nat {
    if startPage.Some? && startPage.value != 0 then StartIndex(startPage) + k + 1 else k + 1
  }

  /** Both branches agree: the k-th kept page is always numbered
      start_idx + k + 1, which is its 1-indexed position in the PDF. */
  lemma PageNumberIsPosition<T>(images: seq<T>, startPage: Option<int>, endPage: Option<int>, k: nat)
    requires k < |SelectPages(images, startPage, endPage)|
    ensures PageNumber(startPage, k) == StartIndex(startPage) + k + 1
    ensures 1 <= PageNumber(startPage, k) <= |images|
    ensures SelectPages(images, startPage, endPage)[k] == images[PageNumber(startPage, k) - 1]
  {
  }

  // ---- file names and save options ----

  datatype Format = JPEG | PNG

  /** The format's name as given on the command line. */
  function FormatName(f: Format): string {
    match f
    case JPEG => "JPEG"
    case PNG => "PNG"
  }

  /** `f'{prefix}_{page_num:04d}.{format.lower()}'` */
  function FileName(prefix: string, pageNumber: nat, f: Format): string {
    prefix + "_" + ZeroPad(pageNumber, 4) + "." + Lower(FormatName(f))
  }

  /** A file name is the prefix, an underscore, the page number in at least
      four digits (exactly four below 10000), a dot and the lower-case
      format; the digits read back as the page number. */
  lemma FileNameFacts(prefix: string, pageNumber: nat, f: Format)
    ensures var name := FileName(prefix, pageNumber, f);
      var digits := ZeroPad(pageNumber, 4);
      && name == prefix + "_" + digits + "." + Lower(FormatName(f))
      && DigitsValue(digits) == pageNumber
      && (pageNumber < 10000 ==> |digits| == 4)
  {
    ZeroPadValue(pageNumber, 4);
    if pageNumber < 10000 {
      DecimalLength(pageNumber, 4);
    }
  }

  function Pow10(d: nat): (p: nat)
    ensures p >= 1
  {
    if d == 0 then 1 else 10 * Pow10(d - 1)
  }

  /** A number below 10^d has at most d decimal digits. */
  lemma {:induction false} DecimalLength(n: nat, d: nat)
    requires 1 <= d && n < Pow10(d)
    ensures |Decimal(n)| <= d
  {
    if n >= 10 {
      assert n / 10 < Pow10(d - 1);
      DecimalLength(n / 10, d - 1);
    }
  }

  /** The JPEG and PNG file names end in `.jpeg` and `.png`. */
  lemma FileNameExtensions(prefix: string, pageNumber: nat)
    ensures EndsWithSeq(FileName(prefix, pageNumber, JPEG), ".jpeg")
    ensures EndsWithSeq(FileName(prefix, pageNumber, PNG), ".png")
  {
    assert Lower("JPEG") == "jpeg";
    assert Lower("PNG") == "png";
  }

  /** The keyword arguments of the save call. */
  datatype SaveOptions = SaveOptions(format: string, quality: Option<int>, optimize: Option<bool>)

  /** JPEG is saved at the given quality and optimised; PNG gets only the
      format. */
  function SaveOptionsFor(f: Format, quality: int): (o: SaveOptions)
    ensures o.format == FormatName(f)
    ensures o.quality.Some? <==> f == JPEG
    ensures o.optimize.Some? <==> f == JPEG
    ensures f == JPEG ==> o.quality == Some(quality) && o.optimize == Some(true)
  {
    if f == JPEG then SaveOptions("JPEG", Some(quality), Some(true))
    else SaveOptions(FormatName(f), None, None)
  }

  // ---- resizing ----

  /** A positive pixel count: rendered pages are never empty. */
  type Dim = n: nat | n > 0 witness 1

  datatype Pixels = Pixels(width: Dim, height: Dim)

  /** Python's int() of a/b for b > 0: the quotient truncated toward zero. */
  function TruncDiv(a: int, b: int): (q: int)
    requires b > 0
    ensures a >= 0 ==> q == a / b
    ensures a < 0 ==> q == -((-a) / b)
  {
    if a >= 0 then a / b else -((-a) / b)
  }

  /** optimize_image's resize decision: an image wider than maxWidth is
      scaled to that width with its height scaled by the same ratio and
      truncated; any other image keeps its size. */
  function Resized(size: Pixels, maxWidth: int): (r: (int, int))
    ensures size.width as int <= maxWidth ==> r == (size.width as int, size.height as int)
    ensures size.width as int > maxWidth ==> r.0 == maxWidth
  {
    if size.width as int > maxWidth then (maxWidth, TruncDiv(size.height * maxWidth, size.width))
    else (size.width as int, size.height as int)
  }

  /** The scaled height is the largest whole height that keeps the aspect
      ratio at most the original one, and it never grows. */
  lemma ResizedKeepsAspect(size: Pixels, maxWidth: int)
    requires 0 <= maxWidth < size.width
    ensures var r := Resized(size, maxWidth);
      && r.0 == maxWidth
      && 0 <= r.1 <= size.height
      && r.1 * size.width <= size.height * maxWidth < (r.1 + 1) * size.width
  {
    var a: nat := size.height * maxWidth;
    MulMonotone(size.height, maxWidth, size.width);
    DivBounds(a, size.width, size.height);
    assert Resized(size, maxWidth).1 == a / size.width;
  }

  /** Pillow refuses to resize to a size that is not positive in both
      dimensions; that happens to a page wider than maxWidth when maxWidth is
      not positive or when the scaled height truncates to 0. */
  predicate Refused(size: Pixels, maxWidth: int) {
    var r := Resized(size, maxWidth);
    r.0 <= 0 || r.1 <= 0
  }

  /** A resize is refused exactly when the page is wider than maxWidth and
      either maxWidth is not positive or height · maxWidth is less than the
      width; a page of 2400 × 1 at a maximum width of 1200 is one. */
  lemma RefusedExactly(size: Pixels, maxWidth: int)
    ensures Refused(size, maxWidth) <==>
      size.width as int > maxWidth && (maxWidth <= 0 || size.height * maxWidth < size.width)
    ensures Refused(Pixels(2400, 1), 1200)
  {
    if size.width as int > maxWidth && maxWidth > 0 {
      ResizedKeepsAspect(size, maxWidth);
    }
    assert Resized(Pixels(2400, 1), 1200).1 == 0;
  }

  lemma MulMonotone(a: nat, b: nat, c: nat)
    requires b <= c
    ensures a * b <= a * c
  {
  }

  /** Integer division brackets the quotient and never exceeds h when
      a <= h * b. */
  lemma DivBounds(a: nat, b: nat, h: nat)
    requires b > 0 && a <= h * b
    ensures 0 <= a / b <= h
    ensures (a / b) * b <= a < (a / b + 1) * b
  {
    var q, r := a / b, a % b;
    assert a == q * b + r && 0 <= r < b;
    assert (q + 1) * b == q * b + b;
  }

  // ---- the whole plan ----

  datatype PreviewOptions = PreviewOptions(
    outputDir: string, maxWidth: int, quality: int, format: Format,
    prefix: string, startPage: Option<int>, endPage: Option<int>)

  /** A run ends before anything is written when the PDF is missing or
      renders no pages; a refused resize ends it at that page, after the
      earlier pages were written. */
  datatype PreviewError =
    | PdfNotFound
    | NoImages
    | ResizeRefused(pageNumber: nat, written: seq<OutputImage>)

  /** One image to write: the PDF page it shows (1-indexed), its path, its
      pixel size and the save options. */
  datatype OutputImage = OutputImage(pageNumber: nat, path: string, width: int, height: int, save: SaveOptions)

  /** The k-th kept page's output. */
  function OutputFor(opts: PreviewOptions, k: nat, size: Pixels): OutputImage {
    var number := PageNumber(opts.startPage, k);
    var r := Resized(size, opts.maxWidth);
    OutputImage(number, PathJoin(opts.outputDir, FileName(opts.prefix, number, opts.format)), r.0, r.1,
                SaveOptionsFor(opts.format, opts.quality))
  }

  /** The outputs of the kept pages, in order. */
  function Outputs(opts: PreviewOptions, kept: seq<Pixels>): (outs: seq<OutputImage>)
    ensures |outs| == |kept| && forall k :: 0 <= k < |kept| ==> outs[k] == OutputFor(opts, k, kept[k])
  {
    seq(|kept|, k requires 0 <= k < |kept| => OutputFor(opts, k, kept[k]))
  }

  /** The position of the first page whose resize is refused, or the number
      of pages when there is none. */
  function FirstRefused(pages: seq<Pixels>, maxWidth: int): (i: nat)
    ensures i <= |pages|
    ensures forall j :: 0 <= j < i ==> !Refused(pages[j], maxWidth)
    ensures i < |pages| ==> Refused(pages[i], maxWidth)
  {
    if pages == [] || Refused(pages[0], maxWidth) then 0
    else 1 + FirstRefused(pages[1..], maxWidth)
  }

  /** pdf_to_images on the sizes of the rendered pages: a missing PDF or an
      empty rendering ends the run before anything is written; a refused
      resize ends it at that page with the earlier outputs written;
      otherwise one output per kept page, in order. */
  function Plan(pdfExists: bool, rendered: seq<Pixels>, opts: PreviewOptions): Result<seq<OutputImage>, PreviewError> {
    if !pdfExists then Err(PdfNotFound)
    else if rendered == [] then Err(NoImages)
    else
      var kept := SelectPages(rendered, opts.startPage, opts.endPage);
      var bad := FirstRefused(kept, opts.maxWidth);
      if bad < |kept| then Err(ResizeRefused(PageNumber(opts.startPage, bad), Outputs(opts, kept)[..bad]))
      else Ok(Outputs(opts, kept))
  }

  /** Each output is the resized page of the PDF it is numbered after, of a
      positive size, saved under its numbered name, and the page numbers
      strictly increase. */
  predicate WellFormed(outs: seq<OutputImage>, rendered: seq<Pixels>, opts: PreviewOptions) {
    && (forall k :: 0 <= k < |outs| ==>
          && 1 <= outs[k].pageNumber <= |rendered|
          && (outs[k].width, outs[k].height) == Resized(rendered[outs[k].pageNumber - 1], opts.maxWidth)
          && outs[k].width > 0 && outs[k].height > 0
          && outs[k].path == PathJoin(opts.outputDir, FileName(opts.prefix, outs[k].pageNumber, opts.format)))
    && (forall j, k :: 0 <= j < k < |outs| ==> outs[j].pageNumber < outs[k].pageNumber)
  }

  /** The run fails before any output exactly on a missing PDF or an empty
      rendering, and at a page exactly when some kept page's resize is
      refused. */
  lemma PlanFacts(pdfExists: bool, rendered: seq<Pixels>, opts: PreviewOptions)
    ensures Plan(pdfExists, rendered, opts) == Err(PdfNotFound) <==> !pdfExists
    ensures Plan(pdfExists, rendered, opts) == Err(NoImages) <==> pdfExists && rendered == []
    ensures var kept := SelectPages(rendered, opts.startPage, opts.endPage);
      (Plan(pdfExists, rendered, opts).Err? && Plan(pdfExists, rendered, opts).error.ResizeRefused?) <==>
        pdfExists && rendered != [] && exists k :: 0 <= k < |kept| && Refused(kept[k], opts.maxWidth)
  {
    if pdfExists && rendered != [] {
      var kept := SelectPages(rendered, opts.startPage, opts.endPage);
      var bad := FirstRefused(kept, opts.maxWidth);
      assert bad < |kept| ==> Refused(kept[bad], opts.maxWidth);
    }
  }

  /** What a run writes: on a refused resize, the outputs of the kept pages
      before the first refused one, which is the page reported; on success,
      one output per kept page. The outputs written are well formed in
      either case. */
  lemma PlanOutputs(pdfExists: bool, rendered: seq<Pixels>, opts: PreviewOptions)
    ensures var kept := SelectPages(rendered, opts.startPage, opts.endPage);
      Plan(pdfExists, rendered, opts).Err? && Plan(pdfExists, rendered, opts).error.ResizeRefused? ==>
        var e := Plan(pdfExists, rendered, opts).error;
        && |e.written| < |kept|
        && Refused(kept[|e.written|], opts.maxWidth)
        && (forall j :: 0 <= j < |e.written| ==> !Refused(kept[j], opts.maxWidth))
        && e.pageNumber == PageNumber(opts.startPage, |e.written|)
        && e.written == Outputs(opts, kept)[..|e.written|]
        && WellFormed(e.written, rendered, opts)
    ensures Plan(pdfExists, rendered, opts).Ok? ==>
      var outs := Plan(pdfExists, rendered, opts).value;
      && |outs| == |SelectPages(rendered, opts.startPage, opts.endPage)|
      && WellFormed(outs, rendered, opts)
  {
    if pdfExists && rendered != [] {
      var kept := SelectPages(rendered, opts.startPage, opts.endPage);
      var bad := FirstRefused(kept, opts.maxWidth);
      var outs := Outputs(opts, kept);
      OutputsWellFormed(rendered, opts, bad);
      if bad < |kept| {
        assert Plan(pdfExists, rendered, opts) == Err(ResizeRefused(PageNumber(opts.startPage, bad), outs[..bad]));
      } else {
        assert outs[..bad] == outs;
        assert Plan(pdfExists, rendered, opts) == Ok(outs);
      }
    }
  }

  /** The outputs of the kept pages before the first refused one are well
      formed. */
  lemma OutputsWellFormed(rendered: seq<Pixels>, opts: PreviewOptions, n: nat)
    requires n <= |SelectPages(rendered, opts.startPage, opts.endPage)|
    requires forall j :: 0 <= j < n ==> !Refused(SelectPages(rendered, opts.startPage, opts.endPage)[j], opts.maxWidth)
    ensures WellFormed(Outputs(opts, SelectPages(rendered, opts.startPage, opts.endPage))[..n], rendered, opts)
  {
    var kept := SelectPages(rendered, opts.startPage, opts.endPage);
    var outs := Outputs(opts, kept)[..n];
    forall k | 0 <= k < n
      ensures 1 <= PageNumber(opts.startPage, k) <= |rendered|
      ensures kept[k] == rendered[PageNumber(opts.startPage, k) - 1]
      ensures PageNumber(opts.startPage, k) == StartIndex(opts.startPage) + k + 1
    {
      PageNumberIsPosition(rendered, opts.startPage, opts.endPage, k);
    }
  }
}
