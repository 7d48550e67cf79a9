/** The page sequencer of the book builder: the order of the pages of the
    main book and of the separate cover and back documents, the page counter
    and the machine-readable progress records, in the flat (markdown and
    TIFF folder) mode and in the JSON mode. A page is recorded by what is
    drawn on it; a text page's lines are laid out by TextFit.FitText at the
    document's page size. */
module Sequencer {
  import opened Wrappers
  import opened Strings
  import opened Inputs
  import Geometry
  import Colour

  /** One drawn page: a full-page image, or a text block on a filled
      background in the given ink. */
  datatype Page =
    | ImagePage(image: string)
    | TextPage(text: string, background: Colour.Rgb, ink: Colour.Rgb)

  /** A written PDF: its path, its page size in points, the crop marks
      drawn on each of its pages, and its pages in order. */
  datatype Document = Document(path: string, width: real, height: real, marks: seq<Geometry.Segment>, pages: seq<Page>)

  /** The machine-readable progress lines: `PDFTOTAL|total`,
      `PDFPAGE|current|total` and `PDFDONE`. */
  datatype Progress = PdfTotal(total: nat) | PdfPage(current: nat, total: nat) | PdfDone

  /** Everything one run writes. */
  datatype Run = Run(book: Document, cover: Option<Document>, back: Option<Document>, progress: seq<Progress>)

  datatype BuildError =
    | MissingInput
    | CountMismatch
    | BadManifest(reason: ManifestError)

  /** One scene: its text and its image file. */
  datatype Scene = Scene(text: string, image: string)

  /** A document of the given geometry, with crop marks when enabled. */
  function MakeDocument(path: string, g: Geometry.PageGeometry, cropMarks: bool, pages: seq<Page>): Document {
    Document(path, g.pageWidth, g.pageHeight,
             Geometry.CropMarks(g.pageWidth, g.pageHeight, cropMarks, Geometry.CropMarkInsetCm, Geometry.CropMarkLength),
             pages)
  }

  /** The document is drawn at the page size of g, with the crop marks of
      that page size when they are enabled. */
  predicate DrawnAt(d: Document, g: Geometry.PageGeometry, cropMarks: bool) {
    && d.width == g.pageWidth && d.height == g.pageHeight
    && d.marks == Geometry.CropMarks(g.pageWidth, g.pageHeight, cropMarks, Geometry.CropMarkInsetCm, Geometry.CropMarkLength)
  }

  /** A document keeps its path and its pages in order and is drawn at its
      geometry; without crop marks it carries none, and with them, on a page
      wider and taller than twice the inset, marks 2k and 2k + 1 are one
      horizontal and one vertical mark at corner k of the inset rectangle,
      each running the mark length outward. */
  lemma MakeDocumentFacts(path: string, g: Geometry.PageGeometry, cropMarks: bool, pages: seq<Page>)
    ensures var d := MakeDocument(path, g, cropMarks, pages);
      d.path == path && d.pages == pages && DrawnAt(d, g, cropMarks)
    ensures !cropMarks ==> MakeDocument(path, g, cropMarks, pages).marks == []
    ensures var marks := MakeDocument(path, g, cropMarks, pages).marks;
      var t := Geometry.CropMarkInsetCm * Geometry.CmToPoints(1.0);
      cropMarks && 2.0 * t < g.pageWidth && 2.0 * t < g.pageHeight ==>
        && |marks| == 8
        && forall k :: 0 <= k < 4 ==>
          && Geometry.Horizontal(marks[2 * k]) != Geometry.Horizontal(marks[2 * k + 1])
          && Geometry.MarksCornerAt(marks[2 * k], Geometry.CornerX(k, g.pageWidth, t), Geometry.CornerY(k, g.pageHeight, t),
                                    g.pageWidth, g.pageHeight, t, Geometry.CropMarkLength)
          && Geometry.MarksCornerAt(marks[2 * k + 1], Geometry.CornerX(k, g.pageWidth, t), Geometry.CornerY(k, g.pageHeight, t),
                                    g.pageWidth, g.pageHeight, t, Geometry.CropMarkLength)
  {
    var t := Geometry.CropMarkInsetCm * Geometry.CmToPoints(1.0);
    if cropMarks && 2.0 * t < g.pageWidth && 2.0 * t < g.pageHeight {
      Geometry.CropMarksPointOutward(g.pageWidth, g.pageHeight, Geometry.CropMarkInsetCm, Geometry.CropMarkLength);
    }
  }

  // ---- the pages of the scenes ----

  /** The text page of a scene: its background is the colour of the scene's
      image, its ink the colour picked for that background. */
  function SceneTextPage(s: Scene, colour: string -> Colour.Rgb): Page {
    TextPage(s.text, colour(s.image), Colour.PickTextColour(colour(s.image)))
  }

  /** The two pages of scene idx (counted from 1): text then image for an
      odd index, image then text for an even one. */
  function ScenePages(idx: nat, s: Scene, colour: string -> Colour.Rgb): seq<Page> {
    if idx % 2 != 0 then [SceneTextPage(s, colour), ImagePage(s.image)]
    else [ImagePage(s.image), SceneTextPage(s, colour)]
  }

  /** The pages of all scenes in order. */
  function AllScenePages(scenes: seq<Scene>, colour: string -> Colour.Rgb): (pages: seq<Page>)
    ensures |pages| == 2 * |scenes|
    decreases |scenes|
  {
    if scenes == [] then []
    else AllScenePages(scenes[..|scenes| - 1], colour) + ScenePages(|scenes|, scenes[|scenes| - 1], colour)
  }

  /** Pages 2i and 2i+1 of the scene pages are the two pages of scene i+1. */
  lemma {:induction false} ScenePagesAt(scenes: seq<Scene>, colour: string -> Colour.Rgb)
    ensures forall i :: 0 <= i < |scenes| ==>
      AllScenePages(scenes, colour)[2 * i] == ScenePages(i + 1, scenes[i], colour)[0]
      && AllScenePages(scenes, colour)[2 * i + 1] == ScenePages(i + 1, scenes[i], colour)[1]
    decreases |scenes|
  {
    if scenes != [] {
      var init := scenes[..|scenes| - 1];
      ScenePagesAt(init, colour);
      var front := AllScenePages(init, colour);
      var last := ScenePages(|scenes|, scenes[|scenes| - 1], colour);
      assert AllScenePages(scenes, colour) == front + last;
      forall i | 0 <= i < |scenes|
        ensures (front + last)[2 * i] == ScenePages(i + 1, scenes[i], colour)[0]
        ensures (front + last)[2 * i + 1] == ScenePages(i + 1, scenes[i], colour)[1]
      {
        if i < |init| {
          assert init[i] == scenes[i];
        }
      }
    }
  }

  /** Scene i+1 shows its text first when i+1 is odd and its image first
      when it is even. */
  lemma SceneOrder(scenes: seq<Scene>, colour: string -> Colour.Rgb)
    ensures forall i :: 0 <= i < |scenes| && (i + 1) % 2 != 0 ==>
      AllScenePages(scenes, colour)[2 * i] == SceneTextPage(scenes[i], colour)
      && AllScenePages(scenes, colour)[2 * i + 1] == ImagePage(scenes[i].image)
    ensures forall i :: 0 <= i < |scenes| && (i + 1) % 2 == 0 ==>
      AllScenePages(scenes, colour)[2 * i] == ImagePage(scenes[i].image)
      && AllScenePages(scenes, colour)[2 * i + 1] == SceneTextPage(scenes[i], colour)
  {
    ScenePagesAt(scenes, colour);
  }

  /** Three scenes come out as text, image, image, text, text, image. */
  lemma ThreeScenes(a: Scene, b: Scene, c: Scene, colour: string -> Colour.Rgb)
    ensures AllScenePages([a, b, c], colour) ==
      [SceneTextPage(a, colour), ImagePage(a.image),
       ImagePage(b.image), SceneTextPage(b, colour),
       SceneTextPage(c, colour), ImagePage(c.image)]
  {
    assert [a, b, c][..2] == [a, b];
    assert [a, b][..1] == [a];
    assert [a][..0] == [];
    assert AllScenePages([a], colour) == ScenePages(1, a, colour);
    assert AllScenePages([a, b], colour) == ScenePages(1, a, colour) + ScenePages(2, b, colour);
    assert AllScenePages([a, b, c], colour) == AllScenePages([a, b], colour) + ScenePages(3, c, colour);
  }

  /** Every text page is legible: its background is a colour of the unit
      cube and its ink is the one picked for that background. */
  predicate Legible(pages: seq<Page>) {
    forall i :: 0 <= i < |pages| && pages[i].TextPage? ==>
      Colour.InUnitCube(pages[i].background) && pages[i].ink == Colour.PickTextColour(pages[i].background)
  }

  lemma LegibleAppend(a: seq<Page>, b: seq<Page>)
    requires Legible(a) && Legible(b)
    ensures Legible(a + b)
  {
    forall i | 0 <= i < |a + b| && (a + b)[i].TextPage?
      ensures Colour.InUnitCube((a + b)[i].background)
      ensures (a + b)[i].ink == Colour.PickTextColour((a + b)[i].background)
    {
      if i < |a| {
        assert (a + b)[i] == a[i];
      } else {
        assert (a + b)[i] == b[i - |a|];
      }
    }
  }

  /** The white pages in black ink are legible. */
  lemma WhitePageLegible(text: string)
    ensures Legible([TextPage(text, Colour.White, Colour.Black)])
  {
    assert Colour.Luminance(Colour.White) > Colour.LightThreshold;
  }

  /** With colours in the unit cube, every scene text page is legible. */
  lemma {:induction false} ScenePagesLegible(scenes: seq<Scene>, colour: string -> Colour.Rgb)
    requires forall p :: Colour.InUnitCube(colour(p))
    ensures Legible(AllScenePages(scenes, colour))
    decreases |scenes|
  {
    if scenes != [] {
      var last := scenes[|scenes| - 1];
      ScenePagesLegible(scenes[..|scenes| - 1], colour);
      assert Colour.InUnitCube(colour(last.image));
      assert Legible(ScenePages(|scenes|, last, colour));
      LegibleAppend(AllScenePages(scenes[..|scenes| - 1], colour), ScenePages(|scenes|, last, colour));
    }
  }

  // ---- the progress records ----

  /** PDFPAGE records for pages 1 to n of a run of total pages. */
  function PageRecords(n: nat, total: nat): (records: seq<Progress>)
    ensures |records| == n && forall k :: 0 <= k < n ==> records[k] == PdfPage(k + 1, total)
  {
    seq(n, (k: int) requires 0 <= k < n => PdfPage(k + 1, total))
  }

  /** The progress of a complete run of total pages: nothing unless the
      records were asked for; else the total, one record per page, and the
      final record. */
  function ProgressLog(total: nat, machineReadable: bool): seq<Progress> {
    if machineReadable then [PdfTotal(total)] + PageRecords(total, total) + [PdfDone] else []
  }

  /** The counters of the PDFPAGE records run from 1 to the total, in
      order, between the total and the final record. */
  lemma ProgressLogFacts(total: nat)
    ensures |ProgressLog(total, true)| == total + 2
    ensures ProgressLog(total, true)[0] == PdfTotal(total)
    ensures forall k :: 1 <= k <= total ==> ProgressLog(total, true)[k] == PdfPage(k, total)
    ensures ProgressLog(total, true)[total + 1] == PdfDone
    ensures ProgressLog(total, false) == []
  {
    var log := ProgressLog(total, true);
    forall k | 1 <= k <= total
      ensures log[k] == PdfPage(k, total)
    {
      assert log[k] == PageRecords(total, total)[k - 1];
    }
  }

  /** The main canvas together with the page counter and the progress
      output: each shown page is appended, the counter moves on by one, and
      a PDFPAGE record with the new counter is printed when records are on. */
  class Writer {
    const total: nat
    const machineReadable: bool
    var pages: seq<Page>
    var counter: nat
    var records: seq<Progress>

    /** The counter is the number of pages shown, and the records are the
        total followed by one per page shown. */
    ghost predicate Valid()
      reads this
    {
      && counter == |pages|
      && records == (if machineReadable then [PdfTotal(total)] + PageRecords(counter, total) else [])
    }

    /** A fresh canvas; the total is printed first when records are on. */
    constructor (total: nat, machineReadable: bool)
      ensures Valid()
      ensures this.total == total && this.machineReadable == machineReadable
      ensures pages == []
    {
      this.total := total;
      this.machineReadable := machineReadable;
      pages := [];
      counter := 0;
      records := if machineReadable then [PdfTotal(total)] else [];
    }

    /** showPage, the counter increment and the PDFPAGE record. */
    method ShowPage(p: Page)
      requires Valid()
      modifies this
      ensures Valid()
      ensures pages == old(pages) + [p]
      ensures counter == old(counter) + 1
    {
      pages := pages + [p];
      counter := counter + 1;
      if machineReadable {
        assert PageRecords(counter, total) == PageRecords(counter - 1, total) + [PdfPage(counter, total)];
        records := records + [PdfPage(counter, total)];
      }
    }

    /** Saving the document and the PDFDONE record. */
    method Finish()
      requires Valid()
      modifies this
      ensures pages == old(pages) && counter == old(counter)
      ensures records == old(records) + (if machineReadable then [PdfDone] else [])
    {
      if machineReadable {
        records := records + [PdfDone];
      }
    }
  }

  /** Once the counter has reached the total, the records printed so far
      and the final record make the whole progress log. */
  lemma CompleteLog(records: seq<Progress>, counter: nat, total: nat, machineReadable: bool)
    requires records == (if machineReadable then [PdfTotal(total)] + PageRecords(counter, total) else [])
    requires counter == total
    ensures records + (if machineReadable then [PdfDone] else []) == ProgressLog(total, machineReadable)
  {
    if !machineReadable {
      assert records + [] == [];
    }
  }

  /** The two pages of one scene, the background colour of its text page
      taken through the colour cache. */
  method EmitScene(w: Writer, idx: nat, s: Scene, cache: Colour.ColourCache)
    requires w.Valid() && cache.Valid() && cache.Extracts()
    modifies w, cache
    ensures w.Valid() && cache.Valid()
    ensures w.pages == old(w.pages) + ScenePages(idx, s, cache.compute)
    ensures forall p :: p in old(cache.entries) ==> p in cache.entries
    ensures s.image in old(cache.entries) ==> cache.decoded == old(cache.decoded)
  {
    if idx % 2 != 0 {
      var bg := cache.Extract(s.image);
      w.ShowPage(TextPage(s.text, bg, Colour.PickTextColour(bg)));
      w.ShowPage(ImagePage(s.image));
    } else {
      w.ShowPage(ImagePage(s.image));
      var bg := cache.Extract(s.image);
      w.ShowPage(TextPage(s.text, bg, Colour.PickTextColour(bg)));
    }
  }

  /** Every scene image is cached. */
  ghost predicate AllCached(scenes: seq<Scene>, entries: map<string, Colour.Rgb>) {
    forall i :: 0 <= i < |scenes| ==> scenes[i].image in entries
  }

  /** The scene loop of either mode: each scene's two pages in the order its
      index asks for. When every scene image is already cached, no image is
      decoded again. */
  method EmitScenes(w: Writer, scenes: seq<Scene>, cache: Colour.ColourCache)
    requires w.Valid() && cache.Valid() && cache.Extracts()
    modifies w, cache
    ensures w.Valid() && cache.Valid()
    ensures w.pages == old(w.pages) + AllScenePages(scenes, cache.compute)
    ensures forall p :: p in old(cache.entries) ==> p in cache.entries
    ensures AllCached(scenes, old(cache.entries)) ==> cache.decoded == old(cache.decoded)
  {
    ghost var cachedBefore := AllCached(scenes, cache.entries);
    var i := 0;
    while i < |scenes|
      invariant 0 <= i <= |scenes|
      invariant w.Valid() && cache.Valid()
      invariant w.pages == old(w.pages) + AllScenePages(scenes[..i], cache.compute)
      invariant forall p :: p in old(cache.entries) ==> p in cache.entries
      invariant cachedBefore ==> cache.decoded == old(cache.decoded)
    {
      assert scenes[..i + 1][..i] == scenes[..i];
      ghost var before := w.pages;
      EmitScene(w, i + 1, scenes[i], cache);
      assert AllScenePages(scenes[..i + 1], cache.compute) == AllScenePages(scenes[..i], cache.compute) + ScenePages(i + 1, scenes[i], cache.compute);
      i := i + 1;
    }
    assert scenes[..i] == scenes;
  }

  // ---- flat mode ----

  /** The fixed output, markdown file and image folder of flat mode. */
  const FlatOutput: string := "output_book_with_crop_marks_and_bg.pdf"
  const LegacyFolder: string := "./cmyk_tiff_images"

  /** The scenes of flat mode: the i-th text page with the i-th TIFF file. */
  function FlatScenes(texts: seq<string>, files: seq<string>): (scenes: seq<Scene>)
    requires |texts| == |files|
    ensures |scenes| == |files|
    ensures forall i :: 0 <= i < |files| ==> scenes[i] == Scene(texts[i], PathJoin(LegacyFolder, files[i]))
  {
    seq(|files|, i requires 0 <= i < |files| => Scene(texts[i], PathJoin(LegacyFolder, files[i])))
  }

  /** What the page size of a run is computed from: the sizing options of
      the command line, the pixel size of an image file (None when it is
      absent or cannot be read), and the sorted listing of the legacy image
      folder (None when it cannot be read). */
  datatype Sizing = Sizing(
    options: Geometry.SizeOptions,
    sizeOf: string -> Option<Geometry.ImageSize>,
    legacyListing: Option<seq<string>>)

  /** The geometries of a run whose cover, scene images and back are the
      given ones: the auto-trim sample is the first image for the aspect. */
  function RunGeometries(cover: Option<string>, images: seq<string>, back: Option<string>,
                         sizing: Sizing): Geometry.Geometries
  {
    var sample := Geometry.FirstImageForAspect(cover, images, back, LegacyFolder, sizing.legacyListing);
    Geometry.Resolve(sizing.options, if sample.Some? then sizing.sizeOf(sample.value) else None)
  }

  /** Flat mode has no cover, scene or back image of JSON mode: the sample is
      the first image file of the legacy folder. */
  function FlatGeometry(sizing: Sizing): Geometry.PageGeometry {
    RunGeometries(None, [], None, sizing).book
  }

  /** Flat mode: the text pages of the markdown content and the TIFF files
      of the folder listing (in natural order) make one book, refused before
      any page is drawn when either is empty or their counts differ. */
  function FlatRun(content: string, listing: seq<string>, sizing: Sizing, cropMarks: bool,
                   machineReadable: bool, colour: string -> Colour.Rgb): Result<Run, BuildError>
  {
    var texts := ReadTextPages(content);
    var files := TiffFiles(listing);
    if files == [] || texts == [] then Err(MissingInput)
    else if |files| != |texts| then Err(CountMismatch)
    else
      var pages := AllScenePages(FlatScenes(texts, files), colour);
      Ok(Run(MakeDocument(FlatOutput, FlatGeometry(sizing), cropMarks, pages), None, None,
             ProgressLog(2 * |files|, machineReadable)))
  }

  /** Flat mode fails exactly on an empty input or a count mismatch; a book
      has two pages per scene at the page size of the legacy sample, and its
      progress counts exactly those pages. */
  lemma FlatRunFacts(content: string, listing: seq<string>, sizing: Sizing, cropMarks: bool,
                     machineReadable: bool, colour: string -> Colour.Rgb)
    ensures var r := FlatRun(content, listing, sizing, cropMarks, machineReadable, colour);
      (r == Err(MissingInput) <==> TiffFiles(listing) == [] || ReadTextPages(content) == [])
      && (r == Err(CountMismatch) <==>
            TiffFiles(listing) != [] && ReadTextPages(content) != [] && |TiffFiles(listing)| != |ReadTextPages(content)|)
    ensures var r := FlatRun(content, listing, sizing, cropMarks, machineReadable, colour);
      r.Ok? ==>
        |r.value.book.pages| == 2 * |TiffFiles(listing)|
        && r.value.progress == ProgressLog(|r.value.book.pages|, machineReadable)
        && r.value.cover.None? && r.value.back.None?
    ensures var r := FlatRun(content, listing, sizing, cropMarks, machineReadable, colour);
      var sample := Geometry.FirstImageForAspect(None, [], None, LegacyFolder, sizing.legacyListing);
      var trim := Geometry.BookTrim(sizing.options, if sample.Some? then sizing.sizeOf(sample.value) else None);
      r.Ok? ==>
        r.value.book.width == Geometry.CmToPoints(trim.width + 2.0 * sizing.options.bleed)
        && r.value.book.height == Geometry.CmToPoints(trim.height + 2.0 * sizing.options.bleed)
        && DrawnAt(r.value.book, FlatGeometry(sizing), cropMarks)
  {
  }

  /** With colours in the unit cube, every text page of a flat book is
      legible. */
  lemma FlatRunLegible(content: string, listing: seq<string>, sizing: Sizing, cropMarks: bool,
                       machineReadable: bool, colour: string -> Colour.Rgb)
    requires forall p :: Colour.InUnitCube(colour(p))
    ensures var r := FlatRun(content, listing, sizing, cropMarks, machineReadable, colour);
      r.Ok? ==> Legible(r.value.book.pages)
  {
    var texts := ReadTextPages(content);
    var files := TiffFiles(listing);
    if files != [] && texts != [] && |files| == |texts| {
      ScenePagesLegible(FlatScenes(texts, files), colour);
    }
  }

  /** Flat mode as the script runs it; every text page is legible. */
  method BuildFlat(content: string, listing: seq<string>, sizing: Sizing, cropMarks: bool,
                   machineReadable: bool, cache: Colour.ColourCache) returns (r: Result<Run, BuildError>)
    requires cache.Valid() && cache.Extracts()
    modifies cache
    ensures cache.Valid()
    ensures r == FlatRun(content, listing, sizing, cropMarks, machineReadable, cache.compute)
    ensures r.Ok? ==> Legible(r.value.book.pages)
  {
    Colour.CacheColoursInCube(cache);
    FlatRunLegible(content, listing, sizing, cropMarks, machineReadable, cache.compute);
    var texts := ReadTextPages(content);
    var files := TiffFiles(listing);
    if files == [] || texts == [] {
      return Err(MissingInput);
    }
    if |files| != |texts| {
      return Err(CountMismatch);
    }
    var scenes := FlatScenes(texts, files);
    var g := FlatGeometry(sizing);
    var run := WriteFlat(scenes, g, cropMarks, machineReadable, cache);
    r := Ok(run);
  }

  /** The drawing half of flat mode: every scene's two pages through one
      writer, into the flat output document. */
  method WriteFlat(scenes: seq<Scene>, g: Geometry.PageGeometry, cropMarks: bool, machineReadable: bool,
                   cache: Colour.ColourCache) returns (run: Run)
    requires cache.Valid() && cache.Extracts()
    modifies cache
    ensures cache.Valid()
    ensures run == Run(MakeDocument(FlatOutput, g, cropMarks, AllScenePages(scenes, cache.compute)), None, None,
                       ProgressLog(2 * |scenes|, machineReadable))
  {
    var total := |scenes| * 2;
    ghost var pages := AllScenePages(scenes, cache.compute);
    assert |pages| == total;
    var w := new Writer(total, machineReadable);
    EmitScenes(w, scenes, cache);
    assert w.pages == pages;
    CompleteLog(w.records, w.counter, w.total, w.machineReadable);
    w.Finish();
    run := Run(MakeDocument(FlatOutput, g, cropMarks, w.pages), None, None, w.records);
  }

  // ---- JSON mode ----

  /** The settings of a JSON-mode run. */
  datatype JsonOptions = JsonOptions(
    imagesDir: string, output: Option<string>, cwd: string,
    splitCover: bool, coverOutput: Option<string>, backOutput: Option<string>,
    cropMarks: bool, machineReadable: bool)

  /** The page count of the main book: the cover when there is one and it
      is not split off, the short description, two pages per scene and the
      closing page. */
  function JsonTotal(hasCover: bool, splitCover: bool, scenes: nat): nat {
    (if hasCover && !splitCover then 1 else 0) + 1 + scenes * 2 + 1
  }

  /** The validated inputs of a JSON-mode run. */
  datatype JsonInputs = JsonInputs(
    cover: Option<string>, back: Option<string>,
    shortDescription: string, motivationEnd: string, scenes: seq<Scene>)

  /** The scenes of the paired texts and images. */
  function Zip(texts: seq<string>, images: seq<string>): (scenes: seq<Scene>)
    ensures |scenes| == if |texts| <= |images| then |texts| else |images|
    ensures forall i :: 0 <= i < |scenes| ==> scenes[i] == Scene(texts[i], images[i])
  {
    var n := if |texts| <= |images| then |texts| else |images|;
    seq(n, i requires 0 <= i < n => Scene(texts[i], images[i]))
  }

  /** Everything a JSON-mode run reads, in the order a failure stops it: the
      manifest's checks, each scene's image, then the texts. */
  function ReadJson(book: Json, dir: string, present: string -> bool): Result<JsonInputs, BuildError>
  {
    match Validate(book)
    case Err(e) => Err(BadManifest(e))
    case Ok(m) =>
      var cover := Lookup(dir, "cover", CoverExtensions, present);
      var back := Lookup(dir, "back", CoverExtensions, present);
      match SceneImages(dir, |m.scenes|, present)
      case Err(e) => Err(BadManifest(e))
      case Ok(images) =>
        match TextField("shortDescription", m.shortDescription)
        case Err(e) => Err(BadManifest(e))
        case Ok(short) =>
          match SceneTexts(m.scenes)
          case Err(e) => Err(BadManifest(e))
          case Ok(texts) =>
            match TextField("motivationEnd", m.motivationEnd)
            case Err(e) => Err(BadManifest(e))
            case Ok(end) =>
              Ok(JsonInputs(cover, back, short, end, Zip(texts, images)))
  }

  /** A JSON-mode run reads its inputs exactly when the manifest passes its
      checks, every scene has an image and every text is a string. */
  lemma ReadJsonAccepts(book: Json, dir: string, present: string -> bool)
    ensures ReadJson(book, dir, present).Ok? <==>
      && Validate(book).Ok?
      && (forall i :: 1 <= i <= |Validate(book).value.scenes| ==> Lookup(dir, SceneStem(i), SceneExtensions, present).Some?)
      && Validate(book).value.shortDescription.JString?
      && (forall i :: 0 <= i < |Validate(book).value.scenes| ==> SceneText(Validate(book).value.scenes[i]).Ok?)
      && Validate(book).value.motivationEnd.JString?
  {
    if Validate(book).Ok? {
      var m := Validate(book).value;
      SceneImagesFacts(dir, |m.scenes|, present);
      ReadAllFacts(SceneText, m.scenes);
    }
  }

  /** Then there is one scene per manifest scene, scene i+1 having its own
      text and the image found for it, and the cover and back are the images
      found for them. */
  lemma ReadJsonContents(book: Json, dir: string, present: string -> bool)
    requires ReadJson(book, dir, present).Ok?
    ensures Validate(book).Ok?
    ensures var m := Validate(book).value;
      var inputs := ReadJson(book, dir, present).value;
      && |inputs.scenes| == |m.scenes|
      && (forall i :: 0 <= i < |m.scenes| ==>
            Ok(inputs.scenes[i].text) == SceneText(m.scenes[i])
            && Some(inputs.scenes[i].image) == Lookup(dir, SceneStem(i + 1), SceneExtensions, present))
      && inputs.cover == Lookup(dir, "cover", CoverExtensions, present)
      && inputs.back == Lookup(dir, "back", CoverExtensions, present)
      && inputs.shortDescription == m.shortDescription.s
      && inputs.motivationEnd == m.motivationEnd.s
  {
    var m := Validate(book).value;
    var images := SceneImages(dir, |m.scenes|, present).value;
    var texts := SceneTexts(m.scenes).value;
    SceneImagesFacts(dir, |m.scenes|, present);
    ReadAllFacts(SceneText, m.scenes);
    assert ReadJson(book, dir, present).value.scenes == Zip(texts, images);
  }

  /** The pages of the main book in JSON mode: the cover, unless it is split
      off, a white page with the short description in black, the scenes, and
      a white closing page in black. */
  function JsonPages(inputs: JsonInputs, splitCover: bool, colour: string -> Colour.Rgb): (pages: seq<Page>) {
    (if inputs.cover.Some? && !splitCover then [ImagePage(inputs.cover.value)] else [])
    + [TextPage(inputs.shortDescription, Colour.White, Colour.Black)]
    + AllScenePages(inputs.scenes, colour)
    + [TextPage(inputs.motivationEnd, Colour.White, Colour.Black)]
  }

  /** The documents of a JSON-mode run from its inputs: the cover document
      when the cover is split off, the back document whenever there is a back
      image, and the main book. */
  function JsonDocuments(inputs: JsonInputs, opts: JsonOptions, geos: Geometry.Geometries,
                         colour: string -> Colour.Rgb): Run
  {
    var output := MainOutput(opts.output, opts.cwd);
    var split := opts.splitCover && inputs.cover.Some?;
    var coverDoc := if split then Some(MakeDocument(DerivedPath(opts.coverOutput, output, "-cover"), geos.cover,
                                                    opts.cropMarks, [ImagePage(inputs.cover.value)]))
                    else None;
    var backDoc := if inputs.back.Some? then Some(MakeDocument(DerivedPath(opts.backOutput, output, "-back"), geos.back,
                                                               opts.cropMarks, [ImagePage(inputs.back.value)]))
                   else None;
    var pages := JsonPages(inputs, opts.splitCover, colour);
    var total := JsonTotal(inputs.cover.Some?, opts.splitCover, |inputs.scenes|);
    Run(MakeDocument(output, geos.book, opts.cropMarks, pages), coverDoc, backDoc, ProgressLog(total, opts.machineReadable))
  }

  /** The geometries of a JSON-mode run: the auto-trim sample is the cover,
      else the first scene image, else the back, else the legacy folder's
      first image. */
  function JsonGeometries(inputs: JsonInputs, sizing: Sizing): Geometry.Geometries {
    RunGeometries(inputs.cover, Images(inputs.scenes), inputs.back, sizing)
  }

  /** JSON mode: the manifest and the files beside it make a book, a
      separate cover document when asked for, and a back document. */
  function JsonRun(book: Json, present: string -> bool, opts: JsonOptions, sizing: Sizing,
                   colour: string -> Colour.Rgb): Result<Run, BuildError>
  {
    match ReadJson(book, opts.imagesDir, present)
    case Err(e) => Err(e)
    case Ok(inputs) => Ok(JsonDocuments(inputs, opts, JsonGeometries(inputs, sizing), colour))
  }

  /** The auto-trim sample of JSON mode is the cover when there is one, and
      otherwise the first scene's image when there is a scene. */
  lemma JsonSample(inputs: JsonInputs, sizing: Sizing)
    ensures inputs.cover.Some? ==>
      JsonGeometries(inputs, sizing) == Geometry.Resolve(sizing.options, sizing.sizeOf(inputs.cover.value))
    ensures inputs.cover.None? && inputs.scenes != [] ==>
      JsonGeometries(inputs, sizing) == Geometry.Resolve(sizing.options, sizing.sizeOf(inputs.scenes[0].image))
  {
  }

  /** The main book has exactly the pages its total announces; it opens with
      the cover exactly when there is a cover that is not split off, and it
      closes with the white closing page. */
  lemma JsonPagesFacts(inputs: JsonInputs, splitCover: bool, colour: string -> Colour.Rgb)
    ensures |JsonPages(inputs, splitCover, colour)| == JsonTotal(inputs.cover.Some?, splitCover, |inputs.scenes|)
    ensures JsonPages(inputs, splitCover, colour)[0].ImagePage? <==> inputs.cover.Some? && !splitCover
    ensures var pages := JsonPages(inputs, splitCover, colour);
      pages[|pages| - 1] == TextPage(inputs.motivationEnd, Colour.White, Colour.Black)
  {
  }

  /** The scene pages of the main book start right after the short
      description, in the order of the scenes. */
  lemma JsonScenePages(inputs: JsonInputs, splitCover: bool, colour: string -> Colour.Rgb)
    ensures var first := if inputs.cover.Some? && !splitCover then 2 else 1;
      JsonPages(inputs, splitCover, colour)[first..first + 2 * |inputs.scenes|] == AllScenePages(inputs.scenes, colour)
  {
    var first := if inputs.cover.Some? && !splitCover then 2 else 1;
    var front := (if inputs.cover.Some? && !splitCover then [ImagePage(inputs.cover.value)] else [])
      + [TextPage(inputs.shortDescription, Colour.White, Colour.Black)];
    var mid := AllScenePages(inputs.scenes, colour);
    assert |front| == first;
    assert JsonPages(inputs, splitCover, colour) == front + mid + [TextPage(inputs.motivationEnd, Colour.White, Colour.Black)];
  }

  /** A back document is written whenever there is a back image, whether or
      not the cover is split off, and it never adds a page to the main book;
      the cover document exists exactly when the cover is split off. Each
      document is drawn at its own geometry (book, cover or back), with crop
      marks on all of them or on none. */
  lemma JsonDocumentsFacts(inputs: JsonInputs, opts: JsonOptions, geos: Geometry.Geometries, colour: string -> Colour.Rgb)
    ensures var run := JsonDocuments(inputs, opts, geos, colour);
      (run.back.Some? <==> inputs.back.Some?)
      && (run.cover.Some? <==> opts.splitCover && inputs.cover.Some?)
      && (run.back.Some? ==> run.back.value.pages == [ImagePage(inputs.back.value)]
                             && DrawnAt(run.back.value, geos.back, opts.cropMarks))
      && (run.cover.Some? ==> run.cover.value.pages == [ImagePage(inputs.cover.value)]
                              && DrawnAt(run.cover.value, geos.cover, opts.cropMarks))
      && run.book.pages == JsonPages(inputs, opts.splitCover, colour)
      && DrawnAt(run.book, geos.book, opts.cropMarks)
      && run.progress == ProgressLog(|run.book.pages|, opts.machineReadable)
  {
    JsonPagesFacts(inputs, opts.splitCover, colour);
    if inputs.cover.Some? && opts.splitCover {
      assert JsonTotal(true, true, |inputs.scenes|) == JsonTotal(true, opts.splitCover && inputs.cover.Some?, |inputs.scenes|);
    }
  }

  /** With colours in the unit cube, every text page of the main book is
      legible: the two white pages and the scenes' text pages. */
  lemma JsonPagesLegible(inputs: JsonInputs, splitCover: bool, colour: string -> Colour.Rgb)
    requires forall p :: Colour.InUnitCube(colour(p))
    ensures Legible(JsonPages(inputs, splitCover, colour))
  {
    var cover: seq<Page> := if inputs.cover.Some? && !splitCover then [ImagePage(inputs.cover.value)] else [];
    var short := [TextPage(inputs.shortDescription, Colour.White, Colour.Black)];
    var scenes := AllScenePages(inputs.scenes, colour);
    var end := [TextPage(inputs.motivationEnd, Colour.White, Colour.Black)];
    WhitePageLegible(inputs.shortDescription);
    WhitePageLegible(inputs.motivationEnd);
    ScenePagesLegible(inputs.scenes, colour);
    LegibleAppend(cover, short);
    LegibleAppend(cover + short, scenes);
    LegibleAppend(cover + short + scenes, end);
    assert JsonPages(inputs, splitCover, colour) == cover + short + scenes + end;
  }

  /** The image files of the scenes, in order. */
  function Images(scenes: seq<Scene>): (images: seq<string>)
    ensures |images| == |scenes| && forall i :: 0 <= i < |scenes| ==> images[i] == scenes[i].image
  {
    seq(|scenes|, i requires 0 <= i < |scenes| => scenes[i].image)
  }

  /** The main book of JSON mode, page by page: the colour cache is filled
      for all scene images after the short description page, so that the
      scene loop decodes nothing more; the images decoded are scene images
      that were not cached before. */
  method EmitJsonBook(inputs: JsonInputs, splitCover: bool, machineReadable: bool, cache: Colour.ColourCache)
    returns (pages: seq<Page>, records: seq<Progress>)
    requires cache.Valid() && cache.Extracts()
    modifies cache
    ensures cache.Valid()
    ensures pages == JsonPages(inputs, splitCover, cache.compute)
    ensures records == ProgressLog(JsonTotal(inputs.cover.Some?, splitCover, |inputs.scenes|), machineReadable)
    ensures AllCached(inputs.scenes, cache.entries)
    ensures forall i :: |old(cache.decoded)| <= i < |cache.decoded| ==>
      cache.decoded[i] !in old(cache.entries) && cache.decoded[i] in Images(inputs.scenes)
  {
    var total := JsonTotal(inputs.cover.Some?, splitCover, |inputs.scenes|);
    var w := new Writer(total, machineReadable);
    if inputs.cover.Some? && !splitCover {
      w.ShowPage(ImagePage(inputs.cover.value));
    }
    w.ShowPage(TextPage(inputs.shortDescription, Colour.White, Colour.Black));
    ghost var head := w.pages;
    assert head == (if inputs.cover.Some? && !splitCover then [ImagePage(inputs.cover.value)] else [])
                   + [TextPage(inputs.shortDescription, Colour.White, Colour.Black)];
    var images := Images(inputs.scenes);
    cache.Prefill(images);
    assert AllCached(inputs.scenes, cache.entries) by {
      forall i | 0 <= i < |inputs.scenes| ensures inputs.scenes[i].image in cache.entries {
        assert images[i] in images;
      }
    }
    ghost var afterPrefill := cache.decoded;
    EmitScenes(w, inputs.scenes, cache);
    assert cache.decoded == afterPrefill;
    ghost var scenePages := AllScenePages(inputs.scenes, cache.compute);
    assert w.pages == head + scenePages;
    w.ShowPage(TextPage(inputs.motivationEnd, Colour.White, Colour.Black));
    assert w.pages == head + scenePages + [TextPage(inputs.motivationEnd, Colour.White, Colour.Black)];
    assert w.pages == JsonPages(inputs, splitCover, cache.compute);
    JsonPagesFacts(inputs, splitCover, cache.compute);
    CompleteLog(w.records, w.counter, w.total, w.machineReadable);
    w.Finish();
    pages, records := w.pages, w.records;
  }

  /** JSON mode as the script runs it: the inputs are read and checked,
      the separate documents are written, then the main book. */
  method BuildJson(book: Json, present: string -> bool, opts: JsonOptions, sizing: Sizing,
                   cache: Colour.ColourCache) returns (r: Result<Run, BuildError>)
    requires cache.Valid() && cache.Extracts()
    modifies cache
    ensures cache.Valid()
    ensures r == JsonRun(book, present, opts, sizing, cache.compute)
    ensures r.Ok? ==> Legible(r.value.book.pages)
    ensures r.Ok? ==> AllCached(ReadJson(book, opts.imagesDir, present).value.scenes, cache.entries)
    ensures r.Ok? ==> forall i :: |old(cache.decoded)| <= i < |cache.decoded| ==>
      cache.decoded[i] !in old(cache.entries) && cache.decoded[i] in Images(ReadJson(book, opts.imagesDir, present).value.scenes)
  {
    var read := ReadJson(book, opts.imagesDir, present);
    if read.Err? {
      return Err(read.error);
    }
    var inputs := read.value;
    Colour.CacheColoursInCube(cache);
    JsonPagesLegible(inputs, opts.splitCover, cache.compute);
    var geos := JsonGeometries(inputs, sizing);
    var output := MainOutput(opts.output, opts.cwd);
    var split := opts.splitCover && inputs.cover.Some?;
    var coverDoc: Option<Document> := None;
    if split {
      coverDoc := Some(MakeDocument(DerivedPath(opts.coverOutput, output, "-cover"), geos.cover,
                                    opts.cropMarks, [ImagePage(inputs.cover.value)]));
    }
    var backDoc: Option<Document> := None;
    if inputs.back.Some? {
      backDoc := Some(MakeDocument(DerivedPath(opts.backOutput, output, "-back"), geos.back,
                                   opts.cropMarks, [ImagePage(inputs.back.value)]));
    }
    var pages, records := EmitJsonBook(inputs, opts.splitCover, opts.machineReadable, cache);
    r := Ok(Run(MakeDocument(output, geos.book, opts.cropMarks, pages), coverDoc, backDoc, records));
  }
}
