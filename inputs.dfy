/** What the book builder reads before it draws anything: the text pages of
    the markdown file, the TIFF files of the legacy image folder, the
    book.json manifest and its checks, the image files found next to it, and
    the paths of the separate cover and back documents. The file system is a
    parameter: `present(path)` says whether a file is present, and file
    contents and directory listings are given as values. */
module Inputs {
  import opened Wrappers
  import opened Strings

  // ---- the markdown text pages ----

  /** The separator between two text pages of the markdown file. */
  const PageSeparator: string := "---"

  /** Each piece stripped. */
  function StripAll(parts: seq<string>): (stripped: seq<string>)
    ensures |stripped| == |parts|
    ensures forall i :: 0 <= i < |parts| ==> stripped[i] == Strip(parts[i])
  {
    seq(|parts|, i requires 0 <= i < |parts| => Strip(parts[i]))
  }

  // ---- keeping the elements that pass a test ----

  /** The elements of xs that keep accepts, in order. */
  function Filter<T>(xs: seq<T>, keep: T -> bool): (r: seq<T>)
    ensures |r| <= |xs|
  {
    if xs == [] then []
    else (if keep(xs[0]) then [xs[0]] else []) + Filter(xs[1..], keep)
  }

  /** An element is kept exactly when it is in the list and passes. */
  lemma {:induction false} FilterMembers<T>(xs: seq<T>, keep: T -> bool)
    ensures forall x :: x in Filter(xs, keep) <==> x in xs && keep(x)
  {
    if xs != [] {
      FilterMembers(xs[1..], keep);
      assert forall x :: x in xs <==> x == xs[0] || x in xs[1..];
    }
  }

  /** Filtering two lists one after the other is filtering each in turn. */
  lemma {:induction false} FilterAppend<T>(a: seq<T>, b: seq<T>, keep: T -> bool)
    ensures Filter(a + b, keep) == Filter(a, keep) + Filter(b, keep)
  {
    if a == [] {
      assert a + b == b;
    } else {
      var ab := a + b;
      assert ab[0] == a[0] && ab[1..] == a[1..] + b;
      FilterAppend(a[1..], b, keep);
      var h := if keep(a[0]) then [a[0]] else [];
      assert Filter(ab, keep) == h + Filter(a[1..] + b, keep);
      assert Filter(a, keep) == h + Filter(a[1..], keep);
    }
  }

  /** One element is kept exactly when it passes. */
  lemma FilterOne<T>(x: T, keep: T -> bool)
    ensures Filter([x], keep) == if keep(x) then [x] else []
  {
    assert [x][1..] == [];
  }

  /** A list whose every element passes is kept whole. */
  lemma {:induction false} FilterAll<T>(xs: seq<T>, keep: T -> bool)
    requires forall i :: 0 <= i < |xs| ==> keep(xs[i])
    ensures Filter(xs, keep) == xs
  {
    if xs != [] {
      FilterAll(xs[1..], keep);
      assert xs == [xs[0]] + xs[1..];
    }
  }

  /** A list none of whose elements passes is dropped entirely. */
  lemma {:induction false} FilterNone<T>(xs: seq<T>, keep: T -> bool)
    requires forall i :: 0 <= i < |xs| ==> !keep(xs[i])
    ensures Filter(xs, keep) == []
  {
    if xs != [] {
      FilterNone(xs[1..], keep);
    }
  }

  /** kept is xs without the elements keep refuses, in order: kept[k] is
      xs[idx[k]] and passes, the positions strictly increase, and every
      element that passes sits at one of them. */
  ghost predicate KeptAt<T>(xs: seq<T>, kept: seq<T>, idx: seq<nat>, keep: T -> bool) {
    && PlacedAt(xs, kept, idx, keep)
    && (forall k :: 0 <= k < |kept| ==> keep(kept[k]))
  }

  /** kept[k] is xs[idx[k]], the positions strictly increase, and every
      element of xs that passes sits at one of them. */
  ghost predicate PlacedAt<T>(xs: seq<T>, kept: seq<T>, idx: seq<nat>, keep: T -> bool) {
    && |idx| == |kept|
    && (forall k :: 0 <= k < |idx| ==> idx[k] < |xs| && kept[k] == xs[idx[k]])
    && (forall j, k :: 0 <= j < k < |idx| ==> idx[j] < idx[k])
    && (forall i :: 0 <= i < |xs| && keep(xs[i]) ==> i in idx)
  }

  /** The elements kept are those that pass, each once, in their order. */
  lemma FilterPositions<T>(xs: seq<T>, keep: T -> bool)
    ensures exists idx :: KeptAt(xs, Filter(xs, keep), idx, keep)
  {
    FilterPlaces(xs, keep);
    var idx :| PlacedAt(xs, Filter(xs, keep), idx, keep);
    FilterMembers(xs, keep);
    var kept := Filter(xs, keep);
    assert forall k :: 0 <= k < |kept| ==> kept[k] in kept;
    assert KeptAt(xs, kept, idx, keep);
  }

  /** The elements kept sit, in order, at increasing positions that take in
      every element that passes; the induction on xs. */
  lemma {:induction false} FilterPlaces<T>(xs: seq<T>, keep: T -> bool)
    ensures exists idx :: PlacedAt(xs, Filter(xs, keep), idx, keep)
  {
    if xs == [] {
      assert Filter(xs, keep) == [];
      assert PlacedAt(xs, [], [], keep);
    } else {
      var rest := xs[1..];
      FilterPlaces(rest, keep);
      var idx' :| PlacedAt(rest, Filter(rest, keep), idx', keep);
      var shifted: seq<nat> := seq(|idx'|, k requires 0 <= k < |idx'| => idx'[k] + 1);
      ShiftedPositions(xs, keep, idx', shifted);
      if keep(xs[0]) {
        KeptFirst(xs, keep, shifted);
      } else {
        SkippedFirst(xs, keep, shifted);
      }
    }
  }

  /** When xs[0] fails, the kept elements are those of the rest. */
  lemma SkippedFirst<T>(xs: seq<T>, keep: T -> bool, shifted: seq<nat>)
    requires xs != [] && !keep(xs[0]) && |shifted| == |Filter(xs[1..], keep)|
    requires forall k :: 0 <= k < |shifted| ==>
      1 <= shifted[k] < |xs| && Filter(xs[1..], keep)[k] == xs[shifted[k]]
    requires forall j, k :: 0 <= j < k < |shifted| ==> shifted[j] < shifted[k]
    requires forall i :: 1 <= i < |xs| && keep(xs[i]) ==> i in shifted
    ensures PlacedAt(xs, Filter(xs, keep), shifted, keep)
  {
    var kept := Filter(xs[1..], keep);
    assert Filter(xs, keep) == [] + kept == kept;
    assert forall i :: 0 <= i < |xs| && keep(xs[i]) ==> i in shifted by {
      forall i | 0 <= i < |xs| && keep(xs[i])
        ensures i in shifted
      {
        assert i != 0;
      }
    }
    assert PlacedAt(xs, kept, shifted, keep);
  }

  /** When xs[0] passes, it is kept at position 0, ahead of the rest. */
  lemma KeptFirst<T>(xs: seq<T>, keep: T -> bool, shifted: seq<nat>)
    requires xs != [] && keep(xs[0]) && |shifted| == |Filter(xs[1..], keep)|
    requires forall k :: 0 <= k < |shifted| ==>
      1 <= shifted[k] < |xs| && Filter(xs[1..], keep)[k] == xs[shifted[k]]
    requires forall j, k :: 0 <= j < k < |shifted| ==> shifted[j] < shifted[k]
    requires forall i :: 1 <= i < |xs| && keep(xs[i]) ==> i in shifted
    ensures PlacedAt(xs, Filter(xs, keep), [0] + shifted, keep)
  {
    var rest := xs[1..];
    var idx := [0] + shifted;
    var kept := [xs[0]] + Filter(rest, keep);
    assert Filter(xs, keep) == kept;
    forall k | 0 <= k < |idx|
      ensures idx[k] < |xs| && kept[k] == xs[idx[k]]
    {
      if k > 0 {
        assert idx[k] == shifted[k - 1] && kept[k] == Filter(rest, keep)[k - 1];
      }
    }
    forall j, k | 0 <= j < k < |idx|
      ensures idx[j] < idx[k]
    {
      assert idx[k] == shifted[k - 1];
      if j > 0 {
        assert idx[j] == shifted[j - 1];
      }
    }
    forall i | 0 <= i < |xs| && keep(xs[i])
      ensures i in idx
    {
      if i > 0 {
        assert i in shifted;
      }
    }
  }

  /** The positions of the elements kept from xs[1..], moved one up, are
      their positions in xs. */
  lemma ShiftedPositions<T>(xs: seq<T>, keep: T -> bool, idx': seq<nat>, shifted: seq<nat>)
    requires xs != [] && PlacedAt(xs[1..], Filter(xs[1..], keep), idx', keep)
    requires |shifted| == |idx'| && forall k :: 0 <= k < |idx'| ==> shifted[k] == idx'[k] + 1
    ensures |shifted| == |Filter(xs[1..], keep)|
    ensures forall k :: 0 <= k < |shifted| ==>
      1 <= shifted[k] < |xs| && Filter(xs[1..], keep)[k] == xs[shifted[k]]
    ensures forall j, k :: 0 <= j < k < |shifted| ==> shifted[j] < shifted[k]
    ensures forall i :: 1 <= i < |xs| && keep(xs[i]) ==> i in shifted
  {
    var rest := xs[1..];
    forall i | 1 <= i < |xs| && keep(xs[i])
      ensures i in shifted
    {
      assert rest[i - 1] == xs[i];
      var k :| 0 <= k < |idx'| && idx'[k] == i - 1;
      assert shifted[k] == i;
    }
  }

  // ---- the markdown text pages (continued) ----

  predicate NonEmpty(s: string) {
    s != []
  }

  /** The non-empty strings, in order. */
  function DropEmpty(ss: seq<string>): (kept: seq<string>)
    ensures |kept| <= |ss|
    ensures forall i :: 0 <= i < |kept| ==> kept[i] != [] && kept[i] in ss
    ensures forall s :: s in kept <==> s in ss && s != []
  {
    var kept := Filter(ss, NonEmpty);
    FilterMembers(ss, NonEmpty);
    assert forall i :: 0 <= i < |kept| ==> kept[i] in kept;
    kept
  }

  /** read_text_pages_from_md on the file's content: the pieces between the
      separators, stripped, the blank ones dropped. */
  function ReadTextPages(content: string): (pages: seq<string>)
    ensures forall i :: 0 <= i < |pages| ==> pages[i] != [] && Trimmed(pages[i])
    ensures forall p :: p in pages <==>
      p != [] && exists piece :: piece in SplitOn(content, PageSeparator) && p == Strip(piece)
  {
    var parts := SplitOn(content, PageSeparator);
    var stripped := StripAll(parts);
    assert forall p :: p in stripped ==> Trimmed(p);
    StrippedPieces(parts);
    DropEmpty(stripped)
  }

  /** The stripped strings are exactly the strips of the pieces. */
  lemma StrippedPieces(parts: seq<string>)
    ensures forall p :: p in StripAll(parts) <==> exists piece :: piece in parts && p == Strip(piece)
  {
    var stripped := StripAll(parts);
    forall p
      ensures p in stripped <==> exists piece :: piece in parts && p == Strip(piece)
    {
      if p in stripped {
        var i :| 0 <= i < |stripped| && stripped[i] == p;
        assert parts[i] in parts;
      }
      if exists piece :: piece in parts && p == Strip(piece) {
        var piece :| piece in parts && p == Strip(piece);
        var i :| 0 <= i < |parts| && parts[i] == piece;
        assert stripped[i] == p;
      }
    }
  }

  /** Dropping the empty strings of two lists one after the other is dropping
      those of each list in turn. */
  lemma DropEmptyAppend(a: seq<string>, b: seq<string>)
    ensures DropEmpty(a + b) == DropEmpty(a) + DropEmpty(b)
  {
    FilterAppend(a, b, NonEmpty);
  }

  /** One string is kept exactly when it is not empty. */
  lemma DropEmptyOne(s: string)
    ensures DropEmpty([s]) == if s == [] then [] else [s]
  {
    FilterOne(s, NonEmpty);
    assert NonEmpty(s) <==> s != [];
  }

  /** The text pages are the non-blank stripped pieces, each once, in the
      order of the file. */
  lemma ReadTextPagesInOrder(content: string)
    ensures exists idx :: KeptAt(StripAll(SplitOn(content, PageSeparator)), ReadTextPages(content), idx, NonEmpty)
  {
    var stripped := StripAll(SplitOn(content, PageSeparator));
    FilterPositions(stripped, NonEmpty);
    var idx :| KeptAt(stripped, Filter(stripped, NonEmpty), idx, NonEmpty);
    assert ReadTextPages(content) == DropEmpty(stripped) == Filter(stripped, NonEmpty);
    assert KeptAt(stripped, ReadTextPages(content), idx, NonEmpty);
  }

  /** Non-empty strings are all kept. */
  lemma DropEmptyKeepsPages(ps: seq<string>)
    requires forall i :: 0 <= i < |ps| ==> ps[i] != []
    ensures DropEmpty(ps) == ps
  {
    FilterAll(ps, NonEmpty);
  }

  /** Empty strings are all dropped. */
  lemma DropEmptyEmpty(ss: seq<string>)
    requires forall i :: 0 <= i < |ss| ==> ss[i] == []
    ensures DropEmpty(ss) == []
  {
    FilterNone(ss, NonEmpty);
  }

  /** Pages written one after another with the separator between them are
      read back as those pages, provided no page contains a '-' of its own
      (which could merge with a separator) and each is trimmed and not blank. */
  lemma ReadBackWrittenPages(ps: seq<string>)
    requires |ps| >= 1
    requires forall i :: 0 <= i < |ps| ==> ps[i] != [] && Trimmed(ps[i])
    requires forall i, j :: 0 <= i < |ps| && 0 <= j < |ps[i]| ==> ps[i][j] != '-'
    ensures ReadTextPages(JoinWith(ps, PageSeparator)) == ps
  {
    JoinThenSplit(ps, PageSeparator);
    assert StripAll(ps) == ps;
    DropEmptyKeepsPages(ps);
  }

  /** A file of blank pieces holds no page at all. */
  lemma BlankPiecesAreDropped(content: string)
    requires forall p :: p in SplitOn(content, PageSeparator) ==> AllSpace(p)
    ensures ReadTextPages(content) == []
  {
    var stripped := StripAll(SplitOn(content, PageSeparator));
    DropEmptyEmpty(stripped);
  }

  // ---- the legacy image folder ----

  /** `f.lower().endswith('.tiff') or f.lower().endswith('.tif')` */
  predicate IsTiff(f: string) {
    EndsWithSeq(Lower(f), ".tiff") || EndsWithSeq(Lower(f), ".tif")
  }

  /** The TIFF files of a folder listing, in listing order. */
  function TiffFiles(listing: seq<string>): (files: seq<string>)
    ensures |files| <= |listing|
    ensures forall f :: f in files <==> f in listing && IsTiff(f)
  {
    FilterMembers(listing, IsTiff);
    Filter(listing, IsTiff)
  }

  /** The TIFF files of two listings one after the other are those of each
      listing in turn. */
  lemma TiffFilesAppend(a: seq<string>, b: seq<string>)
    ensures TiffFiles(a + b) == TiffFiles(a) + TiffFiles(b)
  {
    FilterAppend(a, b, IsTiff);
  }

  /** One file is kept exactly when it is a TIFF file. */
  lemma TiffFilesOne(f: string)
    ensures TiffFiles([f]) == if IsTiff(f) then [f] else []
  {
    FilterOne(f, IsTiff);
  }

  /** The TIFF files are the listing's TIFF files, each once, in listing
      order. */
  lemma TiffFilesInOrder(listing: seq<string>)
    ensures exists idx :: KeptAt(listing, TiffFiles(listing), idx, IsTiff)
  {
    FilterPositions(listing, IsTiff);
    var idx :| KeptAt(listing, Filter(listing, IsTiff), idx, IsTiff);
    assert TiffFiles(listing) == Filter(listing, IsTiff);
    assert KeptAt(listing, TiffFiles(listing), idx, IsTiff);
  }

  // ---- the book.json manifest ----

  /** A parsed JSON document. */
  datatype Json =
    | JNull
    | JBool(b: bool)
    | JNumber(n: real)
    | JString(s: string)
    | JArray(items: seq<Json>)
    | JObject(fields: map<string, Json>)

  datatype ManifestError =
    | RootNotObject
    | MissingField(name: string)
    | ScenesNotArray
    | MissingImage(scene: nat)
    | NotText(field: string)

  /** The three fields of a manifest that passed the checks. */
  datatype Manifest = Manifest(shortDescription: Json, motivationEnd: Json, scenes: seq<Json>)

  const RequiredFields: seq<string> := ["shortDescription", "motivationEnd", "scenes"]

  /** The first required field, in the order they are checked, that the
      object lacks, or |RequiredFields| when it has them all. */
  function FirstMissingField(fields: map<string, Json>, i: nat): (k: nat)
    requires i <= |RequiredFields|
    ensures i <= k <= |RequiredFields|
    ensures k < |RequiredFields| ==> RequiredFields[k] !in fields
    ensures forall j :: i <= j < k ==> RequiredFields[j] in fields
    decreases |RequiredFields| - i
  {
    if i == |RequiredFields| then i
    else if RequiredFields[i] !in fields then i
    else FirstMissingField(fields, i + 1)
  }

  /** The checks made on book.json before anything is drawn: the root is an
      object, it has the three fields, and `scenes` is an array. */
  function Validate(book: Json): (r: Result<Manifest, ManifestError>)
  {
    if !book.JObject? then Err(RootNotObject)
    else
      var k := FirstMissingField(book.fields, 0);
      if k < |RequiredFields| then Err(MissingField(RequiredFields[k]))
      else if !book.fields["scenes"].JArray? then Err(ScenesNotArray)
      else Ok(Manifest(book.fields["shortDescription"], book.fields["motivationEnd"], book.fields["scenes"].items))
  }

  /** A manifest is accepted exactly when the root is an object holding the
      three fields and its scenes are an array; a missing field is reported
      by name, the first in the order shortDescription, motivationEnd,
      scenes. */
  lemma ValidateFacts(book: Json)
    ensures Validate(book).Ok? <==>
      book.JObject? && (forall f :: f in RequiredFields ==> f in book.fields) && book.fields["scenes"].JArray?
    ensures Validate(book).Ok? ==> Validate(book).value.scenes == book.fields["scenes"].items
    ensures Validate(book) == Err(MissingField("motivationEnd")) <==>
      book.JObject? && "shortDescription" in book.fields && "motivationEnd" !in book.fields
    ensures !book.JObject? <==> Validate(book) == Err(RootNotObject)
    ensures Validate(book) == Err(MissingField("shortDescription")) <==>
      book.JObject? && "shortDescription" !in book.fields
    ensures Validate(book) == Err(MissingField("scenes")) <==>
      book.JObject? && "shortDescription" in book.fields && "motivationEnd" in book.fields && "scenes" !in book.fields
    ensures Validate(book) == Err(ScenesNotArray) <==>
      book.JObject? && (forall f :: f in RequiredFields ==> f in book.fields) && !book.fields["scenes"].JArray?
    ensures Validate(book).Ok? ==>
      && Validate(book).value.shortDescription == book.fields["shortDescription"]
      && Validate(book).value.motivationEnd == book.fields["motivationEnd"]
  {
    if book.JObject? {
      var k := FirstMissingField(book.fields, 0);
      if k == |RequiredFields| {
        forall f | f in RequiredFields ensures f in book.fields {
          var j :| 0 <= j < |RequiredFields| && RequiredFields[j] == f;
        }
      }
    }
  }

  /** The drawn text of a field that has to be a string; the source fails
      on anything else while drawing. */
  function TextField(name: string, value: Json): (r: Result<string, ManifestError>)
    ensures r.Ok? <==> value.JString?
    ensures r.Ok? ==> r.value == value.s
  {
    if value.JString? then Ok(value.s) else Err(NotText(name))
  }

  /** Drawn for a scene whose text is missing or blank. */
  const EmptySceneText: string := "[Empty scene text]"

  /** `scene.get('sourceText_bg', '').strip() or '[Empty scene text]'` */
  function SceneText(scene: Json): (r: Result<string, ManifestError>)
    ensures r.Ok? ==> r.value != [] && Trimmed(r.value)
    ensures r.Ok? <==> scene.JObject? && ("sourceText_bg" in scene.fields ==> scene.fields["sourceText_bg"].JString?)
  {
    if !scene.JObject? then Err(NotText("scenes"))
    else
      var raw := if "sourceText_bg" in scene.fields then scene.fields["sourceText_bg"] else JString("");
      if !raw.JString? then Err(NotText("sourceText_bg"))
      else if Strip(raw.s) != [] then Ok(Strip(raw.s))
      else Ok(EmptySceneText)
  }

  /** A scene without text, or with only white space, shows the placeholder;
      any other text is shown stripped. */
  lemma SceneTextFacts(fields: map<string, Json>, s: string)
    ensures SceneText(JObject(fields - {"sourceText_bg"})) == Ok(EmptySceneText)
    ensures SceneText(JObject(fields["sourceText_bg" := JString(s)])) ==
      Ok(if AllSpace(s) then EmptySceneText else Strip(s))
  {
    assert Strip("") == [];
  }

  /** read applied to every item in order; the first failure ends the
      reading. */
  function ReadAll(read: Json -> Result<string, ManifestError>, items: seq<Json>): (r: Result<seq<string>, ManifestError>)
    decreases |items|
  {
    if items == [] then Ok([])
    else
      match ReadAll(read, items[..|items| - 1])
      case Err(e) => Err(e)
      case Ok(texts) =>
        match read(items[|items| - 1])
        case Err(e) => Err(e)
        case Ok(t) => Ok(texts + [t])
  }

  /** Reading succeeds exactly when every item can be read, and then gives
      each item's own reading in order. */
  lemma {:induction false} ReadAllFacts(read: Json -> Result<string, ManifestError>, items: seq<Json>)
    ensures ReadAll(read, items).Ok? <==> forall i :: 0 <= i < |items| ==> read(items[i]).Ok?
    ensures ReadAll(read, items).Ok? ==> |ReadAll(read, items).value| == |items|
    ensures ReadAll(read, items).Ok? ==> forall i :: 0 <= i < |items| ==> Ok(ReadAll(read, items).value[i]) == read(items[i])
    decreases |items|
  {
    if items != [] {
      var init := items[..|items| - 1];
      ReadAllFacts(read, init);
      assert forall i :: 0 <= i < |init| ==> init[i] == items[i];
    }
  }

  /** The texts of all scenes, in order. */
  function SceneTexts(scenes: seq<Json>): Result<seq<string>, ManifestError> {
    ReadAll(SceneText, scenes)
  }

  // ---- image files beside the manifest ----

  /** The extensions tried for scene images, in order. */
  const SceneExtensions: seq<string> := ["jpg", "jpeg", "png", "tif", "tiff"]
  /** The extensions tried for the cover and back images, in order. */
  const CoverExtensions: seq<string> := ["tiff", "tif", "jpg", "jpeg", "png"]

  function Candidate(dir: string, stem: string, ext: string): string {
    PathJoin(dir, stem + "." + ext)
  }

  /** The candidate paths `dir/stem.ext`, one per extension, in order. */
  function Candidates(dir: string, stem: string, exts: seq<string>): (paths: seq<string>)
    ensures |paths| == |exts|
    ensures forall k :: 0 <= k < |exts| ==> paths[k] == Candidate(dir, stem, exts[k])
  {
    seq(|exts|, k requires 0 <= k < |exts| => Candidate(dir, stem, exts[k]))
  }

  /** The index of the first path from i on that is present, or |paths|. */
  function FirstPresent(paths: seq<string>, present: string -> bool, i: nat): (k: nat)
    requires i <= |paths|
    ensures i <= k <= |paths|
    ensures k < |paths| ==> present(paths[k])
    ensures forall j :: i <= j < k ==> !present(paths[j])
    decreases |paths| - i
  {
    if i == |paths| then i
    else if present(paths[i]) then i
    else FirstPresent(paths, present, i + 1)
  }

  /** The file `stem.ext` in dir for the first extension that exists. */
  function Lookup(dir: string, stem: string, exts: seq<string>, present: string -> bool): (found: Option<string>)
  {
    var paths := Candidates(dir, stem, exts);
    var k := FirstPresent(paths, present, 0);
    if k < |paths| then Some(paths[k]) else None
  }

  /** A lookup finds a file that exists, with the earliest extension that
      does; it finds nothing exactly when no candidate exists. */
  lemma LookupFacts(dir: string, stem: string, exts: seq<string>, present: string -> bool)
    ensures Lookup(dir, stem, exts, present).None? <==> forall j :: 0 <= j < |exts| ==> !present(Candidate(dir, stem, exts[j]))
    ensures Lookup(dir, stem, exts, present).Some? ==>
      exists k :: 0 <= k < |exts| && Lookup(dir, stem, exts, present).value == Candidate(dir, stem, exts[k])
        && present(Candidate(dir, stem, exts[k]))
        && forall j :: 0 <= j < k ==> !present(Candidate(dir, stem, exts[j]))
  {
    var paths := Candidates(dir, stem, exts);
    var k := FirstPresent(paths, present, 0);
    if k < |paths| {
      assert Lookup(dir, stem, exts, present).value == Candidate(dir, stem, exts[k]);
    }
  }

  /** The search loop over the extensions, stopping at the first file that
      exists. */
  method FindImage(dir: string, stem: string, exts: seq<string>, present: string -> bool) returns (found: Option<string>)
    ensures found == Lookup(dir, stem, exts, present)
  {
    ghost var paths := Candidates(dir, stem, exts);
    found := None;
    var i := 0;
    while i < |exts|
      invariant 0 <= i <= |exts|
      invariant FirstPresent(paths, present, i) == FirstPresent(paths, present, 0)
    {
      var candidate := Candidate(dir, stem, exts[i]);
      assert candidate == paths[i];
      if present(candidate) {
        found := Some(candidate);
        return;
      }
      i := i + 1;
    }
  }

  /** The file name stem of scene idx (counted from 1). */
  function SceneStem(idx: nat): string {
    "scene_" + Decimal(idx)
  }

  /** The results of find(1) .. find(n); the first index with no result
      ends the collection. */
  function Collect(find: nat -> Option<string>, n: nat): (r: Result<seq<string>, ManifestError>)
  {
    if n == 0 then Ok([])
    else
      match Collect(find, n - 1)
      case Err(e) => Err(e)
      case Ok(images) =>
        match find(n)
        case None => Err(MissingImage(n))
        case Some(p) => Ok(images + [p])
  }

  /** Collection succeeds exactly when every index has a result, which is
      then kept in order; otherwise it reports the first index without one. */
  lemma {:induction false} CollectFacts(find: nat -> Option<string>, n: nat)
    ensures Collect(find, n).Ok? <==> forall i :: 1 <= i <= n ==> find(i).Some?
    ensures Collect(find, n).Ok? ==> |Collect(find, n).value| == n
    ensures Collect(find, n).Ok? ==> forall i :: 0 <= i < n ==> Some(Collect(find, n).value[i]) == find(i + 1)
    ensures Collect(find, n).Err? ==>
      Collect(find, n).error.MissingImage? && 1 <= Collect(find, n).error.scene <= n
      && find(Collect(find, n).error.scene).None?
      && forall i :: 1 <= i < Collect(find, n).error.scene ==> find(i).Some?
  {
    if n > 0 {
      CollectFacts(find, n - 1);
      var prev := Collect(find, n - 1);
      if prev.Ok? && find(n).Some? {
        assert Collect(find, n) == Ok(prev.value + [find(n).value]);
      }
    }
  }

  /** Once an index has no result, every longer collection stops there. */
  lemma {:induction false} CollectStops(find: nat -> Option<string>, k: nat, n: nat)
    requires 1 <= k <= n
    requires Collect(find, k) == Err(MissingImage(k))
    ensures Collect(find, n) == Err(MissingImage(k))
    decreases n
  {
    if n > k {
      CollectStops(find, k, n - 1);
    }
  }

  /** Scene idx's image: the first existing `scene_<idx>.<ext>` in dir. */
  function SceneLookup(dir: string, present: string -> bool): nat -> Option<string> {
    (idx: nat) => Lookup(dir, SceneStem(idx), SceneExtensions, present)
  }

  /** The images of scenes 1 to n; the first scene without an image ends
      the run. */
  function SceneImages(dir: string, n: nat, present: string -> bool): Result<seq<string>, ManifestError> {
    Collect(SceneLookup(dir, present), n)
  }

  /** The scene images are found exactly when every scene 1..n has one,
      and are then those images in scene order; otherwise the error names
      the first scene without one. */
  lemma SceneImagesFacts(dir: string, n: nat, present: string -> bool)
    ensures SceneImages(dir, n, present).Ok? <==>
      forall i :: 1 <= i <= n ==> Lookup(dir, SceneStem(i), SceneExtensions, present).Some?
    ensures SceneImages(dir, n, present).Ok? ==>
      var images := SceneImages(dir, n, present).value;
      |images| == n
      && forall i :: 0 <= i < n ==> Some(images[i]) == Lookup(dir, SceneStem(i + 1), SceneExtensions, present)
    ensures SceneImages(dir, n, present).Err? ==>
      var e := SceneImages(dir, n, present).error;
      e.MissingImage? && 1 <= e.scene <= n
      && Lookup(dir, SceneStem(e.scene), SceneExtensions, present).None?
      && forall i :: 1 <= i < e.scene ==> Lookup(dir, SceneStem(i), SceneExtensions, present).Some?
  {
    var find := SceneLookup(dir, present);
    CollectFacts(find, n);
    assert forall i: nat :: find(i) == Lookup(dir, SceneStem(i), SceneExtensions, present);
  }

  /** The loop over the scenes looking up each one's image. */
  method FindSceneImages(dir: string, n: nat, present: string -> bool) returns (r: Result<seq<string>, ManifestError>)
    ensures r == SceneImages(dir, n, present)
  {
    r := CollectAll(SceneLookup(dir, present), n);
  }

  /** The loop over indices 1 to n, stopping at the first without a result. */
  method CollectAll(find: nat -> Option<string>, n: nat) returns (r: Result<seq<string>, ManifestError>)
    ensures r == Collect(find, n)
  {
    var images: seq<string> := [];
    var idx := 1;
    while idx <= n
      invariant 1 <= idx <= n + 1
      invariant Collect(find, idx - 1) == Ok(images)
    {
      var found := find(idx);
      CollectNext(find, idx, n, images, found);
      if found.None? {
        return Err(MissingImage(idx));
      }
      images := images + [found.value];
      idx := idx + 1;
    }
    r := Ok(images);
  }

  /** One index further: its result extends the collection, or its missing
      result is the error of every longer collection. */
  lemma CollectNext(find: nat -> Option<string>, idx: nat, n: nat, images: seq<string>, found: Option<string>)
    requires 1 <= idx <= n
    requires Collect(find, idx - 1) == Ok(images)
    requires found == find(idx)
    ensures found.None? ==> Collect(find, n) == Err(MissingImage(idx))
    ensures found.Some? ==> Collect(find, idx) == Ok(images + [found.value])
  {
    if found.None? {
      CollectStops(find, idx, n);
    }
  }

  // ---- output paths ----

  /** Python truthiness of an optional string argument. */
  predicate Supplied(o: Option<string>) {
    o.Some? && o.value != []
  }

  /** The index of the last c in s[..n], or -1. */
  function LastBefore(s: string, c: char, n: nat): (k: int)
    requires n <= |s|
    ensures -1 <= k < n
    ensures k >= 0 ==> s[k] == c
    ensures forall j :: k < j < n ==> s[j] != c
  {
    if n == 0 then -1
    else if s[n - 1] == c then n - 1
    else LastBefore(s, c, n - 1)
  }

  /** str.rfind for one character: the index of the last c in s, or -1. */
  function LastIndex(s: string, c: char): (k: int)
    ensures -1 <= k < |s|
    ensures k >= 0 ==> s[k] == c
    ensures forall j :: k < j < |s| ==> s[j] != c
  {
    LastBefore(s, c, |s|)
  }

  /** Whether some character of s in [lo, hi) is not a dot. */
  predicate HasNonDot(s: string, lo: int, hi: int)
    requires 0 <= lo && hi <= |s|
  {
    exists j :: lo <= j < hi && s[j] != '.'
  }

  /** p[d] is the last dot of p's last path component, and some character
      before it in that component is not a dot. */
  predicate ExtensionDot(p: string, d: int) {
    && 0 <= d < |p| && p[d] == '.'
    && (forall j :: d < j < |p| ==> p[j] != '.' && p[j] != '/')
    && (exists j :: 0 <= j < d && p[j] != '.' && forall m :: j <= m < d ==> p[m] != '/')
  }

  /** The dot the extension starts at is the last dot, found after the last
      slash with a non-dot between them; no other position qualifies. */
  lemma ExtensionDotAt(p: string)
    ensures var sepIndex, dotIndex := LastIndex(p, '/'), LastIndex(p, '.');
      forall d :: ExtensionDot(p, d) <==>
        d == dotIndex && dotIndex > sepIndex && HasNonDot(p, sepIndex + 1, dotIndex)
  {
    var sepIndex, dotIndex := LastIndex(p, '/'), LastIndex(p, '.');
    forall d | ExtensionDot(p, d)
      ensures d == dotIndex && dotIndex > sepIndex && HasNonDot(p, sepIndex + 1, dotIndex)
    {
      var j :| 0 <= j < d && p[j] != '.' && forall m :: j <= m < d ==> p[m] != '/';
      assert sepIndex < j;
    }
    if dotIndex > sepIndex && HasNonDot(p, sepIndex + 1, dotIndex) {
      var j :| sepIndex + 1 <= j < dotIndex && p[j] != '.';
      assert forall m :: j <= m < dotIndex ==> p[m] != '/';
      assert ExtensionDot(p, dotIndex);
    }
  }

  /** os.path.splitext on POSIX: the extension starts at the last dot of the
      last path component, unless only dots come before it in that component. */
  function SplitExt(p: string): (parts: (string, string))
    ensures parts.0 + parts.1 == p
    ensures parts.1 != [] ==> parts.1[0] == '.' && forall j :: 1 <= j < |parts.1| ==> parts.1[j] != '.' && parts.1[j] != '/'
    ensures parts.1 != [] <==> exists d :: ExtensionDot(p, d)
    ensures parts.1 != [] ==> ExtensionDot(p, |parts.0|)
  {
    var sepIndex := LastIndex(p, '/');
    var dotIndex := LastIndex(p, '.');
    ExtensionDotAt(p);
    if dotIndex > sepIndex && HasNonDot(p, sepIndex + 1, dotIndex) then
      assert p == p[..dotIndex] + p[dotIndex..];
      assert ExtensionDot(p, dotIndex);
      (p[..dotIndex], p[dotIndex..])
    else (p, [])
  }

  /** The default main output in JSON mode: `book-output.pdf` in the working
      directory. */
  function MainOutput(output: Option<string>, cwd: string): string {
    if Supplied(output) then output.value else PathJoin(cwd, "book-output.pdf")
  }

  /** The path of the separate cover or back document: the one given, else
      the main output with the tag added before its extension (`.pdf` when it
      has none). */
  function DerivedPath(given: Option<string>, output: string, tag: string): (path: string)
    ensures Supplied(given) ==> path == given.value
    ensures !Supplied(given) ==> |path| >= |output| + |tag| && path[..|SplitExt(output).0|] == SplitExt(output).0
  {
    if Supplied(given) then given.value
    else
      var parts := SplitExt(output);
      parts.0 + tag + (if parts.1 != [] then parts.1 else ".pdf")
  }

  /** Two derived paths with tags of different lengths differ, and a derived
      path with a non-empty tag differs from the main output: the separate
      cover and back documents never overwrite each other or the book. */
  lemma DerivedPathsDiffer(output: string, tag1: string, tag2: string)
    requires |tag1| != |tag2|
    ensures DerivedPath(None, output, tag1) != DerivedPath(None, output, tag2)
    ensures tag1 != [] ==> DerivedPath(None, output, tag1) != output
  {
  }

  /** The tag goes before the extension. */
  lemma DerivedPathBeforeExtension()
    ensures DerivedPath(None, "out/book.pdf", "-cover") == "out/book-cover.pdf"
    ensures DerivedPath(Some(""), "out/book.pdf", "-back") == "out/book-back.pdf"
  {
    var p := "out/book.pdf";
    assert p[3] == '/' && p[4] == 'b' && p[5] == 'o' && p[6] == 'o' && p[7] == 'k';
    assert p[8] == '.' && p[9] == 'p' && p[10] == 'd' && p[11] == 'f';
    assert LastIndex(p, '/') == 3;
    assert LastIndex(p, '.') == 8;
    assert HasNonDot(p, 4, 8) by { assert p[4] != '.'; }
    assert p[..8] == "out/book" && p[8..] == ".pdf";
    assert SplitExt(p) == ("out/book", ".pdf");
  }

  /** An output without an extension gets `.pdf` after the tag; a dot in a
      directory name is not an extension. */
  lemma DerivedPathWithoutExtension()
    ensures DerivedPath(None, "my.dir/book", "-back") == "my.dir/book-back.pdf"
  {
    var p := "my.dir/book";
    assert p[2] == '.' && p[3] == 'd' && p[4] == 'i' && p[5] == 'r';
    assert p[6] == '/' && p[7] == 'b' && p[8] == 'o' && p[9] == 'o' && p[10] == 'k';
    assert LastIndex(p, '/') == 6;
    assert LastIndex(p, '.') == 2;
    assert SplitExt(p) == (p, "");
  }

  /** A name made of a leading dot and an extension-like tail has no
      extension. */
  lemma DerivedPathLeadingDot()
    ensures DerivedPath(None, ".pdf", "-cover") == ".pdf-cover.pdf"
  {
    var p := ".pdf";
    assert p[0] == '.' && p[1] == 'p' && p[2] == 'd' && p[3] == 'f';
    assert LastIndex(p, '/') == -1;
    assert LastIndex(p, '.') == 0;
    assert SplitExt(p) == (p, "");
  }
}
