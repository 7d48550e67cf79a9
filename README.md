# Picture-book PDF builder — a verified model

This project models, in Dafny, the layout engine of the picture-book PDF
builder (`packages/pdf-create/pdf-bleed.py`) and the page arithmetic of its
preview rasteriser (`packages/pdf-create/pdf-to-images.py`), and proves
properties of that model. The model has these modules:

- `Geometry`: trim, cover and back sizes from explicit overrides, auto-trim
  or the 19 × 19 cm default; twice the bleed added to each; centimetres to
  points; the crop-mark segments; the sample image auto-trim looks at.
- `Colour`: the background colour of a scene image (the 50/50 blend of
  per-channel mean and median, brightened when its BT.709 luminance is
  below 0.25); the black/white text-colour rule; the per-path colour cache
  as a class whose methods update a `map`.
- `TextFit`: `wrap_block` as an imperative method proved equal to a
  functional greedy wrap; the 2 pt font-shrinking loop proved equal to a
  recursive `Shrink`; the centred line positions.
- `Inputs`: the markdown text pages, the TIFF filter of the legacy folder,
  the checks of `book.json`, the lookup of `cover.*`, `back.*` and
  `scene_N.*` files, and the derived `-cover` / `-back` output paths.
- `Sequencer`: both page-emission loops. A `Writer` class holds the page
  list, `page_counter` and the `PDFTOTAL` / `PDFPAGE` / `PDFDONE` records.
  It is driven by methods proved equal to closed-form page sequences.
- `Preview`: the page-range clamp and slice, the page numbers, the
  `prefix_NNNN.ext` file names, the resize rule and the save options.
- `Strings` (`str.strip`, `str.split`, `str.join`, `os.path.join`,
  zero-padded decimals) and `Wrappers` (`Option`, `Result`) support the rest.

The file system is a parameter: `present(path)` plays `os.path.exists`. A
directory listing and the markdown file's contents are given as values, and
a parsed `book.json` is a `Json` value. `stringWidth` is an uninterpreted
`measure(text, size)`. Reading and decoding an image is the cache's `decode`
parameter; the cache's `compute` is the whole extraction, the background
colour of the decoded image.
Lengths and colours are `real`.

Where the code's own comments, help texts or messages promise something the
code does not do, the model follows the code. The points where they differ:

- Brightening does not guarantee the "minimum luminance threshold of 0.25"
  that the comment at `pdf-bleed.py:84` names.
  - A black image stays black: its luminance is 0, the factor is 4 and every
    channel stays 0 (`Colour.BrightenKeepsBlack`).
  - A channel clamped to 1.0 can leave the result darker than 0.25
    (`Colour.BrightenCanStayDark`).
- The shrink loop (`pdf-bleed.py:296-304`) tests `font_size < 14` before
  lowering the size, so 14 pt is not a floor: a text that never fits ends at
  12 pt (`TextFit.ShrinksToTwelve`, `TextFit.FittedSizeFacts`).
- The block height (`pdf-bleed.py:300`) takes 0.3 of a line spacing off for
  each blank marker, so a marker counts as 0.7 of a spacing, but drawing
  (`pdf-bleed.py:312-319`) advances a blank marker by only 0.3. The drawn
  block is therefore 0.4 of a spacing per blank marker above centre. It is
  centred exactly when the text has a single paragraph
  (`TextFit.BlockOffCentre`).
- The help text of `--split-back` (`pdf-bleed.py:122`) describes a switch,
  but the option is never read: a back document is written whenever a back
  image exists (`pdf-bleed.py:405`, `Sequencer.JsonDocumentsFacts`).
- Flat mode always writes `output_book_with_crop_marks_and_bg.pdf` and
  ignores `--output`.
- When auto-trim finds no usable sample, the warnings at
  `pdf-bleed.py:242-246` speak of a 17 cm square, but the size used is the
  19 cm default set at `pdf-bleed.py:190-191`
  (`Geometry.DefaultTrimWithoutSample`).
- The help text of `--auto-trim` (`pdf-bleed.py:124`) speaks of a 22 × 15
  rectangle, but the rectangle defaults are 21 × 14.8 (`pdf-bleed.py:126-127`).
- A negative `end_page` acts as a negative Python slice index
  (`Preview.SelectPagesEdges`).
- The page-number formula always equals `start_idx + k + 1`, because a falsy
  `start_page` leaves `start_idx` at 0 (`Preview.PageNumberIsPosition`).

The preview rasteriser can stop partway. A page wider than `max_width`
whose scaled height truncates to 0, or any page when `--max-width` is not
positive, gets a target size that Pillow's `resize` refuses
(`pdf-to-images.py:71-74`). The run then ends at that page, and the earlier
pages are already saved. The model reports this as `ResizeRefused`, with
the page number and the outputs written before it
(`Preview.RefusedExactly`, `Preview.PlanOutputs`).

## Model

| member | source | states |
|---|---|---|
| Strings.Strip | packages/pdf-create/pdf-bleed.py:59 | the result is a slice s[i..j] of the input with only white space before i and after j, and it is trimmed; so it is s with its leading and trailing white space removed, empty exactly when s is all white space, and s itself when s is trimmed |
| Strings.StripIsInfix | packages/pdf-create/pdf-bleed.py:59 | what lstrip then rstrip remove is white space on both sides of the result |
| Strings.SpaceAround | packages/pdf-create/pdf-bleed.py:59 | a prefix of a suffix, with only white space cut off each side, is a slice of the string between white-space ends |
| Strings.SplitOn | packages/pdf-create/pdf-bleed.py:58 | `str.split(sep)`, cut at every occurrence of the separator from the left; its properties are `Strings.SplitThenJoin` and `Strings.JoinThenSplit` |
| Strings.JoinWith | packages/pdf-create/pdf-bleed.py:282 | `sep.join(parts)`; `Strings.SplitThenJoin` and `Strings.WordsOfJoin` relate it to splitting |
| Strings.SplitThenJoin | packages/pdf-create/pdf-bleed.py:58 | joining the pieces of `split(sep)` with `sep` gives back the input |
| Strings.JoinThenSplit | packages/pdf-create/pdf-bleed.py:58 | splitting a join of separator-free pieces gives back the pieces |
| Strings.Words | packages/pdf-create/pdf-bleed.py:279 | `split()` yields non-empty words without white space |
| Strings.WordsOfJoin | packages/pdf-create/pdf-bleed.py:282 | splitting words joined by single spaces gives back the words |
| Strings.WordEndIs | packages/pdf-create/pdf-bleed.py:279 | a word of `split()` ends exactly at the first white space after its start |
| Strings.WordsAcrossSpace | packages/pdf-create/pdf-bleed.py:279 | a white-space character separates words: the words of a + c + b are those of a followed by those of b |
| Strings.Lower | packages/pdf-create/pdf-bleed.py:328 | same length, each character lower-cased |
| Strings.DecimalValue | packages/pdf-create/pdf-to-images.py:158 | the decimal digits of n read back as n |
| Strings.ZeroPadValue | packages/pdf-create/pdf-to-images.py:158 | the padded digits read back as n, are max(width, digit count) long and end with the plain decimal |
| Strings.Decimal | packages/pdf-create/pdf-to-images.py:158 | the decimal digits of n; `Strings.DecimalValue` reads them back as n |
| Strings.ZeroPad | packages/pdf-create/pdf-to-images.py:158 | `f"{n:04d}"`-style padding with zeros; `Strings.ZeroPadValue` states its value and length |
| Strings.PathJoin | packages/pdf-create/pdf-bleed.py:346 | the joined path ends with the name and is longer than a relative name when the directory is non-empty; `Strings.PathJoinPlacesName` states where the directory goes |
| Strings.PathJoinPlacesName | packages/pdf-create/pdf-bleed.py:346 | an absolute name is the whole path; a relative name follows the directory, which is a prefix of the path, with exactly one '/' added when the directory is non-empty and does not end in '/' |
| Geometry.CmToPoints | packages/pdf-create/pdf-bleed.py:29-30 | points · 2.54 = cm · 72 |
| Geometry.CmToPointsIsLinear | packages/pdf-create/pdf-bleed.py:29-30 | the conversion is additive and homogeneous, and maps 0 to 0 |
| Geometry.AutoTrimSize | packages/pdf-create/pdf-bleed.py:219-246 | the auto-trim choice; `Geometry.AutoTrimChoice` and `Geometry.DefaultTrimWithoutSample` state it case by case |
| Geometry.BookTrim | packages/pdf-create/pdf-bleed.py:209-246 | the book trim: overrides, else auto-trim, else 19 × 19; stated by `Geometry.ExplicitTrim`, `Geometry.AutoTrimChoice` and `Geometry.DefaultTrimWithoutSample` |
| Geometry.CoverTrim | packages/pdf-create/pdf-bleed.py:255-256 | the cover trim cascade; stated by `Geometry.CascadeDefaults` |
| Geometry.BackTrim | packages/pdf-create/pdf-bleed.py:263-264 | the back trim cascade from the cover; stated by `Geometry.CascadeDefaults` |
| Geometry.Resolve | packages/pdf-create/pdf-bleed.py:248-268 | the three page geometries of a run; `Geometry.ResolveAddsBleed` and `Geometry.CascadeDefaults` state them |
| Geometry.WithBleed | packages/pdf-create/pdf-bleed.py:248-251 | one geometry: the trim plus twice the bleed in each dimension, in cm and in points; `Geometry.ResolveAddsBleed` states it |
| Geometry.ResolveAddsBleed | packages/pdf-create/pdf-bleed.py:248-268 | book, cover and back: final = trim + 2·bleed in both dimensions and each point size is the converted final size; the book trim is the selected trim |
| Geometry.ExplicitTrim | packages/pdf-create/pdf-bleed.py:209-217 | both overrides are used as given; a single override makes a square of that value |
| Geometry.DefaultTrimWithoutSample | packages/pdf-create/pdf-bleed.py:189-246 | with no override, and auto-trim off or no sample of positive height, the trim stays 19 × 19 |
| Geometry.AutoTrimChoice | packages/pdf-create/pdf-bleed.py:225-239 | a near-square sample takes the square preset; otherwise w ≥ h gives rect_w × rect_h and w < h gives rect_h × rect_w |
| Geometry.AspectAtLeastOne | packages/pdf-create/pdf-bleed.py:226-234 | aspect ≥ 1 exactly when width ≥ height |
| Geometry.EqualSidesNearSquare | packages/pdf-create/pdf-bleed.py:226-228 | a square sample lies within the 0.02 tolerance |
| Geometry.AutoTrimFollowsRotation | packages/pdf-create/pdf-bleed.py:232-239 | rotating a non-square sample swaps the trim's width and height |
| Geometry.AutoTrimOrientation | packages/pdf-create/pdf-bleed.py:232-239 | with rect_w > rect_h, the trim is landscape exactly when the sample is |
| Geometry.CascadeDefaults | packages/pdf-create/pdf-bleed.py:255-264 | an explicit cover width or height is used as given; a missing cover width is the book width; a missing cover height is the cover width when that is given, else the book height; the back follows the same rules from the cover |
| Geometry.WidthOnlyScenario | packages/pdf-create/pdf-bleed.py:209-217 | `--page-width-cm 20` alone gives a 20 × 20 trim and a 21 × 21 page with the default bleed |
| Geometry.FirstImageIndex | packages/pdf-create/pdf-bleed.py:202-204 | the index of the first listed file with an image extension, every earlier file lacking one |
| Geometry.FirstImageForAspect | packages/pdf-create/pdf-bleed.py:193-207 | `_first_image_for_aspect`: cover, else first scene image, else back, else the first listed image file; stated by `Geometry.FirstImageFromListing` and `Sequencer.JsonSample` |
| Geometry.FirstImageFromListing | packages/pdf-create/pdf-bleed.py:193-207 | with no cover, scene or back image, the sample is the first image file of the legacy folder's sorted listing |
| Geometry.CropMarks | packages/pdf-create/pdf-bleed.py:33-52 | no segments when crop marks are off, eight when on |
| Geometry.CropMarksPointOutward | packages/pdf-create/pdf-bleed.py:40-52 | every mark starts at a corner of the rectangle inset by 0.3 cm and reaches outward by the mark length along one axis; marks 2k and 2k + 1 both sit at corner k, one horizontal and one vertical; the four corners are distinct, so each corner gets exactly one such pair |
| Geometry.MarksAtPointOutward | packages/pdf-create/pdf-bleed.py:42-52 | each of the eight segments at a given inset and length starts at an inset corner and reaches outward; the marks of each pair differ in orientation |
| Geometry.MarksAtCorners | packages/pdf-create/pdf-bleed.py:42-52 | marks 2k and 2k + 1 both sit at corner k of the inset rectangle, and the four corners are distinct |
| Geometry.MarksAt | packages/pdf-create/pdf-bleed.py:42-52 | the eight segments themselves; `Geometry.MarksAtPointOutward` and `Geometry.MarksAtCorners` state where they lie |
| Colour.SumOfBytes | packages/pdf-create/pdf-bleed.py:74 | a sum of n bytes lies in 0..255·n |
| Colour.Luminance | packages/pdf-create/pdf-bleed.py:81 | the BT.709 weights 0.2126, 0.7152, 0.0722; `Colour.ScaledLuminance` and `Colour.PickTextColour` use it |
| Colour.Mean | packages/pdf-create/pdf-bleed.py:74 | the mean of bytes lies in 0..255 |
| Colour.Insert | packages/pdf-create/pdf-bleed.py:76 | inserting into a sorted list keeps it sorted and adds exactly that element |
| Colour.SortInts | packages/pdf-create/pdf-bleed.py:76 | the result is sorted and a permutation of the input |
| Colour.Median | packages/pdf-create/pdf-bleed.py:76 | the median lies between two elements of the input; `Colour.MedianSplitsHalves` states that it is a median |
| Colour.InsertCounts | packages/pdf-create/pdf-bleed.py:76 | inserting a value adds one to the count of values at most (at least) m exactly when the value is at most (at least) m |
| Colour.SortCounts | packages/pdf-create/pdf-bleed.py:76 | sorting keeps the number of values at most m and at least m |
| Colour.PrefixAtMost | packages/pdf-create/pdf-bleed.py:76 | when the first k values are at most m, at least k values are |
| Colour.SuffixAtLeast | packages/pdf-create/pdf-bleed.py:76 | when the values from index k on are at least m, at least n − k values are |
| Colour.Middle | packages/pdf-create/pdf-bleed.py:76 | the middle of a sorted list lies between its first and last values |
| Colour.MiddleSplitsHalves | packages/pdf-create/pdf-bleed.py:76 | at least half of a sorted list is at most its middle and at least half is at least it |
| Colour.MedianSplitsHalves | packages/pdf-create/pdf-bleed.py:76 | at least half of the values are at most the median and at least half are at least it |
| Colour.MedianOfBytes | packages/pdf-create/pdf-bleed.py:76 | the median of bytes lies in 0..255 |
| Colour.Reds | packages/pdf-create/pdf-bleed.py:73 | one byte per pixel |
| Colour.Greens | packages/pdf-create/pdf-bleed.py:73 | one byte per pixel |
| Colour.Blues | packages/pdf-create/pdf-bleed.py:73 | one byte per pixel |
| Colour.BlendChannel | packages/pdf-create/pdf-bleed.py:74-79 | the blended channel divided by 255 lies in [0, 1] |
| Colour.Blend | packages/pdf-create/pdf-bleed.py:72-79 | the blended colour lies in the unit cube |
| Colour.ScaleFactor | packages/pdf-create/pdf-bleed.py:88 | below 0.25 the factor is at least 1; for positive luminance, factor · lum = 0.25 |
| Colour.ScaleChannel | packages/pdf-create/pdf-bleed.py:89-91 | the channel is scaled or capped at 1.0, never above 1 and never darker |
| Colour.Brighten | packages/pdf-create/pdf-bleed.py:86-91 | colours at luminance ≥ 0.25 are unchanged; unit-cube colours stay in the cube and no channel decreases |
| Colour.BrightenReachesMinimum | packages/pdf-create/pdf-bleed.py:86-91 | a dark colour of positive luminance reaches luminance 0.25 unless some channel was capped at 1.0 |
| Colour.ScaledOrCapped | packages/pdf-create/pdf-bleed.py:89-91 | scaling channels multiplies the luminance by the factor unless a channel is capped |
| Colour.ScaledLuminance | packages/pdf-create/pdf-bleed.py:82 | luminance is linear in a common channel factor |
| Colour.BrightenKeepsBlack | packages/pdf-create/pdf-bleed.py:88-91 | a colour of luminance 0 is black and stays black |
| Colour.BrightenCanStayDark | packages/pdf-create/pdf-bleed.py:86-91 | (0.3, 0, 0) brightens to (1, 0, 0), whose luminance is still below 0.25 |
| Colour.BackgroundColour | packages/pdf-create/pdf-bleed.py:69-100 | the colour lies in the unit cube; an undecodable image gives the 0.95 grey |
| Colour.PickTextColour | packages/pdf-create/pdf-bleed.py:103-106 | black exactly when the luminance exceeds 0.6, white exactly otherwise |
| Colour.TextColourOfFallbacks | packages/pdf-create/pdf-bleed.py:98-106 | the fallback grey gets black text; a black image gets white text |
| Colour.ColourCache.constructor | packages/pdf-create/pdf-bleed.py:62 | the cache starts empty, with nothing decoded, over the given image reader, its extraction being the background colour of the decoded image |
| Colour.ColourCache.Extract | packages/pdf-create/pdf-bleed.py:64-100 | returns the path's colour, which is the background colour of its decoded image and lies in the unit cube; a cached path returns the stored value and decodes nothing; an uncached one is decoded once and stored |
| Colour.ColourCache.Warm | packages/pdf-create/pdf-bleed.py:450-451 | one task of the pre-extraction pool: caches the path's colour, decoding only when it was not cached |
| Colour.ColourCache.Prefill | packages/pdf-create/pdf-bleed.py:447-456 | every given path ends up cached, earlier entries are kept unchanged, and only uncached given paths are decoded |
| Colour.ExtractTwice | packages/pdf-create/pdf-bleed.py:64-67 | two extractions of one path return the same colour and decode at most once |
| Colour.CacheColoursInCube | packages/pdf-create/pdf-bleed.py:64-100 | every colour the cache can hand out lies in the unit cube |
| TextFit.Rendered | packages/pdf-create/pdf-bleed.py:282 | one rendered line per word group |
| TextFit.GreedyKeepsWords | packages/pdf-create/pdf-bleed.py:281-290 | the lines' words, concatenated, are the paragraph's words in order |
| TextFit.GreedyGroups | packages/pdf-create/pdf-bleed.py:281-290 | every line holds at least one word, and the first line starts with the first word |
| TextFit.GreedyFits | packages/pdf-create/pdf-bleed.py:281-288 | every line of two or more words has width ≤ max_width |
| TextFit.GreedyMaximal | packages/pdf-create/pdf-bleed.py:281-288 | each line extended by the next line's first word would be too wide |
| TextFit.GreedyStep | packages/pdf-create/pdf-bleed.py:281-288 | one word either starts the line, joins the current line if it fits, or closes the line and starts the next |
| TextFit.Greedy | packages/pdf-create/pdf-bleed.py:281-290 | the greedy wrap of a paragraph's words; `TextFit.GreedyKeepsWords`, `TextFit.GreedyFits` and `TextFit.GreedyMaximal` state it |
| TextFit.CandidateLine | packages/pdf-create/pdf-bleed.py:282 | the candidate string is the current words plus the next word, joined by single spaces |
| TextFit.FillStep | packages/pdf-create/pdf-bleed.py:282-288 | the imperative step on strings agrees with the greedy step on word groups in all three branches |
| TextFit.FillAdvance | packages/pdf-create/pdf-bleed.py:281-288 | one loop step keeps the invariant that finished lines plus the greedy wrap of the rest give the paragraph's lines |
| TextFit.FillWord | packages/pdf-create/pdf-bleed.py:281-288 | the loop body consumes one word and keeps that invariant |
| TextFit.FillParagraph | packages/pdf-create/pdf-bleed.py:279-290 | the inner loop returns exactly the greedy lines of the paragraph |
| TextFit.WrapBlock | packages/pdf-create/pdf-bleed.py:276-294 | `wrap_block` returns the marked paragraphs without the final trailing marker |
| TextFit.Wrap | packages/pdf-create/pdf-bleed.py:276-294 | `wrap_block` as a function; `TextFit.WrapFacts` states it |
| TextFit.ParagraphWordsOf | packages/pdf-create/pdf-bleed.py:278-291 | the words of the paragraphs are the words of the lines they are |
| TextFit.ParagraphsKeepWords | packages/pdf-create/pdf-bleed.py:278 | cutting the text at line breaks keeps exactly its words in order |
| TextFit.RenderedGroups | packages/pdf-create/pdf-bleed.py:281-290 | rendered groups are non-blank lines whose words are the groups, and fit and maximality carry over |
| TextFit.ParagraphFacts | packages/pdf-create/pdf-bleed.py:279-290 | a paragraph's lines are non-blank, hold its words in order, fit when they have two or more words, and are maximal |
| TextFit.MarkedFacts | packages/pdf-create/pdf-bleed.py:278-291 | one blank marker per paragraph, ending the list; the words of all paragraphs in order; fit and maximality |
| TextFit.WrapFacts | packages/pdf-create/pdf-bleed.py:276-294 | the blank markers number one fewer than the paragraphs; the words on the lines are exactly the words of the text, in order; multi-word lines fit; lines are maximal |
| TextFit.WrapOneWord | packages/pdf-create/pdf-bleed.py:276-294 | a single word wraps to itself even when it is too wide |
| TextFit.ShrinkFacts | packages/pdf-create/pdf-bleed.py:296-304 | the size drops by multiples of 2, ends fitting or below 14, stays put when the first test passes, and never drops below 12 from 12 or more |
| TextFit.Shrink | packages/pdf-create/pdf-bleed.py:296-304 | the shrinking loop as a recursive function; `TextFit.ShrinkFacts` and `TextFit.ShrinkIsLargest` state it |
| TextFit.ShrinkFromTrials | packages/pdf-create/pdf-bleed.py:296-304 | n failing tries at ≥ 14 followed by an n-th stopping try settle the size at start − 2n |
| TextFit.ShrinkIsLargest | packages/pdf-create/pdf-bleed.py:296-304 | every tried size above the result was ≥ 14 and did not fit |
| TextFit.ShrinkBottomsOut | packages/pdf-create/pdf-bleed.py:301-303 | when nothing fits, an even start of 12 or more ends at 12 |
| TextFit.TooTallStep | packages/pdf-create/pdf-bleed.py:296-304 | a too-tall try at ≥ 14 extends the run of failed tries |
| TextFit.FittedFromTrials | packages/pdf-create/pdf-bleed.py:296-304 | the loop's exit state gives the fitted size |
| TextFit.ShrinksToTwelve | packages/pdf-create/pdf-bleed.py:301-303 | a one-word text on a zero-height page ends at 12 pt |
| TextFit.PlaceLines | packages/pdf-create/pdf-bleed.py:306-319 | the drawing loop places the lines from the centred start y |
| TextFit.Layout | packages/pdf-create/pdf-bleed.py:306-319 | the placements of the drawing loop; `TextFit.LayoutFacts` states them |
| TextFit.StartY | packages/pdf-create/pdf-bleed.py:311 | the first baseline, which centres the reckoned block height vertically; `TextFit.LayoutFacts` and `TextFit.BlockOffCentre` state where the lines then fall |
| TextFit.LayoutFacts | packages/pdf-create/pdf-bleed.py:312-319 | one placement per non-blank line, in order, each horizontally centred, none above the start, strictly descending |
| TextFit.LayoutTexts | packages/pdf-create/pdf-bleed.py:312-319 | placements are the non-blank lines in order |
| TextFit.LayoutCentred | packages/pdf-create/pdf-bleed.py:316-317 | every placed line is centred on its measured width |
| TextFit.LayoutDescends | packages/pdf-create/pdf-bleed.py:312-319 | placed lines start at or below the start y and strictly descend |
| TextFit.BlockOffCentre | packages/pdf-create/pdf-bleed.py:300-319 | bottom minus top margin is 0.4 spacing per blank marker, so the block is centred exactly when there is none |
| TextFit.FitText | packages/pdf-create/pdf-bleed.py:271-319 | returns the fitted size from 26, the wrap at that size and the centred layout |
| TextFit.FitSpec | packages/pdf-create/pdf-bleed.py:271-319 | what `wrap_and_draw_text` computes, as a function; `TextFit.FitText` returns it |
| TextFit.FittedSizeFacts | packages/pdf-create/pdf-bleed.py:296-304 | the final size lies in 12..26, differs from 26 by a multiple of 2, and is 26 whenever the text fits at 26 |
| TextFit.FittedSizeIsLargest | packages/pdf-create/pdf-bleed.py:296-304 | every tried size above the final one was ≥ 14 and too tall |
| TextFit.BlockHeight | packages/pdf-create/pdf-bleed.py:300 | the height the block is reckoned to need: one spacing per line less 0.3 of a spacing per blank marker; `TextFit.BlockOffCentre` relates it to the drawn block |
| TextFit.FittedSize | packages/pdf-create/pdf-bleed.py:296-304 | the size the shrinking loop settles on from a start size; `TextFit.FittedSizeFacts` and `TextFit.FittedSizeIsLargest` state it |
| Inputs.StripAll | packages/pdf-create/pdf-bleed.py:59 | each piece is stripped, in order |
| Inputs.Filter | packages/pdf-create/pdf-bleed.py:59 | the elements that pass, in order; at most as many as the input |
| Inputs.FilterMembers | packages/pdf-create/pdf-bleed.py:59 | an element is kept exactly when it is in the input and passes |
| Inputs.FilterAppend | packages/pdf-create/pdf-bleed.py:59 | filtering a concatenation is concatenating the filtered parts, so order is kept |
| Inputs.FilterOne | packages/pdf-create/pdf-bleed.py:59 | a single element is kept exactly when it passes |
| Inputs.FilterAll | packages/pdf-create/pdf-bleed.py:59 | a list whose every element passes is kept whole |
| Inputs.FilterNone | packages/pdf-create/pdf-bleed.py:59 | a list no element of which passes gives nothing |
| Inputs.FilterPositions | packages/pdf-create/pdf-bleed.py:59 | every kept element passes and sits at one of strictly increasing positions of the input, and every passing element is at one of them: each once, in input order |
| Inputs.FilterPlaces | packages/pdf-create/pdf-bleed.py:59 | the induction behind it: the kept elements sit in order at increasing positions that take in every passing element |
| Inputs.KeptFirst | packages/pdf-create/pdf-bleed.py:59 | a passing first element is kept at position 0, ahead of the rest's positions |
| Inputs.SkippedFirst | packages/pdf-create/pdf-bleed.py:59 | a failing first element leaves the rest's positions |
| Inputs.ShiftedPositions | packages/pdf-create/pdf-bleed.py:59 | the positions kept from the tail, moved up by one, are positions in the whole list |
| Inputs.DropEmpty | packages/pdf-create/pdf-bleed.py:59 | the non-empty pieces are kept and the empty ones dropped: a string is kept exactly when it is a non-empty piece of the input |
| Inputs.DropEmptyAppend | packages/pdf-create/pdf-bleed.py:59 | dropping the empty strings of a concatenation is dropping those of each part in turn |
| Inputs.DropEmptyOne | packages/pdf-create/pdf-bleed.py:59 | one string is kept exactly when it is not empty |
| Inputs.ReadTextPagesInOrder | packages/pdf-create/pdf-bleed.py:55-59 | text page k is the stripped piece at position idx[k], the positions strictly increase, and every non-blank piece is one of them: the pages are the non-blank stripped pieces, each once, in file order |
| Inputs.ReadTextPages | packages/pdf-create/pdf-bleed.py:55-59 | every text page is non-empty and trimmed, and a string is a text page exactly when it is the non-empty strip of a piece between separators |
| Inputs.StrippedPieces | packages/pdf-create/pdf-bleed.py:59 | the stripped pieces are exactly the strips of the pieces |
| Inputs.DropEmptyKeepsPages | packages/pdf-create/pdf-bleed.py:59 | a list of non-empty pages is kept whole |
| Inputs.DropEmptyEmpty | packages/pdf-create/pdf-bleed.py:59 | a list of empty pieces is dropped entirely |
| Inputs.ReadBackWrittenPages | packages/pdf-create/pdf-bleed.py:55-59 | pages joined with `---` read back as the same pages |
| Inputs.BlankPiecesAreDropped | packages/pdf-create/pdf-bleed.py:55-59 | content whose pieces are all white space has no text pages |
| Inputs.TiffFiles | packages/pdf-create/pdf-bleed.py:326-329 | a file is kept exactly when it ends in `.tiff` or `.tif`, case-insensitively |
| Inputs.TiffFilesAppend | packages/pdf-create/pdf-bleed.py:326-329 | the TIFF files of two listings one after the other are those of each in turn |
| Inputs.TiffFilesOne | packages/pdf-create/pdf-bleed.py:326-329 | one file is kept exactly when it is a TIFF file |
| Inputs.TiffFilesInOrder | packages/pdf-create/pdf-bleed.py:326-329 | the TIFF files are the listing's TIFF files, each once, in listing order |
| Inputs.IsTiff | packages/pdf-create/pdf-bleed.py:328 | a name is a TIFF file exactly when its lower-cased form ends in `.tiff` or `.tif`; `Inputs.TiffFiles` and `Inputs.TiffFilesOne` state the filter it drives |
| Inputs.FirstMissingField | packages/pdf-create/pdf-bleed.py:150-153 | finds the first required field the object lacks |
| Inputs.Validate | packages/pdf-create/pdf-bleed.py:143-156 | the checks of `book.json`; `Inputs.ValidateFacts` states them |
| Inputs.ValidateFacts | packages/pdf-create/pdf-bleed.py:143-156 | the manifest is accepted exactly when it is an object with all three fields and an array of scenes, and then carries those fields; each error (`RootNotObject`, the missing `shortDescription`, `motivationEnd` or `scenes`, `ScenesNotArray`) happens exactly when its check is the first to fail |
| Inputs.TextField | packages/pdf-create/pdf-bleed.py:442 | a text is read exactly when it is a string |
| Inputs.SceneText | packages/pdf-create/pdf-bleed.py:461 | a scene's text is non-empty and trimmed |
| Inputs.SceneTextFacts | packages/pdf-create/pdf-bleed.py:461 | a missing or blank `sourceText_bg` gives `[Empty scene text]`, otherwise its stripped value |
| Inputs.ReadAllFacts | packages/pdf-create/pdf-bleed.py:459-461 | all scene texts are read exactly when each one is, in order |
| Inputs.ReadAll | packages/pdf-create/pdf-bleed.py:459-461 | reads every item in order and stops at the first failure; `Inputs.ReadAllFacts` states it |
| Inputs.SceneTexts | packages/pdf-create/pdf-bleed.py:459-461 | the texts of all scenes, in order; `Inputs.ReadAllFacts` and `Inputs.SceneTextFacts` state them |
| Inputs.Candidates | packages/pdf-create/pdf-bleed.py:174-175 | one candidate path per extension, in order |
| Inputs.FirstPresent | packages/pdf-create/pdf-bleed.py:174-178 | the index of the first existing candidate, every earlier one missing |
| Inputs.LookupFacts | packages/pdf-create/pdf-bleed.py:158-178 | no file exactly when no candidate exists; otherwise the first existing candidate in extension order |
| Inputs.Lookup | packages/pdf-create/pdf-bleed.py:158-178 | the first existing `stem.ext` in extension order; `Inputs.LookupFacts` states it |
| Inputs.FindImage | packages/pdf-create/pdf-bleed.py:173-178 | the extension loop returns that lookup |
| Inputs.CollectFacts | packages/pdf-create/pdf-bleed.py:172-182 | the scene images are found exactly when every scene 1..N has one, in scene order; otherwise the error is the first scene without one |
| Inputs.Collect | packages/pdf-create/pdf-bleed.py:172-182 | the images of scenes 1..n in scene order, stopping at the first scene without one; `Inputs.CollectFacts` states them |
| Inputs.SceneImages | packages/pdf-create/pdf-bleed.py:170-182 | the images of scenes 1..N; `Inputs.SceneImagesFacts` states them |
| Inputs.CollectStops | packages/pdf-create/pdf-bleed.py:179-181 | a missing scene image ends the collection with that scene |
| Inputs.SceneImagesFacts | packages/pdf-create/pdf-bleed.py:170-182 | the same, stated with the `scene_N.{jpg,jpeg,png,tif,tiff}` lookup |
| Inputs.FindSceneImages | packages/pdf-create/pdf-bleed.py:170-182 | the scene loop returns those images or that error |
| Inputs.CollectAll | packages/pdf-create/pdf-bleed.py:172-182 | the loop agrees with the recursive collection |
| Inputs.CollectNext | packages/pdf-create/pdf-bleed.py:172-182 | one scene either extends the images or ends the run with its error |
| Inputs.LastBefore | packages/pdf-create/pdf-bleed.py:392 | the last occurrence of a character before a position, or −1 |
| Inputs.LastIndex | packages/pdf-create/pdf-bleed.py:392 | the last occurrence of a character, or −1 |
| Inputs.SplitExt | packages/pdf-create/pdf-bleed.py:392 | root + ext is the path; the extension is non-empty exactly when the last path component has a dot with a non-dot before it in that component, and then it starts at that component's last dot |
| Inputs.ExtensionDotAt | packages/pdf-create/pdf-bleed.py:392 | the only position that qualifies as the extension's dot is the last dot, when it follows the last slash with a non-dot between them |
| Inputs.MainOutput | packages/pdf-create/pdf-bleed.py:183 | `--output`, else `book-output.pdf` in the working directory |
| Inputs.DerivedPath | packages/pdf-create/pdf-bleed.py:390-393 | an explicit non-empty path is used as given; a derived one starts with the output's root and is at least as long as the output plus the tag |
| Inputs.DerivedPathsDiffer | packages/pdf-create/pdf-bleed.py:390-409 | derived paths with tags of different lengths differ, and one with a non-empty tag differs from the main output, so `-cover` and `-back` documents never overwrite each other or the book |
| Inputs.DerivedPathBeforeExtension | packages/pdf-create/pdf-bleed.py:392-393 | `out/book.pdf` gives `out/book-cover.pdf` and `out/book-back.pdf` |
| Inputs.DerivedPathWithoutExtension | packages/pdf-create/pdf-bleed.py:408-409 | a path without an extension gets `.pdf`, even with a dot in a directory name |
| Inputs.DerivedPathLeadingDot | packages/pdf-create/pdf-bleed.py:392-393 | a leading-dot name has no extension |
| Sequencer.AllScenePages | packages/pdf-create/pdf-bleed.py:345-378 | two pages per scene |
| Sequencer.ScenePages | packages/pdf-create/pdf-bleed.py:346-378 | the two pages of one scene in parity order; `Sequencer.SceneOrder` states them |
| Sequencer.ScenePagesAt | packages/pdf-create/pdf-bleed.py:345-378 | pages 2i and 2i+1 are the two pages of scene i+1 |
| Sequencer.SceneOrder | packages/pdf-create/pdf-bleed.py:347-378 | odd scenes go text then image, even scenes image then text |
| Sequencer.ThreeScenes | packages/pdf-create/pdf-bleed.py:345-378 | three scenes give text, image, image, text, text, image |
| Sequencer.LegibleAppend | packages/pdf-create/pdf-bleed.py:345-378 | two lists of legible pages make a legible list |
| Sequencer.WhitePageLegible | packages/pdf-create/pdf-bleed.py:438-442 | a white page in black ink is legible |
| Sequencer.ScenePagesLegible | packages/pdf-create/pdf-bleed.py:347-378 | with colours in the unit cube, every scene text page has its background in the cube and the ink picked for it |
| Sequencer.MakeDocument | packages/pdf-create/pdf-bleed.py:339 | a document at the geometry's point size, with crop marks when enabled; `Sequencer.MakeDocumentFacts` states it |
| Sequencer.MakeDocumentFacts | packages/pdf-create/pdf-bleed.py:33-48 | the document keeps its path and pages and has the geometry's width and height; no marks when crop marks are off; otherwise, on a page larger than twice the inset, eight marks, 2k and 2k+1 one horizontal and one vertical at corner k, each running the mark length outward |
| Sequencer.PageRecords | packages/pdf-create/pdf-bleed.py:357 | the k-th record is `PDFPAGE|k|total` |
| Sequencer.ProgressLogFacts | packages/pdf-create/pdf-bleed.py:342-381 | the log is `PDFTOTAL`, then `PDFPAGE` 1..total in order, then `PDFDONE`, and is empty without `--mr` |
| Sequencer.ProgressLog | packages/pdf-create/pdf-bleed.py:342-381 | the records of a complete run; `Sequencer.ProgressLogFacts` states them |
| Sequencer.Writer.constructor | packages/pdf-create/pdf-bleed.py:339-343 | an empty document, a counter of 0 and, with `--mr`, only the total printed |
| Sequencer.Writer.ShowPage | packages/pdf-create/pdf-bleed.py:355-357 | appends the page, increments the counter and prints its record |
| Sequencer.Writer.Finish | packages/pdf-create/pdf-bleed.py:379-381 | adds `PDFDONE` with `--mr` and changes nothing else |
| Sequencer.CompleteLog | packages/pdf-create/pdf-bleed.py:379-381 | when the counter has reached the total, the records plus `PDFDONE` are the whole log |
| Sequencer.EmitScene | packages/pdf-create/pdf-bleed.py:346-378 | appends the scene's two pages in parity order with colours from the cache |
| Sequencer.EmitScenes | packages/pdf-create/pdf-bleed.py:345-378 | the scene loop appends exactly the scene pages, and decodes nothing when every image is cached |
| Sequencer.FlatScenes | packages/pdf-create/pdf-bleed.py:345-346 | scene i pairs text page i with TIFF i of the legacy folder |
| Sequencer.FlatRun | packages/pdf-create/pdf-bleed.py:322-382 | the whole flat-mode run; `Sequencer.FlatRunFacts` and `Sequencer.FlatRunLegible` state it |
| Sequencer.FlatRunFacts | packages/pdf-create/pdf-bleed.py:189-268 | refused exactly on an empty input or a count mismatch; otherwise 2·N pages, a full progress log, no cover or back document, and a page of the trim chosen from the legacy folder's sample plus twice the bleed |
| Sequencer.FlatRunLegible | packages/pdf-create/pdf-bleed.py:345-378 | with colours in the unit cube, every text page of a flat book is legible |
| Sequencer.BuildFlat | packages/pdf-create/pdf-bleed.py:322-382 | the flat-mode run is that function of its inputs, with the page size resolved from the sizing options and the legacy folder's sample, and every text page legible |
| Sequencer.WriteFlat | packages/pdf-create/pdf-bleed.py:339-381 | the drawing part writes the scene pages with the log for 2·N pages |
| Sequencer.Zip | packages/pdf-create/pdf-bleed.py:459-460 | scene i pairs text i with image i |
| Sequencer.ReadJson | packages/pdf-create/pdf-bleed.py:143-183 | everything a JSON run reads, in failure order; `Sequencer.ReadJsonAccepts` and `Sequencer.ReadJsonContents` state it |
| Sequencer.ReadJsonAccepts | packages/pdf-create/pdf-bleed.py:143-182 | JSON inputs are read exactly when the manifest passes its checks, every scene has an image and every text is a string |
| Sequencer.ReadJsonContents | packages/pdf-create/pdf-bleed.py:143-183 | the scenes carry their texts and found images in order; cover and back are the first existing `cover.*` / `back.*` |
| Sequencer.JsonPagesFacts | packages/pdf-create/pdf-bleed.py:423-500 | the main book has exactly the announced total of pages, opens with the cover exactly when one exists and is not split off, and ends with the closing page |
| Sequencer.JsonPages | packages/pdf-create/pdf-bleed.py:423-500 | the main book's pages; `Sequencer.JsonPagesFacts` and `Sequencer.JsonScenePages` state them |
| Sequencer.JsonTotal | packages/pdf-create/pdf-bleed.py:425 | the announced page total: the cover when it stays in the book, the description, two pages per scene and the closing page; `Sequencer.JsonPagesFacts` proves the book has exactly that many pages |
| Sequencer.JsonPagesLegible | packages/pdf-create/pdf-bleed.py:436-500 | with colours in the unit cube, every text page of the main book is legible |
| Sequencer.JsonScenePages | packages/pdf-create/pdf-bleed.py:431-491 | the scene pages follow the cover and the description page |
| Sequencer.JsonDocumentsFacts | packages/pdf-create/pdf-bleed.py:388-500 | a back document exactly when there is a back image; a cover document exactly when the cover is split off; each holds its one image; the main book holds the JSON pages; book, cover and back are each drawn at their own geometry's width and height, with the crop marks of that size when enabled; the log counts the main book's pages |
| Sequencer.JsonDocuments | packages/pdf-create/pdf-bleed.py:388-500 | the documents of a JSON run; `Sequencer.JsonDocumentsFacts` states their pages, sizes and marks, `Sequencer.JsonSample` the geometry they get |
| Sequencer.JsonRun | packages/pdf-create/pdf-bleed.py:143-507 | the whole JSON-mode run; `Sequencer.BuildJson` is proved equal to it |
| Sequencer.JsonSample | packages/pdf-create/pdf-bleed.py:193-200 | JSON mode sizes its pages from the cover when there is one, else from the first scene's image |
| Sequencer.Images | packages/pdf-create/pdf-bleed.py:451 | the scene images in scene order |
| Sequencer.EmitJsonBook | packages/pdf-create/pdf-bleed.py:425-503 | the main book's pages and records; every scene image ends up cached and only uncached scene images are decoded |
| Sequencer.BuildJson | packages/pdf-create/pdf-bleed.py:383-507 | the JSON-mode run is that function of its inputs, with the page sizes resolved from the sizing options and the first image for the aspect, all scene colours cached, and every text page of the book legible |
| Preview.StartIndex | packages/pdf-create/pdf-to-images.py:133-136 | start − 1 for a start of at least 1, else 0 |
| Preview.EndIndex | packages/pdf-create/pdf-to-images.py:138-141 | min(count, end) when given, else count: at most each, and equal to one of them |
| Preview.SliceBound | packages/pdf-create/pdf-to-images.py:143 | Python's clamp of a slice bound, with negative bounds counted from the end |
| Preview.PySlice | packages/pdf-create/pdf-to-images.py:143 | `items[start:end]` for every pair of bound kinds (below −len, negative, in range, past the end): in-range bounds cut there; an empty or reversed range, a start at or past the end, or an end below −len gives nothing; an end past the length acts as the length; a negative bound −k acts as len − k; a start below −len acts as 0 |
| Preview.SelectPages | packages/pdf-create/pdf-to-images.py:132-143 | the kept pages; `Preview.SelectPagesInRange`, `Preview.SelectPagesEdges` and `Preview.SelectPagesReversed` state them |
| Preview.SelectPagesInRange | packages/pdf-create/pdf-to-images.py:132-143 | a range 1 ≤ s ≤ e ≤ count keeps pages s..e; no range keeps every page |
| Preview.SelectPagesEdges | packages/pdf-create/pdf-to-images.py:133-143 | a start past the end or an end of 0 keeps nothing; an end of −k drops the last k pages |
| Preview.SelectPagesReversed | packages/pdf-create/pdf-to-images.py:132-143 | an end page before the start page, as a number or counted back from the last page, keeps nothing; an end past the last page keeps the rest; an end of −k at or after the start keeps pages start..count − k |
| Preview.SelectPagesReversedExample | packages/pdf-create/pdf-to-images.py:132-143 | five pages with start 5 and end −2, or start 4 and end 2, keep nothing |
| Preview.PageNumberIsPosition | packages/pdf-create/pdf-to-images.py:151-152 | output k is numbered start_idx + k + 1, a page of the PDF, and is that page |
| Preview.PageNumber | packages/pdf-create/pdf-to-images.py:151-152 | the number of output k; `Preview.PageNumberIsPosition` states it |
| Preview.FileName | packages/pdf-create/pdf-to-images.py:158 | the output file name; `Preview.FileNameFacts` states it |
| Preview.FileNameFacts | packages/pdf-create/pdf-to-images.py:158 | the name is prefix, `_`, digits, `.`, lower-case format; the digits read back as the page number and are exactly four below 10000 |
| Preview.DecimalLength | packages/pdf-create/pdf-to-images.py:158 | n < 10^d has at most d decimal digits |
| Preview.FileNameExtensions | packages/pdf-create/pdf-to-images.py:158 | JPEG files end in `.jpeg`, PNG files in `.png` |
| Preview.SaveOptionsFor | packages/pdf-create/pdf-to-images.py:161-164 | the format always; quality and optimize exactly for JPEG |
| Preview.TruncDiv | packages/pdf-create/pdf-to-images.py:73 | `int()` of a quotient truncates toward zero |
| Preview.Resized | packages/pdf-create/pdf-to-images.py:71-74 | images no wider than max_width keep their size; wider ones become max_width wide |
| Preview.RefusedExactly | packages/pdf-create/pdf-to-images.py:71-74 | the resize is refused exactly when the page is wider than max_width and max_width is not positive or the scaled height truncates to 0; 2400 × 1 at 1200 is refused |
| Preview.Refused | packages/pdf-create/pdf-to-images.py:71-74 | a resize whose target is not positive in both dimensions; `Preview.RefusedExactly` says exactly when that happens |
| Preview.FirstRefused | packages/pdf-create/pdf-to-images.py:150-155 | the first page whose resize is refused, every earlier one accepted, or the page count when none is |
| Preview.ResizedKeepsAspect | packages/pdf-create/pdf-to-images.py:71-74 | the new height is floor(height · max_width / width) and at most the old height |
| Preview.PlanFacts | packages/pdf-create/pdf-to-images.py:94-164 | fails before any output exactly on a missing PDF or an empty rendering, and at a page exactly when some kept page's resize is refused |
| Preview.PlanOutputs | packages/pdf-create/pdf-to-images.py:94-164 | a refused resize reports the first refused page, after writing the outputs of the pages before it; a successful run has one output per kept page; written outputs are numbered by their PDF page, resized from it to a positive size, saved under their numbered name, with strictly increasing numbers |
| Preview.OutputsWellFormed | packages/pdf-create/pdf-to-images.py:150-164 | the outputs of the pages before the first refused one are well formed |
| Preview.Outputs | packages/pdf-create/pdf-to-images.py:150-164 | one output per kept page, in order |
| Preview.OutputFor | packages/pdf-create/pdf-to-images.py:150-164 | the output of the k-th kept page: its page number, its path, its resized size and its save options; `Preview.OutputsWellFormed` states them |
| Preview.Plan | packages/pdf-create/pdf-to-images.py:94-164 | the outputs of a run; `Preview.PlanFacts` and `Preview.PlanOutputs` state them |

## Left out

- ReportLab drawing (`drawImage`, `rect`, `setFillColorRGB`, `drawString`, `showPage`, `save`) is not modelled. A page is recorded by what it shows: an image, or a text on a background in an ink. Text lines are placed by `TextFit.FitText`, which the page record does not embed.
- Font registration and the choice between the fallback and the primary font are not modelled, because the font is fixed inside `measure`.
- PIL decoding, the 64 × 64 resize and numpy's internals are not modelled. The model starts from the sampled pixels; reading and decoding a file is the cache's `decode` parameter.
- Floating point is not modelled. Lengths, luminances and colours are exact `real`s, so nothing here holds at the bit level.
- `argparse`, `os.path.exists`, `os.listdir`, `natsorted`, `json.load`, `os.getcwd` and `os.path.dirname` are not modelled. They are I/O; their results are parameters (the images directory is given already chosen).
- The `tqdm` bars and the emoji messages are left out: they are user interface only.
- The `sys.exit(1)` exits become `Err` results.
- Sequencer.BuildFlat: takes the sorted listing of the legacy folder (for the auto-trim sample) and its listing in natural order (for the scenes) as two separate values. Both come from the same folder in the source; no sort is modelled.
- The try/except around `Image.open` and around `listdir` is not modelled. An unreadable auto-trim sample is a missing sample, and a failed listing is an absent listing.
- Colour.ColourCache.Prefill: runs the pre-extraction pass in sequence. The source uses four threads, but their only effect is to fill the cache with the same deterministic values; a failing worker is not modelled.
- Sequencer.BuildJson: reports a non-string `shortDescription`, `motivationEnd` or `sourceText_bg`, and a scene that is not an object, as `NotText` before anything is drawn. The source instead fails partway through drawing the book (a non-object scene raises at `scene.get`, `pdf-bleed.py:461`).
- Sequencer.BuildJson: does not model a failure while writing the back PDF. The source catches that failure and carries on.
- Inputs.ReadBackWrittenPages: requires the pages to contain no `-` at all. This is stronger than needed; only the three-dash separator matters.
- Inputs.FindSceneImages: delegates each scene to a `Lookup` per scene rather than to the `Inputs.FindImage` loop. `FindImage` models the per-extension loop on its own.
- Strings.Lower: lower-cases ASCII letters only. Python's `str.lower` also folds other letters, which does not matter for the extension tests it serves.
- Preview.Resized: computes floor(height · max_width / width) exactly. The source multiplies by a float ratio, which can differ by one pixel when a product is very close to an integer.
- The rest of `pdf-to-images.py` is not modelled: the pdf2image/PyMuPDF dispatch and fallback, `convert_with_*`, the colour-mode conversion, writing files, `mkdir`, and the `st_size` totals. They are library and I/O plumbing.
