/** Background-colour sampling of a scene image and the text-colour rule.
    The image is given as its sampled pixels (the decoder and the 64 x 64
    resize are outside the model); the colour is the 50/50 blend of the
    per-channel mean and median, brightened when its luminance is below
    0.25. Results are memoised per image path for the whole run. */
module Colour {

  /** One 8-bit channel value. */
  type Byte = x: int | 0 <= x < 256

  datatype Pixel = Pixel(r: Byte, g: Byte, b: Byte)

  /** A colour with channels as fractions (1.0 is full intensity). */
  datatype Rgb = Rgb(r: real, g: real, b: real)

  /** The pixels of a decoded, resized image: never empty. */
  type Sample = s: seq<Pixel> | |s| > 0 witness [Pixel(0, 0, 0)]

  /** What opening an image path gives: its pixels, or a decode failure. */
  datatype Decoded = Unreadable | Sampled(pixels: Sample)

  const Black: Rgb := Rgb(0.0, 0.0, 0.0)
  const White: Rgb := Rgb(1.0, 1.0, 1.0)

  /** The colour used when an image cannot be decoded. */
  const FallbackGrey: Rgb := Rgb(0.95, 0.95, 0.95)

  /** Backgrounds darker than this are brightened. */
  const MinLuminance: real := 0.25

  /** The brightening factor used when the luminance is exactly zero. */
  const ZeroLuminanceScale: real := 4.0

  /** Backgrounds lighter than this get black text. */
  const LightThreshold: real := 0.6

  /** Relative luminance with the ITU-R BT.709 weights (the same as sRGB's). */
  function Luminance(c: Rgb): real {
    0.2126 * c.r + 0.7152 * c.g + 0.0722 * c.b
  }

  predicate InUnitCube(c: Rgb) {
    0.0 <= c.r <= 1.0 && 0.0 <= c.g <= 1.0 && 0.0 <= c.b <= 1.0
  }

  // ---- pixel statistics ----

  function Sum(xs: seq<int>): int {
    if xs == [] then 0 else xs[0] + Sum(xs[1..])
  }

  predicate AreBytes(xs: seq<int>) {
    forall i :: 0 <= i < |xs| ==> 0 <= xs[i] < 256
  }

  lemma {:induction false} SumOfBytes(xs: seq<int>)
    ensures AreBytes(xs) ==> 0 <= Sum(xs) <= 255 * |xs|
  {
    if xs != [] {
      SumOfBytes(xs[1..]);
    }
  }

  /** The arithmetic mean (numpy's mean) of a non-empty sequence. */
  function Mean(xs: seq<int>): (m: real)
    requires |xs| > 0
    ensures AreBytes(xs) ==> 0.0 <= m <= 255.0
  {
    SumOfBytes(xs);
    (Sum(xs) as real) / (|xs| as real)
  }

  predicate Sorted(s: seq<int>) {
    forall i, j :: 0 <= i < j < |s| ==> s[i] <= s[j]
  }

  /** A value no larger than the head of a sorted sequence extends it. */
  lemma PrependSorted(a: int, t: seq<int>)
    requires Sorted(t) && (t == [] || a <= t[0])
    ensures Sorted([a] + t)
  {
    var u := [a] + t;
    forall i, j | 0 <= i < j < |u|
      ensures u[i] <= u[j]
    {
      if i > 0 {
        assert u[i] == t[i - 1] && u[j] == t[j - 1];
      } else {
        assert u[j] == t[j - 1] && t[0] <= t[j - 1];
      }
    }
  }

  function Insert(x: int, s: seq<int>): (r: seq<int>)
    requires Sorted(s)
    ensures Sorted(r) && multiset(r) == multiset(s) + multiset{x}
    ensures |r| == |s| + 1 && r[0] == (if s != [] && s[0] < x then s[0] else x)
  {
    if s == [] then [x]
    else if x <= s[0] then
      PrependSorted(x, s);
      [x] + s
    else
      assert s == [s[0]] + s[1..];
      var rest := Insert(x, s[1..]);
      PrependSorted(s[0], rest);
      [s[0]] + rest
  }

  /** The values in ascending order (insertion sort). */
  function SortInts(s: seq<int>): (r: seq<int>)
    ensures Sorted(r) && multiset(r) == multiset(s) && |r| == |s|
  {
    if s == [] then []
    else
      assert s == [s[0]] + s[1..];
      Insert(s[0], SortInts(s[1..]))
  }

  /** How many of the values are at most `m`. */
  function CountAtMost(xs: seq<int>, m: real): nat {
    if xs == [] then 0
    else (if xs[0] as real <= m then 1 else 0) + CountAtMost(xs[1..], m)
  }

  /** How many of the values are at least `m`. */
  function CountAtLeast(xs: seq<int>, m: real): nat {
    if xs == [] then 0
    else (if m <= xs[0] as real then 1 else 0) + CountAtLeast(xs[1..], m)
  }

  /** Inserting a value adds it to both counts exactly when it qualifies. */
  lemma {:induction false} InsertCounts(x: int, s: seq<int>, m: real)
    requires Sorted(s)
    ensures CountAtMost(Insert(x, s), m) == CountAtMost(s, m) + (if x as real <= m then 1 else 0)
    ensures CountAtLeast(Insert(x, s), m) == CountAtLeast(s, m) + (if m <= x as real then 1 else 0)
  {
    var r := Insert(x, s);
    if s != [] && s[0] < x {
      var t := s[1..];
      assert Sorted(t);
      InsertCounts(x, t, m);
      assert r == [s[0]] + Insert(x, t);
      assert r[0] == s[0] && r[1..] == Insert(x, t);
    } else {
      assert r == [x] + s;
      assert r[0] == x && r[1..] == s;
    }
  }

  /** Sorting keeps both counts. */
  lemma {:induction false} SortCounts(xs: seq<int>, m: real)
    ensures CountAtMost(SortInts(xs), m) == CountAtMost(xs, m)
    ensures CountAtLeast(SortInts(xs), m) == CountAtLeast(xs, m)
  {
    if xs != [] {
      SortCounts(xs[1..], m);
      InsertCounts(xs[0], SortInts(xs[1..]), m);
    }
  }

  /** When the first `k` values are at most `m`, at least `k` values are. */
  lemma {:induction false} PrefixAtMost(s: seq<int>, k: nat, m: real)
    requires k <= |s| && forall i :: 0 <= i < k ==> s[i] as real <= m
    ensures CountAtMost(s, m) >= k
  {
    if k > 0 {
      PrefixAtMost(s[1..], k - 1, m);
    }
  }

  /** When the values from index `k` on are at least `m`, at least
      `|s| - k` values are. */
  lemma {:induction false} SuffixAtLeast(s: seq<int>, k: nat, m: real)
    requires k <= |s| && forall i :: k <= i < |s| ==> m <= s[i] as real
    ensures CountAtLeast(s, m) >= |s| - k
  {
    if s != [] {
      SuffixAtLeast(s[1..], if k == 0 then 0 else k - 1, m);
    }
  }

  /** The middle of a sorted sequence: its middle value, or the mean of its
      two middle values when it has an even length. */
  function Middle(s: seq<int>): (m: real)
    requires Sorted(s) && |s| > 0
    ensures s[0] as real <= m <= s[|s| - 1] as real
  {
    var n := |s|;
    var lo := if n % 2 == 1 then s[n / 2] else s[n / 2 - 1];
    var hi := s[n / 2];
    assert s[0] <= lo <= hi <= s[n - 1];
    if n % 2 == 1 then hi as real else ((lo + hi) as real) / 2.0
  }

  /** At least half of a sorted sequence is at most its middle, and at least
      half is at least it. */
  lemma MiddleSplitsHalves(s: seq<int>)
    requires Sorted(s) && |s| > 0
    ensures 2 * CountAtMost(s, Middle(s)) >= |s| && 2 * CountAtLeast(s, Middle(s)) >= |s|
  {
    var n := |s|;
    var m := Middle(s);
    var lo := if n % 2 == 1 then s[n / 2] else s[n / 2 - 1];
    var hi := s[n / 2];
    assert lo as real <= m <= hi as real;
    assert forall i :: 0 <= i < (n + 1) / 2 ==> s[i] <= lo;
    assert forall i :: n / 2 <= i < n ==> hi <= s[i];
    PrefixAtMost(s, (n + 1) / 2, m);
    SuffixAtLeast(s, n / 2, m);
  }

  /** numpy's median: the middle of the sorted values. It lies between two
      values of the sequence. */
  function Median(xs: seq<int>): (m: real)
    requires |xs| > 0
    ensures exists i :: 0 <= i < |xs| && xs[i] as real <= m
    ensures exists j :: 0 <= j < |xs| && m <= xs[j] as real
  {
    var s := SortInts(xs);
    assert s[0] in multiset(xs) && s[|s| - 1] in multiset(xs);
    Middle(s)
  }

  /** The median splits the values in halves: at least half of them are at
      most the median and at least half are at least it. */
  lemma MedianSplitsHalves(xs: seq<int>)
    requires |xs| > 0
    ensures 2 * CountAtMost(xs, Median(xs)) >= |xs| && 2 * CountAtLeast(xs, Median(xs)) >= |xs|
  {
    SortCounts(xs, Median(xs));
    MiddleSplitsHalves(SortInts(xs));
  }

  lemma MedianOfBytes(xs: seq<int>)
    requires |xs| > 0 && AreBytes(xs)
    ensures 0.0 <= Median(xs) <= 255.0
  {
    var m := Median(xs);
    var i :| 0 <= i < |xs| && xs[i] as real <= m;
    var j :| 0 <= j < |xs| && m <= xs[j] as real;
  }

  function Reds(ps: seq<Pixel>): (xs: seq<int>)
    ensures |xs| == |ps| && AreBytes(xs)
  {
    seq(|ps|, i requires 0 <= i < |ps| => ps[i].r as int)
  }

  function Greens(ps: seq<Pixel>): (xs: seq<int>)
    ensures |xs| == |ps| && AreBytes(xs)
  {
    seq(|ps|, i requires 0 <= i < |ps| => ps[i].g as int)
  }

  function Blues(ps: seq<Pixel>): (xs: seq<int>)
    ensures |xs| == |ps| && AreBytes(xs)
  {
    seq(|ps|, i requires 0 <= i < |ps| => ps[i].b as int)
  }

  /** One channel of the blend: half the mean plus half the median, as a
      fraction of 255. */
  function BlendChannel(xs: seq<int>): (v: real)
    requires |xs| > 0 && AreBytes(xs)
    ensures 0.0 <= v <= 1.0
  {
    MedianOfBytes(xs);
    (0.5 * Mean(xs) + 0.5 * Median(xs)) / 255.0
  }

  /** The blended mean/median colour of the sampled pixels. */
  function Blend(ps: Sample): (c: Rgb)
    ensures InUnitCube(c)
  {
    Rgb(BlendChannel(Reds(ps)), BlendChannel(Greens(ps)), BlendChannel(Blues(ps)))
  }

  // ---- brightening ----

  function Min(x: real, y: real): real {
    if x <= y then x else y
  }

  /** The factor a dark colour is scaled by: what takes its luminance to 0.25,
      or 4.0 when the luminance is zero. It never darkens. */
  function ScaleFactor(lum: real): (s: real)
    ensures 0.0 <= lum < MinLuminance ==> s >= 1.0
    ensures lum > 0.0 ==> s * lum == MinLuminance
  {
    if lum > 0.0 then
      assert lum < MinLuminance ==> MinLuminance / lum >= 1.0 by {
        assert MinLuminance / lum * lum == MinLuminance;
      }
      MinLuminance / lum
    else ZeroLuminanceScale
  }

  /** One channel scaled by s and capped at 1.0. */
  function ScaleChannel(x: real, s: real): (y: real)
    ensures 0.0 <= x <= 1.0 && s >= 1.0 ==> x <= y <= 1.0
    ensures y == x * s || y == 1.0
    ensures x * s <= 1.0 ==> y == x * s
  {
    GrowsByFactor(x, s);
    Min(x * s, 1.0)
  }

  lemma GrowsByFactor(x: real, s: real)
    ensures 0.0 <= x && s >= 1.0 ==> x <= x * s
  {
    if 0.0 <= x && s >= 1.0 {
      assert x * s == x + x * (s - 1.0);
      assert x * (s - 1.0) >= 0.0;
    }
  }

  /** A colour darker than 0.25 is scaled up, each channel capped at 1.0;
      any other colour is kept. Brightening never darkens a channel and never
      leaves the unit cube. */
  function Brighten(c: Rgb): (out: Rgb)
    ensures Luminance(c) >= MinLuminance ==> out == c
    ensures InUnitCube(c) ==> InUnitCube(out)
    ensures InUnitCube(c) ==> c.r <= out.r && c.g <= out.g && c.b <= out.b
  {
    var lum := Luminance(c);
    if lum < MinLuminance then
      var s := ScaleFactor(lum);
      Rgb(ScaleChannel(c.r, s), ScaleChannel(c.g, s), ScaleChannel(c.b, s))
    else c
  }

  /** A dark colour that is not black reaches luminance 0.25 exactly, unless a
      channel had to be capped at 1.0. */
  lemma BrightenReachesMinimum(c: Rgb)
    requires InUnitCube(c) && 0.0 < Luminance(c) < MinLuminance
    ensures var out := Brighten(c);
      Luminance(out) == MinLuminance || out.r == 1.0 || out.g == 1.0 || out.b == 1.0
  {
    var s := ScaleFactor(Luminance(c));
    ScaledOrCapped(c, s);
    assert Brighten(c) == Rgb(ScaleChannel(c.r, s), ScaleChannel(c.g, s), ScaleChannel(c.b, s));
  }

  /** Scaling every channel by s either scales the luminance by s or caps
      some channel at 1.0. */
  lemma ScaledOrCapped(c: Rgb, s: real)
    ensures var out := Rgb(ScaleChannel(c.r, s), ScaleChannel(c.g, s), ScaleChannel(c.b, s));
      Luminance(out) == s * Luminance(c) || out.r == 1.0 || out.g == 1.0 || out.b == 1.0
  {
    if c.r * s <= 1.0 && c.g * s <= 1.0 && c.b * s <= 1.0 {
      ScaledLuminance(c, s);
    }
  }

  /** Luminance is linear: scaling every channel scales it. */
  lemma ScaledLuminance(c: Rgb, s: real)
    ensures Luminance(Rgb(c.r * s, c.g * s, c.b * s)) == s * Luminance(c)
  {
  }

  /** A colour in the unit cube with zero luminance is black, and brightening
      leaves black black: the 4.0 factor cannot lift it. */
  lemma BrightenKeepsBlack(c: Rgb)
    requires InUnitCube(c) && Luminance(c) == 0.0
    ensures c == Black && Brighten(c) == Black
  {
  }

  /** Capping can leave a saturated dark colour below 0.25: pure red at 0.3
      becomes full red, whose luminance is 0.2126. */
  lemma BrightenCanStayDark()
    ensures Luminance(Rgb(0.3, 0.0, 0.0)) < MinLuminance
    ensures Brighten(Rgb(0.3, 0.0, 0.0)) == Rgb(1.0, 0.0, 0.0)
    ensures Luminance(Brighten(Rgb(0.3, 0.0, 0.0))) < MinLuminance
  {
    var c := Rgb(0.3, 0.0, 0.0);
    assert Luminance(c) == 0.06378;
    assert ScaleFactor(0.06378) * 0.06378 == MinLuminance;
    assert c.r * ScaleFactor(0.06378) > 1.0;
  }

  /** The background colour of one image: the fallback grey when it cannot be
      decoded, else the brightened blend of its pixels. */
  function BackgroundColour(d: Decoded): (c: Rgb)
    ensures InUnitCube(c)
    ensures d.Unreadable? ==> c == FallbackGrey
  {
    match d
    case Unreadable => FallbackGrey
    case Sampled(ps) => Brighten(Blend(ps))
  }

  /** pick_text_color: black text exactly on backgrounds with luminance above
      0.6, white text otherwise. */
  function PickTextColour(background: Rgb): (text: Rgb)
    ensures text == Black <==> Luminance(background) > LightThreshold
    ensures text == White <==> !(Luminance(background) > LightThreshold)
  {
    if Luminance(background) > LightThreshold then Black else White
  }

  /** The fallback grey gets black text; a brightened black gets white text. */
  lemma TextColourOfFallbacks()
    ensures PickTextColour(BackgroundColour(Unreadable)) == Black
    ensures PickTextColour(Brighten(Black)) == White
  {
  }

  // ---- the memo table ----

  /** The per-path memo of background colours (the module-level dictionary
      `_color_cache`). `decode` reads a path's image (the file system and the
      image decoder); `compute` is the whole extraction of one image, its
      background colour. `decoded` records, in order, the paths whose image
      was actually decoded. */
  class ColourCache {
    const decode: string -> Decoded
    const compute: string -> Rgb
    var entries: map<string, Rgb>
    ghost var decoded: seq<string>

    /** The extraction is the background colour of the decoded image. It
        reads only the two constants, so it holds for the cache's lifetime. */
    ghost predicate Extracts() {
      forall p {:trigger decode(p)} :: compute(p) == BackgroundColour(decode(p))
    }

    /** c is the background colour of the image at path, and so lies in the
        unit cube. */
    ghost predicate IsBackgroundOf(path: string, c: Rgb) {
      c == BackgroundColour(decode(path)) && InUnitCube(c)
    }

    /** Every stored colour is the one its image determines, and each image
        was decoded exactly once: the paths decoded are the cached ones. */
    ghost predicate Valid()
      reads this
    {
      && (forall p :: p in entries ==> entries[p] == compute(p))
      && (forall i :: 0 <= i < |decoded| ==> decoded[i] in entries)
      && (forall p :: p in entries ==> p in decoded)
      && (forall i, j :: 0 <= i < j < |decoded| ==> decoded[i] != decoded[j])
    }

    /** An empty cache over the given image reader. */
    constructor (decode: string -> Decoded)
      ensures Valid() && Extracts() && this.decode == decode
      ensures entries == map[] && decoded == []
    {
      this.decode := decode;
      compute := p => BackgroundColour(decode(p));
      entries := map[];
      decoded := [];
    }

    /** extract_bg_colors: the stored colour when the path is cached (nothing
        is decoded), else the computed colour, which is then stored. Either
        way it is `compute(path)`, which `Extracts()` makes the background
        colour of the decoded image. */
    method Extract(path: string) returns (c: Rgb)
      requires Valid() && Extracts()
      modifies this
      ensures Valid()
      ensures c == compute(path) && IsBackgroundOf(path, c)
      ensures path in old(entries) ==> entries == old(entries) && decoded == old(decoded) && c == old(entries)[path]
      ensures path !in old(entries) ==> entries == old(entries)[path := c] && decoded == old(decoded) + [path]
    {
      if path in entries {
        c := entries[path];
        return;
      }
      c := compute(path);
      entries := entries[path := c];
      decoded := decoded + [path];
    }

    /** One task of the pre-extraction pool: the colour is extracted into the
        cache and the result itself is discarded. */
    method Warm(path: string)
      requires Valid() && Extracts()
      modifies this
      ensures Valid()
      ensures path in old(entries) ==> entries == old(entries) && decoded == old(decoded)
      ensures path !in old(entries) ==> entries == old(entries)[path := compute(path)] && decoded == old(decoded) + [path]
    {
      var _ := Extract(path);
    }

    /** The colour pre-extraction pass over the scene images, run one image
        at a time: afterwards every path is cached, earlier entries are kept,
        and only the paths that were not cached yet have been decoded. */
    method Prefill(paths: seq<string>)
      requires Valid() && Extracts()
      modifies this
      ensures Valid()
      ensures forall p :: p in paths ==> p in entries
      ensures forall p :: p in entries ==> p in old(entries) || p in paths
      ensures forall p :: p in old(entries) ==> p in entries && entries[p] == old(entries)[p]
      ensures |old(decoded)| <= |decoded| && (forall k :: 0 <= k < |old(decoded)| ==> decoded[k] == old(decoded)[k])
      ensures forall i :: |old(decoded)| <= i < |decoded| ==> decoded[i] in paths && decoded[i] !in old(entries)
    {
      var i := 0;
      while i < |paths|
        invariant 0 <= i <= |paths|
        invariant Valid()
        invariant forall j :: 0 <= j < i ==> paths[j] in entries
        invariant forall p :: p in old(entries) ==> p in entries && entries[p] == old(entries)[p]
        invariant |old(decoded)| <= |decoded| && (forall k :: 0 <= k < |old(decoded)| ==> decoded[k] == old(decoded)[k])
        invariant forall k :: |old(decoded)| <= k < |decoded| ==> decoded[k] in paths && decoded[k] !in old(entries)
      {
        ghost var before := decoded;
        ghost var cached := entries;
        Warm(paths[i]);
        if paths[i] in cached {
          assert decoded == before && entries == cached;
        } else {
          assert decoded == before + [paths[i]];
          assert entries == cached[paths[i] := entries[paths[i]]];
        }
        i := i + 1;
      }
    }
  }

  /** Every colour the cache can hand out lies in the unit cube. */
  lemma CacheColoursInCube(cache: ColourCache)
    requires cache.Extracts()
    ensures forall p :: InUnitCube(cache.compute(p))
  {
    forall p
      ensures InUnitCube(cache.compute(p))
    {
      assert cache.compute(p) == BackgroundColour(cache.decode(p));
    }
  }

  /** A second extraction of the same path returns the first result and
      decodes nothing more: the image is decoded at most once. */
  method ExtractTwice(cache: ColourCache, path: string) returns (first: Rgb, second: Rgb)
    requires cache.Valid() && cache.Extracts()
    modifies cache
    ensures cache.Valid()
    ensures first == second == cache.compute(path)
    ensures |cache.decoded| <= |old(cache.decoded)| + 1
  {
    first := cache.Extract(path);
    ghost var after := cache.decoded;
    second := cache.Extract(path);
    assert cache.decoded == after;
  }
}
