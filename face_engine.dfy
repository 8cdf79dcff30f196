/**
 * The deterministic part of the face engine: the gallery matcher (a first-occurrence
 * argmax of dot products gated by a fixed threshold), the padded face crop, and the
 * per-face normalisation of the detector's age and sex attributes.
 *
 * The detector itself (a pretrained network) is a parameter `detect`; the embeddings it
 * returns are taken to be unit length already, so a dot product is a cosine similarity.
 */
module FaceEngine {
  import opened Common

  /** Minimum cosine similarity for a positive identification. */
  const SimThreshold: real := 0.35

  /** Padding, in pixels, that `extract` adds around every box before cropping. */
  const CropPad: int := 2

  // ---------------------------------------------------------------- images and boxes

  newtype byte = x: int | 0 <= x < 256

  datatype Pixel = Pixel(r: byte, g: byte, b: byte)

  datatype Raster = Raster(rows: seq<seq<Pixel>>, width: nat)

  /** An RGB image of shape (|rows|, width, 3): every line is `width` pixels long. */
  type Image = r: Raster | forall i :: 0 <= i < |r.rows| ==> |r.rows[i]| == r.width
    witness Raster([], 0)

  /** Integer pixel box (x1, y1) - (x2, y2), right and bottom edges exclusive. */
  datatype Box = Box(x1: int, y1: int, x2: int, y2: int)

  /** A box as the detector reports it, in floating pixel coordinates. */
  datatype BoxR = BoxR(x1: real, y1: real, x2: real, y2: real)

  /** `int(x)` / `astype(int)`: truncation toward zero. */
  function TruncToInt(x: real): (n: int)
    ensures 0.0 <= x ==> n as real <= x < n as real + 1.0
    ensures x < 0.0 ==> n as real - 1.0 < x <= n as real
  {
    if 0.0 <= x then x.Floor else -((-x).Floor)
  }

  function TruncBox(b: BoxR): Box
  {
    Box(TruncToInt(b.x1), TruncToInt(b.y1), TruncToInt(b.x2), TruncToInt(b.y2))
  }

  predicate InRange(x: int, lo: int, hi: int) { lo <= x < hi }

  // ---------------------------------------------------------------- Python slicing

  /** How Python and numpy normalise one slice bound `i` against a length `n`:
      a negative bound counts from the end, and the result is clamped to [0, n]. */
  function SliceBound(i: int, n: nat): (k: nat)
    ensures k <= n
    ensures 0 <= i <= n ==> k == i
  {
    if i < 0 then (if i + n < 0 then 0 else i + n)
    else if i > n then n
    else i
  }

  function SliceLen(n: nat, i: int, j: int): nat
  {
    if SliceBound(i, n) < SliceBound(j, n) then SliceBound(j, n) - SliceBound(i, n) else 0
  }

  /** `s[i:j]` with Python's semantics. */
  function PySlice<T>(s: seq<T>, i: int, j: int): (r: seq<T>)
    ensures |r| == SliceLen(|s|, i, j)
    ensures forall k :: 0 <= k < |r| ==> r[k] == s[SliceBound(i, |s|) + k]
  {
    var a, b := SliceBound(i, |s|), SliceBound(j, |s|);
    if a < b then s[a..b] else []
  }

  /** Slices every line of `lines` (all `width` long) to columns [i:j]. */
  function SliceColumns(lines: seq<seq<Pixel>>, width: nat, i: int, j: int): (c: Image)
    requires forall r :: 0 <= r < |lines| ==> |lines[r]| == width
    ensures |c.rows| == |lines| && c.width == SliceLen(width, i, j)
    ensures forall r, k :: 0 <= r < |c.rows| && 0 <= k < c.width ==>
              c.rows[r][k] == lines[r][SliceBound(i, width) + k]
  {
    Raster(seq(|lines|, r requires 0 <= r < |lines| => PySlice(lines[r], i, j)), SliceLen(width, i, j))
  }

  // ---------------------------------------------------------------- crop_bbox_rgb

  /** Number of integers in [lo, hi) that are also in [0, n). */
  function Overlap(lo: int, hi: int, n: nat): nat
  {
    if Max(lo, 0) < Min(hi, n) then Min(hi, n) - Max(lo, 0) else 0
  }

  /** The clamped corners computed by `crop_bbox_rgb` before it slices. Along each axis
      the window is exactly the padded box intersected with the image. */
  function CropWindow(img: Image, b: Box, pad: int): (win: Box)
    ensures 0 <= win.x1 && win.x2 <= img.width && 0 <= win.y1 && win.y2 <= |img.rows|
    ensures b.x1 - pad <= win.x1 && win.x2 <= b.x2 + pad && b.y1 - pad <= win.y1 && win.y2 <= b.y2 + pad
    ensures forall x :: InRange(x, win.x1, win.x2) <==> InRange(x, b.x1 - pad, b.x2 + pad) && InRange(x, 0, img.width)
    ensures forall y :: InRange(y, win.y1, win.y2) <==> InRange(y, b.y1 - pad, b.y2 + pad) && InRange(y, 0, |img.rows|)
  {
    Box(Max(b.x1 - pad, 0), Max(b.y1 - pad, 0), Min(b.x2 + pad, img.width), Min(b.y2 + pad, |img.rows|))
  }

  /** `crop_bbox_rgb` as written: `img[y1:y2, x1:x2]` on the clamped corners. A clamped
      right or bottom edge that is still negative is read by numpy as counting from the
      end of the axis. */
  function CropBboxRgb(img: Image, b: Box, pad: int): (c: Image)
    ensures b.x2 + pad >= 0 && b.y2 + pad >= 0 ==> c == CropBboxRgbClamped(img, b, pad)
  {
    var win := CropWindow(img, b, pad);
    SliceColumns(PySlice(img.rows, win.y1, win.y2), img.width, win.x1, win.x2)
  }

  /** The crop the padding and clamping evidently intend: the padded box intersected with
      the image, read pixel for pixel; empty when they do not meet. */
  function CropBboxRgbClamped(img: Image, b: Box, pad: int): (c: Image)
    ensures |c.rows| == Overlap(b.y1 - pad, b.y2 + pad, |img.rows|)
    ensures c.width == Overlap(b.x1 - pad, b.x2 + pad, img.width)
    ensures forall r, k :: 0 <= r < |c.rows| && 0 <= k < c.width ==>
              c.rows[r][k] == img.rows[Max(b.y1 - pad, 0) + r][Max(b.x1 - pad, 0) + k]
  {
    var win := CropWindow(img, b, pad);
    SliceColumns(PySlice(img.rows, win.y1, Max(win.y2, 0)), img.width, win.x1, Max(win.x2, 0))
  }

  /** A box lying wholly left of the image: as written, the negative right edge wraps
      round and the crop is nearly the whole width; the intended crop is empty. */
  lemma CropWrapsForBoxLeftOfImage(px: Pixel)
    ensures var img: Image := Raster([seq(10, _ => px)], 10);
            var b := Box(-6, 0, -4, 1);
            CropBboxRgb(img, b, CropPad).width == 8 && CropBboxRgbClamped(img, b, CropPad).width == 0
  {
    var img: Image := Raster([seq(10, _ => px)], 10);
    var b := Box(-6, 0, -4, 1);
    var win := CropWindow(img, b, CropPad);
    assert win == Box(0, 0, -2, 1);
    assert SliceBound(-2, 10) == 8;
  }

  // ---------------------------------------------------------------- age and sex

  /** The detector's sex attribute: a label in recent versions, a numeric code in older ones
      (a Python bool is numeric too, True being 1). */
  datatype Sex = SexLabel(text: string) | SexCode(code: real)

  /** Age: absent (or None) stays None; any number is truncated to an int, negatives kept. */
  function AgeOf(age: Option<real>): (a: Option<int>)
    ensures a.None? <==> age.None?
    ensures age.Some? && 0.0 <= age.value ==> 0 <= a.value && a.value as real <= age.value < a.value as real + 1.0
    ensures age.Some? && age.value < 0.0 ==> a.value <= 0 && a.value as real - 1.0 < age.value <= a.value as real
  {
    if age.None? then None else Some(TruncToInt(age.value))
  }

  /** An integral age, negative or not, comes through unchanged. */
  lemma AgeOfInteger(n: int)
    ensures AgeOf(Some(n as real)) == Some(n)
  {
  }

  /** Gender: absent stays None, a label passes through, code 1 is "male" and every other
      code is "female". */
  function GenderOf(sex: Option<Sex>): (g: Option<string>)
    ensures g.None? <==> sex.None?
    ensures sex.Some? && sex.value.SexLabel? ==> g == Some(sex.value.text)
    ensures sex.Some? && sex.value.SexCode? ==> g == Some("male") || g == Some("female")
    ensures sex.Some? && sex.value.SexCode? ==> (g == Some("male") <==> sex.value.code == 1.0)
  {
    match sex
    case None => None
    case Some(SexLabel(s)) => Some(s)
    case Some(SexCode(c)) => if c == 1.0 then Some("male") else Some("female")
  }

  // ---------------------------------------------------------------- extract

  /** One detected face as the detector reports it; `embedding` is its normalised embedding. */
  datatype Detection = Detection(bbox: BoxR, detScore: real, embedding: seq<real>,
                                 age: Option<real>, sex: Option<Sex>)

  /** One face as `extract` returns it; `crop` is the cropped face before JPEG encoding. */
  datatype FaceResult = FaceResult(bbox: Box, detScore: real, embedding: seq<real>,
                                   age: Option<int>, gender: Option<string>, crop: Image)

  /** The body of the loop in `extract`, for one detection. */
  function ToFaceResult(img: Image, d: Detection): FaceResult
  {
    var bbox := TruncBox(d.bbox);
    FaceResult(bbox, d.detScore, d.embedding, AgeOf(d.age), GenderOf(d.sex), CropBboxRgb(img, bbox, CropPad))
  }

  /** What `extract` returns for the detections `dets` found in `img`. */
  function Extracted(img: Image, dets: seq<Detection>): seq<FaceResult>
  {
    seq(|dets|, i requires 0 <= i < |dets| => ToFaceResult(img, dets[i]))
  }

  /** `FaceEngine.extract`: one result per detection, in detection order. */
  method Extract(img: Image, detect: Image -> seq<Detection>) returns (results: seq<FaceResult>)
    ensures results == Extracted(img, detect(img))
  {
    var faces := detect(img);
    results := [];
    for i := 0 to |faces|
      invariant |results| == i
      invariant forall j :: 0 <= j < i ==> results[j] == ToFaceResult(img, faces[j])
    {
      results := results + [ToFaceResult(img, faces[i])];
    }
  }

  // ---------------------------------------------------------------- match

  /** A gallery of |rows| embeddings of `width` components (numpy shape (N, D)). */
  datatype Matrix = Matrix(rows: seq<seq<real>>, width: nat)

  predicate Shaped(g: Matrix)
  {
    forall i :: 0 <= i < |g.rows| ==> |g.rows[i]| == g.width
  }

  /** numpy's `.size`: the number of entries. */
  function Size(g: Matrix): nat { |g.rows| * g.width }

  function Dot(u: seq<real>, v: seq<real>): real
    requires |u| == |v|
    decreases |u|
  {
    if |u| == 0 then 0.0 else Dot(u[..|u| - 1], v[..|v| - 1]) + u[|u| - 1] * v[|v| - 1]
  }

  /** `db_embs @ query_emb`. */
  function Similarities(g: Matrix, q: seq<real>): (sims: seq<real>)
    requires Shaped(g) && g.width == |q|
    ensures |sims| == |g.rows|
    ensures forall i :: 0 <= i < |g.rows| ==> sims[i] == Dot(g.rows[i], q)
  {
    seq(|g.rows|, i requires 0 <= i < |g.rows| => Dot(g.rows[i], q))
  }

  /** `np.argmax`: the first index of a maximal element. */
  function ArgMax(s: seq<real>): (k: nat)
    requires |s| > 0
    ensures k < |s|
    ensures forall j :: 0 <= j < |s| ==> s[j] <= s[k]
    ensures forall j :: 0 <= j < k ==> s[j] < s[k]
    decreases |s|
  {
    if |s| == 1 then 0
    else
      var k := ArgMax(s[..|s| - 1]);
      if s[k] < s[|s| - 1] then |s| - 1 else k
  }

  datatype MatchResult = MatchResult(index: int, similarity: real)

  /** `FaceEngine.match`. An empty gallery gives (-1, 0.0). Otherwise the similarity is the
      largest dot product, and the index is the first row reaching it when that similarity
      clears the threshold, -1 when it does not (the similarity is reported either way). */
  function Match(q: seq<real>, g: Matrix): (r: MatchResult)
    requires Shaped(g)
    requires Size(g) == 0 || g.width == |q|
    ensures Size(g) == 0 ==> r == MatchResult(-1, 0.0)
    ensures Size(g) != 0 ==> r.similarity in Similarities(g, q)
    ensures Size(g) != 0 ==> forall j :: 0 <= j < |g.rows| ==> Similarities(g, q)[j] <= r.similarity
    ensures r.index >= 0 <==> Size(g) != 0 && r.similarity >= SimThreshold
    ensures r.index < 0 ==> r.index == -1
    ensures r.index >= 0 ==> r.index < |g.rows| && Similarities(g, q)[r.index] == r.similarity
    ensures r.index >= 0 ==> forall j :: 0 <= j < r.index ==> Similarities(g, q)[j] < r.similarity
  {
    if Size(g) == 0 then MatchResult(-1, 0.0)
    else
      var sims := Similarities(g, q);
      var idx := ArgMax(sims);
      var sim := sims[idx];
      if sim >= SimThreshold then MatchResult(idx, sim) else MatchResult(-1, sim)
  }

  lemma {:induction false} DotEmpty(u: seq<real>, v: seq<real>)
    requires |u| == |v| == 0
    ensures Dot(u, v) == 0.0
  {
  }

  /** The early return for an empty gallery agrees with the general rule whenever there are
      rows at all: with zero-width rows every similarity is 0.0, below the threshold. */
  lemma ZeroWidthGalleryAgrees(q: seq<real>, g: Matrix)
    requires Shaped(g) && |g.rows| > 0 && g.width == 0 && |q| == 0
    ensures Match(q, g) == MatchResult(-1, Similarities(g, q)[ArgMax(Similarities(g, q))])
  {
    var sims := Similarities(g, q);
    var k := ArgMax(sims);
    DotEmpty(g.rows[k], q);
  }
}
