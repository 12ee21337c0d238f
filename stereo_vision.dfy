/**
 * Pure helpers of the stereo-vision front end: the integer clamp and the
 * bounding-box clip built from it, the YOLO-to-KITTI label mapping, the
 * disparity output file name, and the image-pair size check that decides
 * whether a profiling run processes anything.
 */
module StereoVision {
  import Arith

  datatype Option<T> = None | Some(value: T)

  // ---------------------------------------------------------------------
  // constrain

  /** Clamps a into [lb, ub]; below lb gives lb, above ub gives ub. */
  function Constrain(a: int, lb: int, ub: int): (r: int)
    ensures lb <= ub ==> lb <= r <= ub
    ensures lb <= a <= ub ==> r == a
    ensures r == a || r == lb || r == ub
  {
    if a < lb then lb
    else if a > ub then ub
    else a
  }

  /** Clamping twice is clamping once (for a non-empty range). */
  lemma ConstrainIdempotent(a: int, lb: int, ub: int)
    requires lb <= ub
    ensures Constrain(Constrain(a, lb, ub), lb, ub) == Constrain(a, lb, ub)
  {
  }

  /** Clamping preserves the order of its argument (for a non-empty range). */
  lemma ConstrainMonotone(a: int, b: int, lb: int, ub: int)
    requires lb <= ub && a <= b
    ensures Constrain(a, lb, ub) <= Constrain(b, lb, ub)
  {
  }

  /** The clamp is the point of [lb, ub] nearest to a. */
  lemma ConstrainNearest(a: int, lb: int, ub: int, x: int)
    requires lb <= x <= ub
    ensures Arith.Abs(Constrain(a, lb, ub) - a) <= Arith.Abs(x - a)
  {
  }

  /** Idempotence needs a non-empty range: constrain(5, 0, -1) is -1,
      and clamping -1 again gives 0. */
  lemma ConstrainEmptyRange()
    ensures Constrain(5, 0, -1) == -1 && Constrain(Constrain(5, 0, -1), 0, -1) == 0
  {
  }

  // ---------------------------------------------------------------------
  // Bounding-box clip of the object-tracking loop

  /** Column range [iLb, iUb) and row range [jLb, jUb) summed for one object. */
  datatype Box = Box(iLb: int, iUb: int, jLb: int, jUb: int)

  /** Clips the detection (x, y, w, h) to an image of `cols` columns and `rows` rows. */
  function ClipBox(x: int, y: int, w: int, h: int, cols: int, rows: int): (b: Box)
    ensures 1 <= cols && 0 <= w ==> 0 <= b.iLb <= b.iUb <= cols - 1
    ensures 1 <= rows && 0 <= h ==> 0 <= b.jLb <= b.jUb <= rows - 1
  {
    Box(Constrain(x, 0, cols - 1), Constrain(x + w, 0, cols - 1),
        Constrain(y, 0, rows - 1), Constrain(y + h, 0, rows - 1))
  }

  /** Slot of pixel (i, j) in the point array when rows are `stride` apart. */
  function PointIndex(i: int, j: int, stride: int): int {
    j * stride + i
  }

  /** Every (i, j) the summation loops visit is a pixel of the image, and
      with the image width as the row stride its slot lies in the
      rows * cols point array. */
  lemma ClipBoxVisitsImage(x: int, y: int, w: int, h: int, cols: int, rows: int, i: int, j: int)
    requires 1 <= cols && 1 <= rows && 0 <= w && 0 <= h
    requires ClipBox(x, y, w, h, cols, rows).iLb <= i < ClipBox(x, y, w, h, cols, rows).iUb
    requires ClipBox(x, y, w, h, cols, rows).jLb <= j < ClipBox(x, y, w, h, cols, rows).jUb
    ensures 0 <= i < cols && 0 <= j < rows
    ensures 0 <= PointIndex(i, j, cols) < rows * cols
  {
    assert 0 <= i < cols - 1 && 0 <= j < rows - 1;
    Arith.MulNonNegative(j, cols);
    Arith.MulNonNegative(rows - 1 - j, cols);
    assert (rows - 1 - j) * cols == rows * cols - j * cols - cols;
  }

  /** With the image width as the row stride, distinct pixels get distinct slots. */
  lemma PointIndexInjective(i: int, j: int, i2: int, j2: int, cols: int)
    requires 0 <= i < cols && 0 <= i2 < cols && 0 <= j && 0 <= j2
    requires PointIndex(i, j, cols) == PointIndex(i2, j2, cols)
    ensures i == i2 && j == j2
  {
    Arith.DivModUnique(PointIndex(i, j, cols), cols, j, i);
    Arith.DivModUnique(PointIndex(i2, j2, cols), cols, j2, i2);
  }

  /** The program as written: the image has cols = e * outWidth columns and
      rows = e * outHeight rows (e is the point-cloud extrapolation factor),
      the point array has rows * cols slots, and the loops use the stride
      outWidth. Every slot they visit still lies inside the array. */
  lemma ClipBoxVisitsPoints(x: int, y: int, w: int, h: int, outWidth: int, outHeight: int, e: int, i: int, j: int)
    requires 1 <= e && 1 <= outWidth && 1 <= outHeight && 0 <= w && 0 <= h
    requires ClipBox(x, y, w, h, e * outWidth, e * outHeight).iLb <= i < ClipBox(x, y, w, h, e * outWidth, e * outHeight).iUb
    requires ClipBox(x, y, w, h, e * outWidth, e * outHeight).jLb <= j < ClipBox(x, y, w, h, e * outWidth, e * outHeight).jUb
    ensures 0 <= PointIndex(i, j, outWidth) < (e * outHeight) * (e * outWidth)
  {
    Arith.MulNonNegative(e - 1, outWidth);
    Arith.MulNonNegative(e - 1, outHeight);
    StrideBound(i, j, outWidth, e * outWidth, e * outHeight);
  }

  /** A slot with a stride no larger than the row length stays inside rows * cols. */
  lemma StrideBound(i: int, j: int, stride: int, cols: int, rows: int)
    requires 1 <= stride <= cols && 0 <= i < cols && 0 <= j < rows
    ensures 0 <= PointIndex(i, j, stride) < rows * cols
  {
    Arith.MulNonNegative(j, stride);
    Arith.MulNonNegative(rows - 1 - j, stride);
    Arith.MulNonNegative(rows - 1, cols - stride);
    assert (rows - 1 - j) * stride == (rows - 1) * stride - j * stride;
    assert (rows - 1) * (cols - stride) == (rows - 1) * cols - (rows - 1) * stride;
    assert (rows - 1) * cols == rows * cols - cols;
  }

  /** ... but for e >= 2 two different pixels of the image share a slot:
      column outWidth of row 0 and column 0 of row 1. */
  lemma PointSlotsCollide(outWidth: int, outHeight: int, e: int)
    requires 2 <= e && 1 <= outWidth && 1 <= outHeight
    ensures outWidth < e * outWidth && 1 < e * outHeight
    ensures PointIndex(outWidth, 0, outWidth) == PointIndex(0, 1, outWidth)
  {
    Arith.MulNonNegative(e - 2, outWidth);
    Arith.MulNonNegative(e - 2, outHeight);
  }

  /** A box lying strictly inside the image keeps its width and height. */
  lemma ClipBoxInside(x: int, y: int, w: int, h: int, cols: int, rows: int)
    requires 0 <= x && 0 <= w && x + w <= cols - 1
    requires 0 <= y && 0 <= h && y + h <= rows - 1
    ensures ClipBox(x, y, w, h, cols, rows) == Box(x, x + w, y, y + h)
  {
  }

  /** A box starting at or right of the last column is clipped to no columns,
      so the area the loop divides the sums by is zero. */
  lemma ClipBoxPastRightEdge(x: int, y: int, w: int, h: int, cols: int, rows: int)
    requires 1 <= cols && cols - 1 <= x && 0 <= w
    ensures ClipBox(x, y, w, h, cols, rows).iLb == ClipBox(x, y, w, h, cols, rows).iUb == cols - 1
  {
  }

  // ---------------------------------------------------------------------
  // YOLO_to_KITTI_labels

  /** The five detector classes that have a KITTI counterpart. */
  predicate IsMappedYoloLabel(y: string) {
    y == "car" || y == "truck" || y == "person" || y == "bicycle" || y == "train"
  }

  /** The KITTI labels the mapping can produce. */
  predicate IsKittiLabel(k: string) {
    k == "Car" || k == "Truck" || k == "Pedestrian" || k == "Cyclist" || k == "Tram" || k == "Misc"
  }

  /** Maps a detector label to a dataset label; every other label becomes "Misc". */
  function YoloToKittiLabel(y: string): (k: string)
    ensures IsKittiLabel(k)
    ensures k == "Misc" <==> !IsMappedYoloLabel(y)
  {
    if y == "car" then "Car"
    else if y == "truck" then "Truck"
    else if y == "person" then "Pedestrian"
    else if y == "bicycle" then "Cyclist"
    else if y == "train" then "Tram"
    else "Misc"
  }

  /** The five mapped labels and their dataset labels. */
  lemma YoloToKittiTable()
    ensures YoloToKittiLabel("car") == "Car"
    ensures YoloToKittiLabel("truck") == "Truck"
    ensures YoloToKittiLabel("person") == "Pedestrian"
    ensures YoloToKittiLabel("bicycle") == "Cyclist"
    ensures YoloToKittiLabel("train") == "Tram"
  {
  }

  /** The detector label a KITTI label came from; "Misc" has none. */
  function KittiToYoloLabel(k: string): (y: Option<string>)
    ensures y.Some? <==> IsKittiLabel(k) && k != "Misc"
    ensures y.Some? ==> IsMappedYoloLabel(y.value)
  {
    if k == "Car" then Some("car")
    else if k == "Truck" then Some("truck")
    else if k == "Pedestrian" then Some("person")
    else if k == "Cyclist" then Some("bicycle")
    else if k == "Tram" then Some("train")
    else None
  }

  /** The five mapped labels are recovered from their images. */
  lemma YoloKittiRoundTrip(y: string)
    requires IsMappedYoloLabel(y)
    ensures KittiToYoloLabel(YoloToKittiLabel(y)) == Some(y)
  {
  }

  /** Every label but "Misc" is the image of exactly the label KittiToYoloLabel gives. */
  lemma KittiYoloRoundTrip(k: string)
    requires IsKittiLabel(k) && k != "Misc"
    ensures YoloToKittiLabel(KittiToYoloLabel(k).value) == k
  {
  }

  /** Every KITTI label the mapping can produce is produced by some detector label. */
  lemma YoloToKittiOnto(k: string)
    requires IsKittiLabel(k)
    ensures exists y :: YoloToKittiLabel(y) == k
  {
    var y := if k == "Car" then "car"
      else if k == "Truck" then "truck"
      else if k == "Pedestrian" then "person"
      else if k == "Cyclist" then "bicycle"
      else if k == "Tram" then "train"
      else "";
    assert YoloToKittiLabel(y) == k;
  }

  /** Distinct mapped labels get distinct dataset labels. */
  lemma YoloToKittiInjective(y1: string, y2: string)
    requires IsMappedYoloLabel(y1) && IsMappedYoloLabel(y2)
    requires YoloToKittiLabel(y1) == YoloToKittiLabel(y2)
    ensures y1 == y2
  {
    YoloKittiRoundTrip(y1);
    YoloKittiRoundTrip(y2);
  }

  // ---------------------------------------------------------------------
  // Output file name of runProfiling

  /** A file name as std::string holds it: a sequence of bytes (UTF-8 for
      non-ASCII names), so size() and substr count bytes, not characters. */
  type Byte = Arith.Byte
  type Name = seq<Byte>

  /** Values of size_t are taken modulo 2^64. */
  const SizeModulus: int := 0x1_0000_0000_0000_0000

  /** std::string::substr(pos, count): the count is clamped to the bytes
      that remain after pos. */
  function Substr(s: Name, pos: int, count: int): (r: Name)
    requires 0 <= pos <= |s| && 0 <= count
    ensures |r| == if count < |s| - pos then count else |s| - pos
    ensures r == s[pos..pos + |r|]
  {
    if count < |s| - pos then s[pos..pos + count] else s[pos..]
  }

  /** "_disp.pgm" in ASCII. */
  const DispSuffix: Name := [0x5F, 0x64, 0x69, 0x73, 0x70, 0x2E, 0x70, 0x67, 0x6D]

  /** ".pgm" in ASCII. */
  const PgmExtension: Name := [0x2E, 0x70, 0x67, 0x6D]

  /** name.substr(0, name.size() - 4) + "_disp.pgm", where the subtraction is
      on size_t: for a name shorter than 4 bytes it wraps to a huge count and
      the whole name is kept. */
  function DisparityFileName(name: Name): (out: Name)
    requires |name| < SizeModulus
    ensures |name| >= 4 ==> |out| == |name| + 5 && out == name[..|name| - 4] + DispSuffix
    ensures |name| < 4 ==> out == name + DispSuffix
    ensures |out| >= |DispSuffix| && out[|out| - |DispSuffix|..] == DispSuffix
  {
    Substr(name, 0, (|name| - 4) % SizeModulus) + DispSuffix
  }

  /** The usual case: "stem.pgm" (or any 4-byte extension) becomes "stem_disp.pgm". */
  lemma DisparityFileNameOfExtension(stem: Name, ext: Name)
    requires |ext| == 4 && |stem| + 4 < SizeModulus
    ensures DisparityFileName(stem + ext) == stem + DispSuffix
  {
    assert (stem + ext)[..|stem|] == stem;
  }

  /** The rule counts bytes: "a€" is the four UTF-8 bytes 61 E2 82 AC, all of
      which are dropped; "€€" is E2 82 AC E2 82 AC, and dropping its last four
      bytes cuts the first "€" after its second byte. */
  lemma DisparityFileNameCountsBytes()
    ensures DisparityFileName([0x61, 0xE2, 0x82, 0xAC]) == DispSuffix
    ensures DisparityFileName([0xE2, 0x82, 0xAC, 0xE2, 0x82, 0xAC]) == [0xE2, 0x82] + DispSuffix
  {
  }

  /** Two names of at least 4 bytes share an output name exactly when
      they agree up to their last 4 bytes. */
  lemma DisparityFileNameInjective(a: Name, b: Name)
    requires 4 <= |a| < SizeModulus && 4 <= |b| < SizeModulus
    ensures DisparityFileName(a) == DisparityFileName(b) <==> a[..|a| - 4] == b[..|b| - 4]
  {
    var oa, ob := DisparityFileName(a), DisparityFileName(b);
    if oa == ob {
      assert |a| == |b|;
      assert oa[..|a| - 4] == a[..|a| - 4];
      assert ob[..|b| - 4] == b[..|b| - 4];
    }
  }

  /** Every name ending in "_disp.pgm" is the output name of some input name. */
  lemma DisparityFileNameOnto(out: Name)
    requires |DispSuffix| <= |out| < SizeModulus && out[|out| - |DispSuffix|..] == DispSuffix
    ensures exists name {:trigger DisparityFileName(name)} :: 4 <= |name| < SizeModulus && DisparityFileName(name) == out
  {
    var stem := out[..|out| - |DispSuffix|];
    var name := stem + PgmExtension;
    assert out == stem + DispSuffix;
    DisparityFileNameOfExtension(stem, PgmExtension);
    assert 4 <= |name| < SizeModulus && DisparityFileName(name) == out;
  }

  // ---------------------------------------------------------------------
  // Size check of runProfiling

  /** Width and height of a loaded image. */
  datatype ImageSize = ImageSize(width: int, height: int)

  /** The image pair passes the check of runProfiling (the negation of its
      error condition). */
  function SizesAccepted(i1: ImageSize, i2: ImageSize): (ok: bool)
    ensures ok <==> 0 < i1.width && 0 < i1.height && i1 == i2
  {
    !(i1.width <= 0 || i1.height <= 0 || i2.width <= 0 || i2.height <= 0 ||
      i1.width != i2.width || i1.height != i2.height)
  }

  /** The dims array handed to Elas::process: width, height, bytes per line. */
  datatype Dims = Dims(width: int, height: int, bpl: int)

  /** What a profiling run goes on to do once the check passes: the
      dimensions handed to the engine (bytes per line = width) and the two
      output file names. */
  datatype ProfilingRun = ProfilingRun(dims: Dims, output1: Name, output2: Name)

  /** runProfiling after loading: None when the size check rejects the pair
      (the run returns before any processing), otherwise the run it performs. */
  function Profile(file1: Name, file2: Name, i1: ImageSize, i2: ImageSize): (r: Option<ProfilingRun>)
    requires |file1| < SizeModulus && |file2| < SizeModulus
    ensures r.None? <==> !SizesAccepted(i1, i2)
    ensures r.Some? ==> 0 < r.value.dims.width == r.value.dims.bpl && 0 < r.value.dims.height
    ensures r.Some? ==> r.value.dims.width == i1.width && r.value.dims.height == i1.height
    ensures r.Some? ==> r.value.output1 == DisparityFileName(file1) && r.value.output2 == DisparityFileName(file2)
  {
    if i1.width <= 0 || i1.height <= 0 || i2.width <= 0 || i2.height <= 0 ||
       i1.width != i2.width || i1.height != i2.height
    then None
    else
      Some(ProfilingRun(Dims(i1.width, i1.height, i1.width),
                        DisparityFileName(file1), DisparityFileName(file2)))
  }
}
