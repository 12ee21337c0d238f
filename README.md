# Stereo descriptor packing and front-end helpers, in Dafny

This project models two parts of a stereo depth-perception system built on
libelas (LIBrary for Efficient LArge-scale Stereo matching).

- **`ElasDescriptor`** (`descriptor.dfy`) models `Descriptor::createDescriptor`.
  It takes two gradient planes `du` and `dv`, the horizontal and vertical Sobel
  responses. Each plane is `bpl * height` bytes with row stride `bpl`. For every
  interior pixel it packs sixteen of their samples into a
  `16 * width * height` byte buffer.
  - The buffer is the array field `desc` of class `Descriptor`.
  - `CreateDescriptor` fills it with nested loops, in place. Full resolution
    covers rows 3 .. height-4. Half resolution covers only the even rows
    4, 6, … below height-3.
  - The method is proved against the specification function `Expected`. For
    each byte, `Expected` gives the value the byte must hold afterwards. A
    byte of a covered pixel holds `DescByte`, its footprint sample. Every
    other byte keeps its old value.
  - The footprint is the table `Layout`: for each of the sixteen bytes, a
    plane and a row and column offset.
- **`StereoVision`** (`stereo_vision.dfy`) models the pure helpers of the front
  end:
  - the integer clamp `constrain`, and the bounding-box clip built from it;
  - the mapping from YOLO detector labels to KITTI dataset labels;
  - the output file name of a profiling run;
  - the image-pair size check. If the check fails, the run stops before any
    processing.
- **`Arith`** (`arith.dfy`) holds the byte type and the integer facts both
  parts use: absolute value, non-negative products, and uniqueness of
  quotient and remainder.

The 16-byte layout, as the code writes it:

| bytes | plane | (row, column) offsets from the pixel |
|---|---|---|
| 0 | du | (-2,0) |
| 1-3 | du | (-1,-2) (-1,0) (-1,+2) |
| 4-7 | du | (0,-1) (0,0) (0,0) (0,+1) |
| 8-10 | du | (+1,-2) (+1,0) (+1,+2) |
| 11 | du | (+2,0) |
| 12-15 | dv | (-1,0) (0,-1) (0,+1) (+1,0) |

The ASCII diagram in the comment at `src/common_includes/elas/descriptor.cpp:63-73`
does not match this table. For rows v-1 and v+1 it shows columns u-1, u, u+1,
but the code reads u-2, u, u+2. For row v it shows five columns, but the code
reads four samples, with the centre twice. The model follows the code.

## Model

| member | source | states |
|---|---|---|
| ElasDescriptor.Layout | src/common_includes/elas/descriptor.cpp:76-91 | The footprint table: for byte k, the plane and the (row, column) offset from the pixel that the k-th store of the loop body reads. Its definition is the layout table above; LayoutShape states its properties. |
| ElasDescriptor.DescByte | src/common_includes/elas/descriptor.cpp:76-91 | Byte k of the descriptor of pixel (u, v): the entry of Layout(k)'s plane at row v+dr, column u+dc. Its definition is the per-byte read; SourceTaps ties it to the code's addresses. |
| ElasDescriptor.Expected | src/common_includes/elas/descriptor.cpp:45-126 | The buffer after createDescriptor, byte by byte: a byte of a covered pixel holds DescByte of its owner, every other byte its previous value. CreateDescriptor is proved against it. |
| ElasDescriptor.LayoutShape | src/common_includes/elas/descriptor.cpp:76-91 | Bytes 0-11 sample du and bytes 12-15 sample dv. Every offset lies in the 5x5 window. Bytes 5 and 6 are both the centre du. The dv samples are the four direct neighbours. |
| ElasDescriptor.Covered | src/common_includes/elas/descriptor.cpp:52-105 | The pixels that get a descriptor are the loops' (u, v) ranges in each mode: lines 52 and 74 for half resolution, lines 98 and 105 for full resolution. Every covered pixel of a valid geometry has its whole 5x5 window inside the planes. |
| ElasDescriptor.RowAddresses | src/common_includes/elas/descriptor.cpp:53-57 | For a row v with 2 <= v < height-2, the row addresses addr_v0 .. addr_v4 lie within the plane, and a full row stride remains after addr_v4. |
| ElasDescriptor.TapInBounds | src/common_includes/elas/descriptor.cpp:76-91 | Every read of a covered pixel's descriptor has an index in [0, bpl*height). |
| ElasDescriptor.SourceTaps | src/common_includes/elas/descriptor.cpp:76-91 | The sixteen loads, through addr_v0 .. addr_v4 as the code computes them, are exactly the Layout samples of bytes 0-15, in order. |
| ElasDescriptor.TapsAbove | src/common_includes/elas/descriptor.cpp:76-79 | Bytes 0-3 are du at addr_v0+u, addr_v1+u-2, addr_v1+u and addr_v1+u+2. |
| ElasDescriptor.TapsCentre | src/common_includes/elas/descriptor.cpp:80-83 | Bytes 4-7 are du at addr_v2+u-1, addr_v2+u (twice) and addr_v2+u+1. |
| ElasDescriptor.TapsBelow | src/common_includes/elas/descriptor.cpp:84-87 | Bytes 8-11 are du at addr_v3+u-2, addr_v3+u, addr_v3+u+2 and addr_v4+u. |
| ElasDescriptor.TapsDv | src/common_includes/elas/descriptor.cpp:88-91 | Bytes 12-15 are dv at addr_v1+u, addr_v2+u-1, addr_v2+u+1 and addr_v3+u. |
| ElasDescriptor.ByteOwner | src/common_includes/elas/descriptor.cpp:75 | Byte i belongs to pixel (u, v) exactly when (v*width+u)*16 <= i < (v*width+u)*16+16. It is then byte i % 16 of that pixel's descriptor. |
| ElasDescriptor.WritesInBounds | src/common_includes/elas/descriptor.cpp:31 | Since width <= bpl, the sixteen bytes of every covered pixel lie inside the 16*width*height buffer. |
| ElasDescriptor.PixelBytes | src/common_includes/elas/descriptor.cpp:75-91 | Byte k of covered pixel (u, v) is written, and its expected value is sample k of that pixel's descriptor. |
| ElasDescriptor.HalfAgreesWithFull | src/common_includes/elas/descriptor.cpp:52-122 | Any byte half resolution writes lies on an even row >= 4. Full resolution writes it too, with the same value. |
| ElasDescriptor.DescByteLocal | src/common_includes/elas/descriptor.cpp:53-91 | The descriptor of (u, v) depends only on the du and dv entries in rows v-2 .. v+2 and columns u-2 .. u+2. |
| ElasDescriptor.Descriptor.constructor | src/common_includes/elas/descriptor.cpp:29-39 | Allocates a fresh 16*width*height buffer. Every covered pixel's bytes then hold its descriptor, and every other byte holds 0. |
| ElasDescriptor.Descriptor.CreateDescriptor | src/common_includes/elas/descriptor.cpp:45-126 | Afterwards each byte of a covered pixel of the chosen mode holds its descriptor sample. Every other byte is unchanged. |
| ElasDescriptor.Descriptor.FillRow | src/common_includes/elas/descriptor.cpp:74-92 | The inner loop over u fills the covered pixels of row v and leaves every other byte unchanged. |
| ElasDescriptor.Descriptor.StoreAndAccount | src/common_includes/elas/descriptor.cpp:75-91 | One iteration changes exactly the bytes owned by pixel (u, v). Each becomes sample i % 16 of its descriptor. |
| ElasDescriptor.Descriptor.StorePixel | src/common_includes/elas/descriptor.cpp:75-91 | The sixteen stores at base .. base+15 receive samples 0 .. 15; the source's pointer increments are folded into one simultaneous assignment, which is equivalent because the stores go to desc and the loads come from du and dv. No other byte changes. |
| StereoVision.Constrain | src/omp_includes/main/stereo_vision.cpp:117-124 | For lb <= ub the result lies in [lb, ub]. An a already in range is returned unchanged. The result is always one of a, lb, ub. |
| StereoVision.ConstrainIdempotent | src/omp_includes/main/stereo_vision.cpp:117-124 | For lb <= ub, clamping twice equals clamping once. |
| StereoVision.ConstrainMonotone | src/omp_includes/main/stereo_vision.cpp:117-124 | For lb <= ub, the clamp is monotone in a. |
| StereoVision.ConstrainNearest | src/omp_includes/main/stereo_vision.cpp:117-124 | The result is at least as close to a as any point of [lb, ub]. |
| StereoVision.ConstrainEmptyRange | src/omp_includes/main/stereo_vision.cpp:117-124 | With lb > ub the clamp is not idempotent: constrain(5,0,-1) = -1, and clamping -1 again gives 0. |
| StereoVision.ClipBox | src/omp_includes/main/stereo_vision.cpp:265-266 | For an image with at least one column and w >= 0, 0 <= i_lb <= i_ub <= cols-1. The same holds for j with at least one row and h >= 0. |
| StereoVision.ClipBoxVisitsImage | src/omp_includes/main/stereo_vision.cpp:265-274 | Every (i, j) the summation loops visit is a pixel of the image. With the image width as row stride (the corrected index of the finding below), its slot j*cols+i lies in [0, rows*cols). |
| StereoVision.PointIndexInjective | src/omp_includes/main/stereo_vision.cpp:256-258 | With the image width as row stride, distinct pixels get distinct slots of the point array. |
| StereoVision.ClipBoxVisitsPoints | src/omp_includes/main/stereo_vision.cpp:265-274 | As written, with cols = e*out_width, rows = e*out_height and stride out_width, every slot j*out_width+i the loops visit lies in the rows*cols array allocated at line 94. |
| StereoVision.PointSlotsCollide | src/omp_includes/main/stereo_vision.cpp:256-258 | As written, for an extrapolation factor e >= 2, pixel (out_width, 0) and pixel (0, 1) of the image share slot out_width. |
| StereoVision.ClipBoxInside | src/omp_includes/main/stereo_vision.cpp:265-266 | A box with x >= 0 and x+w <= cols-1 is kept as it is, and likewise for y and h. |
| StereoVision.ClipBoxPastRightEdge | src/omp_includes/main/stereo_vision.cpp:265-277 | A box with x >= cols-1 is clipped to zero columns, so the divisor (i_ub-i_lb)*(j_ub-j_lb) is zero. |
| StereoVision.YoloToKittiLabel | src/omp_includes/main/stereo_vision.cpp:175-190 | The result is one of the six KITTI labels. It is "Misc" exactly when the input is none of car, truck, person, bicycle, train. |
| StereoVision.YoloToKittiTable | src/omp_includes/main/stereo_vision.cpp:177-187 | car, truck, person, bicycle and train map to Car, Truck, Pedestrian, Cyclist and Tram. |
| StereoVision.KittiToYoloLabel | src/omp_includes/main/stereo_vision.cpp:175-190 | The inverse mapping. It is defined exactly on the five labels other than "Misc", and returns the mapped detector labels. |
| StereoVision.YoloKittiRoundTrip | src/omp_includes/main/stereo_vision.cpp:177-187 | Each of the five mapped detector labels is recovered from its KITTI label. |
| StereoVision.KittiYoloRoundTrip | src/omp_includes/main/stereo_vision.cpp:177-187 | Each KITTI label other than "Misc" is the image of its inverse. |
| StereoVision.YoloToKittiOnto | src/omp_includes/main/stereo_vision.cpp:175-190 | Each of the six KITTI labels, "Misc" included, is the mapping of some detector label. |
| StereoVision.YoloToKittiInjective | src/omp_includes/main/stereo_vision.cpp:177-187 | Distinct mapped detector labels get distinct KITTI labels. |
| StereoVision.Substr | src/omp_includes/main/stereo_vision.cpp:745 | std::string::substr(pos, count) returns min(count, size-pos) bytes starting at pos: the count is clamped to what remains. |
| StereoVision.DisparityFileName | src/omp_includes/main/stereo_vision.cpp:745-746 | Names are byte sequences, as size() counts bytes. For a name of at least 4 bytes the output is the name without its last 4 bytes plus "_disp.pgm", with length +5. For a shorter name the size_t count wraps and the whole name is kept. The output always ends with "_disp.pgm". |
| StereoVision.DisparityFileNameOfExtension | src/omp_includes/main/stereo_vision.cpp:745-746 | stem plus any 4-byte extension becomes stem + "_disp.pgm". |
| StereoVision.DisparityFileNameCountsBytes | src/omp_includes/main/stereo_vision.cpp:745-746 | "a€" (4 UTF-8 bytes) becomes just "_disp.pgm", and "€€" is cut inside its first character. |
| StereoVision.DisparityFileNameInjective | src/omp_includes/main/stereo_vision.cpp:745-746 | Two names of at least 4 bytes get the same output name exactly when they agree except for their last 4 bytes. |
| StereoVision.DisparityFileNameOnto | src/omp_includes/main/stereo_vision.cpp:745-746 | Every name ending in "_disp.pgm" is the output name of some input name of at least 4 bytes. |
| StereoVision.SizesAccepted | src/omp_includes/main/stereo_vision.cpp:701-702 | The pair passes exactly when the first image has positive width and height and both images have the same dimensions. |
| StereoVision.Profile | src/omp_includes/main/stereo_vision.cpp:700-746 | A rejected pair yields no run at all. An accepted pair yields the engine dimensions {width, height, width}, with positive width and height and bytes per line equal to width, and the two disparity output names. |

## Left out

- `filter::sobel3x3` is not part of this model. Its output planes `du` and
  `dv` are inputs of the constructor and of `CreateDescriptor`. Because they
  are values, "inputs unchanged" holds by construction.
- `_mm_malloc` / `_mm_free`: alignment and freeing are not modelled. The model
  zero-fills the new buffer, where `_mm_malloc` leaves it undefined, so the
  constructor's "every other byte holds 0" is a property of the model only.
- ElasDescriptor.Descriptor.CreateDescriptor: the source's half and full loops are written as
  one loop whose start row and step depend on the mode. The bodies are the same
  in the source.
- ElasDescriptor.Descriptor.CreateDescriptor: int32_t overflow of `v * bpl`,
  `(v * width + u) * 16` and `16 * width * height` is not modelled. These are
  signed 32-bit products, so the model's unbounded integers match the source
  only while `16 * width * height` and `bpl * height` stay below 2^31.
- The addr_v0 .. addr_v4 row addresses are uint32_t in the source. The model
  uses their integer values, which are never negative for the rows read.
- Constrain: the `int` arguments are unbounded in the model. `object.x + object.w`
  can overflow int in the source, and that overflow is not modelled.
- ClipBoxVisitsImage: uses the image width `cols` as the row stride of
  `points`. The source uses `out_width`, while the image is resized to
  `point_cloud_width = out_width * point_cloud_extrapolation` columns
  (stereo_vision.cpp:226, 517). The two agree only for the default factor 1;
  ClipBoxVisitsPoints and PointSlotsCollide model the stride as written (see
  "## Findings").
- The YOLO and KITTI labels are compared as Dafny strings. Equality of two
  labels does not depend on their encoding, so no byte model is needed there.
- The averaging of the summed points and the division by the box area are
  floating point and are left out. ClipBoxPastRightEdge only shows that the
  divisor can be zero.
- `runProfiling`: image loading and saving, the `Elas::process` call, the
  disparity scaling loop and the floating-point conversion are I/O or floating
  point over the engine behind `elas.h` (stereo_vision.cpp:27), which this
  project does not model. `Profile` models only the size check, the
  dimensions handed on and the output names.
- The rest of the disparity pipeline is not part of this model: support
  matching, triangulation, plane fitting, dense matching and post-processing.
  Their code lives in the engine behind `elas.h`, outside the two modelled files.
- The CUDA class in `elas_gpu.h` and the YOLO declarations are declarations
  only; `setup.py` is packaging.
- The point-cloud publication, the rotation and translation matrices, the
  rectification maps, the OpenMP loop, the pthread graphics thread, the
  `std::async` detector call and command-line parsing are floating point, I/O,
  UI or concurrency and are left out.

## Findings

| source | as written | input that shows it | evidently intended | confidence | as-written member | corrected member |
|---|---|---|---|---|---|---|
| src/omp_includes/main/stereo_vision.cpp:256-258 | `points[j * out_width + i]`, while the loops run over the `point_cloud_width = out_width * point_cloud_extrapolation` columns of the resized image | `-e 2` with out_width = 2: pixels (2, 0) and (0, 1) both write slot 2, so one of the two points is lost, and the box sums at lines 271-273 read the mixed slots | `points[j * point_cloud_width + i]`, one slot per pixel | medium, not executed | StereoVision.PointSlotsCollide | StereoVision.PointIndexInjective |
