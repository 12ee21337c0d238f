/**
 * The 16-byte gradient descriptor of libelas (class Descriptor).
 *
 * Two gradient planes du (horizontal Sobel response) and dv (vertical Sobel
 * response), each `bpl * height` bytes with row stride `bpl`, are sampled on a
 * fixed footprint around every interior pixel, and the sixteen samples are
 * stored as bytes (v * width + u) * 16 .. (v * width + u) * 16 + 15 of a
 * buffer of 16 * width * height bytes. The Sobel filter itself is not part of
 * this model: its two output planes are inputs.
 */
module ElasDescriptor {
  import opened Arith

  /** Image width and height in pixels and the row stride of the gradient planes. */
  datatype Geometry = Geometry(width: int, height: int, bpl: int)
  {
    /** What every caller provides: a stride at least as wide as a row. */
    predicate Valid() {
      0 <= width <= bpl && 0 <= height
    }

    /** Number of bytes of each gradient plane. */
    function PlaneSize(): int {
      bpl * height
    }

    /** Number of bytes of the descriptor buffer. */
    function DescSize(): int {
      16 * width * height
    }
  }

  /** Which gradient plane a descriptor byte is taken from. */
  datatype Plane = Du | Dv

  /** One sample of the footprint: a plane and a (row, column) offset from the centre pixel. */
  datatype Tap = Tap(plane: Plane, dr: int, dc: int)

  /** The sixteen samples of one descriptor, in byte order. */
  function Layout(k: int): Tap
    requires 0 <= k < 16
  {
    match k
    case 0 => Tap(Du, -2, 0)
    case 1 => Tap(Du, -1, -2)
    case 2 => Tap(Du, -1, 0)
    case 3 => Tap(Du, -1, 2)
    case 4 => Tap(Du, 0, -1)
    case 5 => Tap(Du, 0, 0)
    case 6 => Tap(Du, 0, 0)
    case 7 => Tap(Du, 0, 1)
    case 8 => Tap(Du, 1, -2)
    case 9 => Tap(Du, 1, 0)
    case 10 => Tap(Du, 1, 2)
    case 11 => Tap(Du, 2, 0)
    case 12 => Tap(Dv, -1, 0)
    case 13 => Tap(Dv, 0, -1)
    case 14 => Tap(Dv, 0, 1)
    case _ => Tap(Dv, 1, 0)
  }

  /** Bytes 0-11 sample du, bytes 12-15 sample dv; every sample lies in the
      5x5 window around the centre; bytes 5 and 6 both hold the centre du;
      the dv samples are the four direct neighbours of the centre. */
  lemma LayoutShape()
    ensures forall k :: 0 <= k < 16 ==> -2 <= Layout(k).dr <= 2 && -2 <= Layout(k).dc <= 2
    ensures forall k :: 0 <= k < 16 ==> (Layout(k).plane == Du <==> k < 12)
    ensures Layout(5) == Layout(6) == Tap(Du, 0, 0)
    ensures forall k :: 12 <= k < 16 ==> Abs(Layout(k).dr) + Abs(Layout(k).dc) == 1
  {
  }

  /** The pixels that get a descriptor: columns 3 .. width-4 of rows 3 .. height-4
      (full resolution) or of the even rows 4, 6, ... below height-3 (half resolution). */
  function Covered(g: Geometry, half: bool, u: int, v: int): (b: bool)
    ensures b && g.Valid() ==> Supported(g, u, v)
  {
    3 <= u < g.width - 3 &&
    if half then 4 <= v < g.height - 3 && v % 2 == 0 else 3 <= v < g.height - 3
  }

  /** The 5x5 window around (u, v) lies within the rows of the planes and within one stride. */
  predicate Supported(g: Geometry, u: int, v: int) {
    2 <= v && v + 2 < g.height && 2 <= u && u + 2 < g.bpl
  }

  /** Flat index into a gradient plane of the sample `t` around pixel (u, v). */
  function TapIndex(g: Geometry, u: int, v: int, t: Tap): int {
    v * g.bpl + RowOffset(g.bpl, t.dr) + u + t.dc
  }

  /** dr * bpl, written out as a case split over the five row offsets the
      footprint uses, so that the solver sees only linear arithmetic in bpl;
      the last branch is never taken by a Layout sample. */
  function RowOffset(bpl: int, dr: int): int {
    if dr == -2 then -2 * bpl
    else if dr == -1 then -bpl
    else if dr == 0 then 0
    else if dr == 1 then bpl
    else if dr == 2 then 2 * bpl
    else dr * bpl
  }

  /** The five row start addresses v-2 .. v+2 lie in the plane. */
  lemma RowAddresses(g: Geometry, v: int)
    requires g.Valid() && 2 <= v && v + 2 < g.height
    ensures 2 * g.bpl <= v * g.bpl
    ensures v * g.bpl + 3 * g.bpl <= g.PlaneSize()
  {
    calc {
      v * g.bpl - 2 * g.bpl;
      (v - 2) * g.bpl;
    >= { MulNonNegative(v - 2, g.bpl); }
      0;
    }
    calc {
      g.PlaneSize() - (v * g.bpl + 3 * g.bpl);
      (g.height - v - 3) * g.bpl;
    >= { MulNonNegative(g.height - v - 3, g.bpl); }
      0;
    }
  }

  /** Every read of a supported pixel's descriptor falls inside the plane. */
  lemma TapInBounds(g: Geometry, u: int, v: int, k: int)
    requires g.Valid() && Supported(g, u, v) && 0 <= k < 16
    ensures 0 <= TapIndex(g, u, v, Layout(k)) < g.PlaneSize()
  {
    RowAddresses(g, v);
    LayoutShape();
  }

  /** Byte k of the descriptor of pixel (u, v). */
  function DescByte(g: Geometry, du: seq<Byte>, dv: seq<Byte>, u: int, v: int, k: int): Byte
    requires g.Valid() && |du| == g.PlaneSize() && |dv| == g.PlaneSize()
    requires Supported(g, u, v) && 0 <= k < 16
  {
    TapInBounds(g, u, v, k);
    var t := Layout(k);
    var idx := TapIndex(g, u, v, t);
    if t.plane == Du then du[idx] else dv[idx]
  }

  /** The sixteen descriptor bytes, read through the five row start
      addresses the way createDescriptor computes them. */
  lemma SourceTaps(g: Geometry, du: seq<Byte>, dv: seq<Byte>, u: int, v: int,
                   addrV0: int, addrV1: int, addrV2: int, addrV3: int, addrV4: int)
    requires g.Valid() && |du| == g.PlaneSize() && |dv| == g.PlaneSize() && Supported(g, u, v)
    requires addrV2 == v * g.bpl && addrV0 == addrV2 - 2 * g.bpl && addrV1 == addrV2 - 1 * g.bpl
    requires addrV3 == addrV2 + 1 * g.bpl && addrV4 == addrV2 + 2 * g.bpl
    requires 0 <= addrV0 && addrV4 + g.bpl <= g.PlaneSize()
    ensures DescByte(g, du, dv, u, v, 0) == du[addrV0 + u + 0]
    ensures DescByte(g, du, dv, u, v, 1) == du[addrV1 + u - 2]
    ensures DescByte(g, du, dv, u, v, 2) == du[addrV1 + u + 0]
    ensures DescByte(g, du, dv, u, v, 3) == du[addrV1 + u + 2]
    ensures DescByte(g, du, dv, u, v, 4) == du[addrV2 + u - 1]
    ensures DescByte(g, du, dv, u, v, 5) == du[addrV2 + u + 0]
    ensures DescByte(g, du, dv, u, v, 6) == du[addrV2 + u + 0]
    ensures DescByte(g, du, dv, u, v, 7) == du[addrV2 + u + 1]
    ensures DescByte(g, du, dv, u, v, 8) == du[addrV3 + u - 2]
    ensures DescByte(g, du, dv, u, v, 9) == du[addrV3 + u + 0]
    ensures DescByte(g, du, dv, u, v, 10) == du[addrV3 + u + 2]
    ensures DescByte(g, du, dv, u, v, 11) == du[addrV4 + u + 0]
    ensures DescByte(g, du, dv, u, v, 12) == dv[addrV1 + u + 0]
    ensures DescByte(g, du, dv, u, v, 13) == dv[addrV2 + u - 1]
    ensures DescByte(g, du, dv, u, v, 14) == dv[addrV2 + u + 1]
    ensures DescByte(g, du, dv, u, v, 15) == dv[addrV3 + u + 0]
  {
    TapsAbove(g, du, dv, u, v, addrV0, addrV1, addrV2, addrV3, addrV4);
    TapsCentre(g, du, dv, u, v, addrV0, addrV1, addrV2, addrV3, addrV4);
    TapsBelow(g, du, dv, u, v, addrV0, addrV1, addrV2, addrV3, addrV4);
    TapsDv(g, du, dv, u, v, addrV0, addrV1, addrV2, addrV3, addrV4);
  }

  /** Bytes 0-3: du on rows v-2 and v-1. */
  lemma TapsAbove(g: Geometry, du: seq<Byte>, dv: seq<Byte>, u: int, v: int,
                   addrV0: int, addrV1: int, addrV2: int, addrV3: int, addrV4: int)
    requires g.Valid() && |du| == g.PlaneSize() && |dv| == g.PlaneSize() && Supported(g, u, v)
    requires addrV2 == v * g.bpl && addrV0 == addrV2 - 2 * g.bpl && addrV1 == addrV2 - 1 * g.bpl
    requires addrV3 == addrV2 + 1 * g.bpl && addrV4 == addrV2 + 2 * g.bpl
    requires 0 <= addrV0 && addrV4 + g.bpl <= g.PlaneSize()
    ensures DescByte(g, du, dv, u, v, 0) == du[addrV0 + u + 0]
    ensures DescByte(g, du, dv, u, v, 1) == du[addrV1 + u - 2]
    ensures DescByte(g, du, dv, u, v, 2) == du[addrV1 + u + 0]
    ensures DescByte(g, du, dv, u, v, 3) == du[addrV1 + u + 2]
  {
  }

  /** Bytes 4-7: du on row v. */
  lemma TapsCentre(g: Geometry, du: seq<Byte>, dv: seq<Byte>, u: int, v: int,
                   addrV0: int, addrV1: int, addrV2: int, addrV3: int, addrV4: int)
    requires g.Valid() && |du| == g.PlaneSize() && |dv| == g.PlaneSize() && Supported(g, u, v)
    requires addrV2 == v * g.bpl && addrV0 == addrV2 - 2 * g.bpl && addrV1 == addrV2 - 1 * g.bpl
    requires addrV3 == addrV2 + 1 * g.bpl && addrV4 == addrV2 + 2 * g.bpl
    requires 0 <= addrV0 && addrV4 + g.bpl <= g.PlaneSize()
    ensures DescByte(g, du, dv, u, v, 4) == du[addrV2 + u - 1]
    ensures DescByte(g, du, dv, u, v, 5) == du[addrV2 + u + 0]
    ensures DescByte(g, du, dv, u, v, 6) == du[addrV2 + u + 0]
    ensures DescByte(g, du, dv, u, v, 7) == du[addrV2 + u + 1]
  {
  }

  /** Bytes 8-11: du on rows v+1 and v+2. */
  lemma TapsBelow(g: Geometry, du: seq<Byte>, dv: seq<Byte>, u: int, v: int,
                   addrV0: int, addrV1: int, addrV2: int, addrV3: int, addrV4: int)
    requires g.Valid() && |du| == g.PlaneSize() && |dv| == g.PlaneSize() && Supported(g, u, v)
    requires addrV2 == v * g.bpl && addrV0 == addrV2 - 2 * g.bpl && addrV1 == addrV2 - 1 * g.bpl
    requires addrV3 == addrV2 + 1 * g.bpl && addrV4 == addrV2 + 2 * g.bpl
    requires 0 <= addrV0 && addrV4 + g.bpl <= g.PlaneSize()
    ensures DescByte(g, du, dv, u, v, 8) == du[addrV3 + u - 2]
    ensures DescByte(g, du, dv, u, v, 9) == du[addrV3 + u + 0]
    ensures DescByte(g, du, dv, u, v, 10) == du[addrV3 + u + 2]
    ensures DescByte(g, du, dv, u, v, 11) == du[addrV4 + u + 0]
  {
  }

  /** Bytes 12-15: dv on rows v-1, v and v+1. */
  lemma TapsDv(g: Geometry, du: seq<Byte>, dv: seq<Byte>, u: int, v: int,
                   addrV0: int, addrV1: int, addrV2: int, addrV3: int, addrV4: int)
    requires g.Valid() && |du| == g.PlaneSize() && |dv| == g.PlaneSize() && Supported(g, u, v)
    requires addrV2 == v * g.bpl && addrV0 == addrV2 - 2 * g.bpl && addrV1 == addrV2 - 1 * g.bpl
    requires addrV3 == addrV2 + 1 * g.bpl && addrV4 == addrV2 + 2 * g.bpl
    requires 0 <= addrV0 && addrV4 + g.bpl <= g.PlaneSize()
    ensures DescByte(g, du, dv, u, v, 12) == dv[addrV1 + u + 0]
    ensures DescByte(g, du, dv, u, v, 13) == dv[addrV2 + u - 1]
    ensures DescByte(g, du, dv, u, v, 14) == dv[addrV2 + u + 1]
    ensures DescByte(g, du, dv, u, v, 15) == dv[addrV3 + u + 0]
  {
  }

  /** The case split on the byte index that lets the `forall` store of
      StorePixel unfold Layout entry by entry. */
  lemma Sixteen(k: int)
    requires 0 <= k < 16
    ensures k == 0 || k == 1 || k == 2 || k == 3 || k == 4 || k == 5 || k == 6 || k == 7 ||
            k == 8 || k == 9 || k == 10 || k == 11 || k == 12 || k == 13 || k == 14 || k == 15
  {
  }

  /** First byte of the descriptor of pixel (u, v). */
  function PixelBase(g: Geometry, u: int, v: int): int {
    (v * g.width + u) * 16
  }

  /** Row and column of the pixel that byte i of the buffer belongs to. */
  function PixelRow(g: Geometry, i: int): int
    requires g.width > 0
  {
    i / 16 / g.width
  }

  function PixelCol(g: Geometry, i: int): int
    requires g.width > 0
  {
    i / 16 % g.width
  }

  /** Byte i belongs to a pixel that gets a descriptor. */
  predicate Written(g: Geometry, half: bool, i: int) {
    0 < g.width && 0 <= i && Covered(g, half, PixelCol(g, i), PixelRow(g, i))
  }

  /** The content of byte i after CreateDescriptor, for a buffer that held `prev`. */
  function Expected(g: Geometry, half: bool, du: seq<Byte>, dv: seq<Byte>, prev: seq<Byte>, i: int): Byte
    requires g.Valid() && |du| == g.PlaneSize() && |dv| == g.PlaneSize()
    requires 0 <= i < |prev|
  {
    if Written(g, half, i) then DescByte(g, du, dv, PixelCol(g, i), PixelRow(g, i), i % 16) else prev[i]
  }

  /** Byte i belongs to pixel (u, v) exactly when it is one of the sixteen
      bytes from PixelBase(g, u, v), and then it is byte i - PixelBase of that pixel. */
  lemma ByteOwner(g: Geometry, u: int, v: int, i: int)
    requires 0 <= u < g.width && 0 <= v && 0 <= i
    ensures (PixelRow(g, i) == v && PixelCol(g, i) == u) <==> PixelBase(g, u, v) <= i < PixelBase(g, u, v) + 16
    ensures PixelBase(g, u, v) <= i < PixelBase(g, u, v) + 16 ==> i % 16 == i - PixelBase(g, u, v)
  {
    var p := i / 16;
    var base := PixelBase(g, u, v);
    if base <= i < base + 16 {
      DivModUnique(i, 16, v * g.width + u, i - base);
      DivModUnique(p, g.width, v, u);
    }
    if PixelRow(g, i) == v && PixelCol(g, i) == u {
      assert p == v * g.width + u;
    }
  }

  /** The descriptor bytes of a covered pixel lie inside the 16 * width * height buffer. */
  lemma WritesInBounds(g: Geometry, half: bool, u: int, v: int)
    requires g.Valid() && Covered(g, half, u, v)
    ensures 0 <= PixelBase(g, u, v)
    ensures PixelBase(g, u, v) + 16 <= g.DescSize()
  {
    MulNonNegative(v, g.width);
    MulNonNegative(g.height - v - 1, g.width);
    assert v * g.width + u < g.width * g.height by {
      assert (g.height - v - 1) * g.width == g.width * g.height - v * g.width - g.width;
    }
  }

  /** The sixteen bytes of a covered pixel are the ones CreateDescriptor fills
      for it, and byte k of them is byte k of its descriptor. */
  lemma PixelBytes(g: Geometry, half: bool, du: seq<Byte>, dv: seq<Byte>, prev: seq<Byte>, u: int, v: int, k: int)
    requires g.Valid() && |du| == g.PlaneSize() && |dv| == g.PlaneSize() && |prev| == g.DescSize()
    requires Covered(g, half, u, v) && 0 <= k < 16
    ensures 0 <= PixelBase(g, u, v) + k < |prev|
    ensures Written(g, half, PixelBase(g, u, v) + k)
    ensures Expected(g, half, du, dv, prev, PixelBase(g, u, v) + k) == DescByte(g, du, dv, u, v, k)
  {
    WritesInBounds(g, half, u, v);
    ByteOwner(g, u, v, PixelBase(g, u, v) + k);
  }

  /** Every byte that half resolution writes, full resolution writes with the
      same value; half resolution writes only even rows from 4 on. */
  lemma HalfAgreesWithFull(g: Geometry, du: seq<Byte>, dv: seq<Byte>, prev: seq<Byte>, i: int)
    requires g.Valid() && |du| == g.PlaneSize() && |dv| == g.PlaneSize()
    requires 0 <= i < |prev| && Written(g, true, i)
    ensures Written(g, false, i)
    ensures PixelRow(g, i) % 2 == 0 && 4 <= PixelRow(g, i)
    ensures Expected(g, true, du, dv, prev, i) == Expected(g, false, du, dv, prev, i)
  {
  }

  /** Plane index i lies in the 5x5 window of rows v-2 .. v+2 and columns u-2 .. u+2. */
  predicate InWindow(g: Geometry, u: int, v: int, i: int)
    requires g.bpl > 0
  {
    v - 2 <= i / g.bpl <= v + 2 && u - 2 <= i % g.bpl <= u + 2
  }

  /** Locality: the descriptor of (u, v) depends only on the du and dv entries of its 5x5 window. */
  lemma {:induction false} DescByteLocal(g: Geometry, du: seq<Byte>, dv: seq<Byte>, du': seq<Byte>, dv': seq<Byte>, u: int, v: int, k: int)
    requires g.Valid() && Supported(g, u, v) && 0 <= k < 16
    requires |du| == |dv| == |du'| == |dv'| == g.PlaneSize()
    requires forall i :: 0 <= i < g.PlaneSize() && InWindow(g, u, v, i) ==> du[i] == du'[i] && dv[i] == dv'[i]
    ensures DescByte(g, du, dv, u, v, k) == DescByte(g, du', dv', u, v, k)
  {
    var t := Layout(k);
    LayoutShape();
    TapInBounds(g, u, v, k);
    var idx := TapIndex(g, u, v, t);
    DivModUnique(idx, g.bpl, v + t.dr, u + t.dc);
    assert InWindow(g, u, v, idx);
  }

  class Descriptor {
    /** The descriptor buffer, 16 bytes per pixel. */
    var desc: array<Byte>

    /** Allocates the 16 * width * height buffer and fills it from the Sobel
        planes du and dv. The model starts from a zeroed buffer. */
    constructor (du: seq<Byte>, dv: seq<Byte>, g: Geometry, half: bool)
      requires g.Valid() && |du| == g.PlaneSize() && |dv| == g.PlaneSize()
      ensures fresh(desc) && desc.Length == g.DescSize()
      ensures forall i :: 0 <= i < desc.Length ==>
        desc[i] == if Written(g, half, i) then DescByte(g, du, dv, PixelCol(g, i), PixelRow(g, i), i % 16) else 0
    {
      MulNonNegative(16 * g.width, g.height);
      desc := new Byte[16 * g.width * g.height](_ => 0);
      new;
      CreateDescriptor(du, dv, g, half);
    }

    /** Fills the descriptor of every covered pixel and leaves every other byte as it was. */
    method CreateDescriptor(du: seq<Byte>, dv: seq<Byte>, g: Geometry, half: bool)
      requires g.Valid() && |du| == g.PlaneSize() && |dv| == g.PlaneSize()
      requires desc.Length == g.DescSize()
      modifies desc
      ensures forall i :: 0 <= i < desc.Length ==> desc[i] == Expected(g, half, du, dv, old(desc[..]), i)
    {
      var v := if half then 4 else 3;
      var step := if half then 2 else 1;
      while v < g.height - 3
        invariant (if half then 4 <= v && v % 2 == 0 else 3 <= v) && (v <= g.height - 3 + step - 1 || v == 3 + step - 1)
        invariant step == (if half then 2 else 1)
        invariant forall i :: 0 <= i < desc.Length ==>
          desc[i] == (if Written(g, half, i) && PixelRow(g, i) < v
                      then DescByte(g, du, dv, PixelCol(g, i), PixelRow(g, i), i % 16) else old(desc[i]))
      {
        FillRow(du, dv, g, half, v);
        v := v + step;
      }
      forall i | 0 <= i < desc.Length
        ensures desc[i] == Expected(g, half, du, dv, old(desc[..]), i)
      {
        if Written(g, half, i) {
          assert PixelRow(g, i) < v;
        }
      }
    }

    /** The inner loop: fills columns 3 .. width-4 of row v. */
    method FillRow(du: seq<Byte>, dv: seq<Byte>, g: Geometry, half: bool, v: int)
      requires g.Valid() && |du| == g.PlaneSize() && |dv| == g.PlaneSize()
      requires desc.Length == g.DescSize()
      requires if half then 4 <= v < g.height - 3 && v % 2 == 0 else 3 <= v < g.height - 3
      modifies desc
      ensures forall i :: 0 <= i < desc.Length ==>
        desc[i] == (if Written(g, half, i) && PixelRow(g, i) == v
                    then DescByte(g, du, dv, PixelCol(g, i), PixelRow(g, i), i % 16) else old(desc[i]))
    {
      var u := 3;
      while u < g.width - 3
        invariant 3 <= u && (u <= g.width - 3 || u == 3)
        invariant forall i :: 0 <= i < desc.Length ==>
          desc[i] == (if Written(g, half, i) && PixelRow(g, i) == v && PixelCol(g, i) < u
                      then DescByte(g, du, dv, PixelCol(g, i), PixelRow(g, i), i % 16) else old(desc[i]))
      {
        StoreAndAccount(du, dv, g, half, u, v);
        u := u + 1;
      }
    }

    /** One step of either loop: stores pixel (u, v) and restates the effect
        in terms of which pixel each byte belongs to. */
    method StoreAndAccount(du: seq<Byte>, dv: seq<Byte>, g: Geometry, half: bool, u: int, v: int)
      requires g.Valid() && |du| == g.PlaneSize() && |dv| == g.PlaneSize()
      requires desc.Length == g.DescSize()
      requires Covered(g, half, u, v)
      modifies desc
      ensures forall i :: 0 <= i < desc.Length ==>
        desc[i] == (if PixelRow(g, i) == v && PixelCol(g, i) == u
                    then DescByte(g, du, dv, u, v, i % 16) else old(desc[i]))
    {
      WritesInBounds(g, half, u, v);
      var base := PixelBase(g, u, v);
      forall i | 0 <= i < desc.Length
        ensures (PixelRow(g, i) == v && PixelCol(g, i) == u) <==> base <= i < base + 16
        ensures base <= i < base + 16 ==> i % 16 == i - base
      {
        ByteOwner(g, u, v, i);
      }
      StorePixel(du, dv, g, u, v);
    }

    /** The loop body shared by both resolutions: the sixteen loads of the
        descriptor of pixel (u, v), in the order they are stored, and their
        stores at the consecutive write positions from (v * width + u) * 16. */
    method StorePixel(du: seq<Byte>, dv: seq<Byte>, g: Geometry, u: int, v: int)
      requires g.Valid() && |du| == g.PlaneSize() && |dv| == g.PlaneSize()
      requires Supported(g, u, v) && 0 <= PixelBase(g, u, v) && PixelBase(g, u, v) + 16 <= desc.Length
      modifies desc
      ensures forall i :: 0 <= i < desc.Length ==>
        desc[i] == (if PixelBase(g, u, v) <= i < PixelBase(g, u, v) + 16
                    then DescByte(g, du, dv, u, v, i - PixelBase(g, u, v)) else old(desc[i]))
    {
      RowAddresses(g, v);
      var bpl := g.bpl;
      var addrV2 := v * bpl;
      var addrV0 := addrV2 - 2 * bpl;
      var addrV1 := addrV2 - 1 * bpl;
      var addrV3 := addrV2 + 1 * bpl;
      var addrV4 := addrV2 + 2 * bpl;
      var bytes := [
        du[addrV0 + u + 0],
        du[addrV1 + u - 2], du[addrV1 + u + 0], du[addrV1 + u + 2],
        du[addrV2 + u - 1], du[addrV2 + u + 0], du[addrV2 + u + 0], du[addrV2 + u + 1],
        du[addrV3 + u - 2], du[addrV3 + u + 0], du[addrV3 + u + 2],
        du[addrV4 + u + 0],
        dv[addrV1 + u + 0],
        dv[addrV2 + u - 1], dv[addrV2 + u + 1],
        dv[addrV3 + u + 0]
      ];
      SourceTaps(g, du, dv, u, v, addrV0, addrV1, addrV2, addrV3, addrV4);
      forall k | 0 <= k < 16
        ensures bytes[k] == DescByte(g, du, dv, u, v, k)
      {
        Sixteen(k);
      }
      var curr := (v * g.width + u) * 16;
      forall k | 0 <= k < 16 {
        desc[curr + k] := bytes[k];
      }
    }
  }
}
