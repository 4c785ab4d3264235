/** The fused rotation and mirroring of an NV12 frame, as an action on its visible pixels. */
module Nv12 {
  import opened Results

  const U32: nat := 0x1_0000_0000
  /** No buffer is longer than this on a 64-bit target. */
  const ISIZE_MAX: nat := 0x7FFF_FFFF_FFFF_FFFF

  datatype Nv12TransformError =
    | InvalidDimensions(width: nat, height: nat)
    | InvalidStride(width: nat, stride: nat)
    | BufferTooSmall(required: nat, actual: nat)
    | SizeOverflow

  /** A luma plane of height rows, then half as many rows of interleaved UV pairs, all stride bytes apart. */
  datatype Frame = Frame(width: nat, height: nat, stride: nat, pixels: seq<byte>)

  datatype Point = Point(x: nat, y: nat)

  datatype Colour = Colour(luma: byte, u: byte, v: byte)

  function Normalize(degrees: nat): nat {
    var r := degrees % 360;
    if r == 0 then 0
    else if 45 <= r < 135 then 90
    else if 135 <= r < 225 then 180
    else if 225 <= r < 315 then 270
    else 0
  }

  /** The size of both planes; u64 overflow is possible only in adding the half-size chroma plane. */
  function Required(stride: nat, height: nat): nat {
    stride * height + stride * height / 2
  }

  function ValidateLayout(width: nat, height: nat, stride: nat, actual: nat): Result<nat, Nv12TransformError> {
    if width == 0 || height == 0 || width % 2 != 0 || height % 2 != 0 then Err(InvalidDimensions(width, height))
    else if stride < width then Err(InvalidStride(width, stride))
    else if stride * height >= U64 || Required(stride, height) >= U64 then Err(SizeOverflow)
    else if actual < Required(stride, height) then Err(BufferTooSmall(Required(stride, height), actual))
    else Ok(Required(stride, height))
  }

  /** The accepted frames, cut to the bytes they need. */
  ghost predicate Valid(f: Frame) {
    && 0 < f.width <= f.stride && 0 < f.height && f.width % 2 == 0 && f.height % 2 == 0
    && |f.pixels| == Required(f.stride, f.height)
  }

  // ----- Coordinates -----

  function OutWidth(rotation: nat, w: nat, h: nat): nat {
    if rotation == 90 || rotation == 270 then h else w
  }

  predicate RightAngle(rotation: nat) {
    rotation == 0 || rotation == 90 || rotation == 180 || rotation == 270
  }

  function MapOutputToSource(rotation: nat, out: Point, w: nat, h: nat): (source: Point)
    requires RightAngle(rotation)
    requires out.x < OutWidth(rotation, w, h) && out.y < OutWidth(rotation, h, w)
    ensures source.x < w && source.y < h
  {
    if rotation == 0 then out
    else if rotation == 90 then Point(out.y, h - 1 - out.x)
    else if rotation == 180 then Point(w - 1 - out.x, h - 1 - out.y)
    else Point(w - 1 - out.y, out.x)
  }

  function Flip(mirrored: bool, p: Point, width: nat): (q: Point)
    requires p.x < width
    ensures q.x < width && q.y == p.y
  {
    if mirrored then Point(width - 1 - p.x, p.y) else p
  }

  /** Where the output sample at this point is taken from in a w by h plane. */
  function SourceOf(rotation: nat, mirrored: bool, out: Point, w: nat, h: nat): (source: Point)
    requires RightAngle(rotation)
    requires out.x < OutWidth(rotation, w, h) && out.y < OutWidth(rotation, h, w)
    ensures source.x < w && source.y < h
  {
    MapOutputToSource(rotation, Flip(mirrored, out, OutWidth(rotation, w, h)), w, h)
  }

  // ----- Places in a buffer -----

  /** Where column col of this row is stored in rows of this width. */
  function Place(row: nat, width: nat, col: nat): nat {
    row * width + col
  }

  function Row(k: nat, width: nat): nat
    requires width > 0
  {
    k / width
  }

  function Column(k: nat, width: nat): nat
    requires width > 0
  {
    k % width
  }

  lemma PlaceFits(row: nat, rows: nat, width: nat, col: nat)
    requires row < rows && col < width
    ensures Place(row, width, col) < Place(rows, width, 0)
  {
    Times(row + 1, rows, width);
  }

  lemma NextRow(row: nat, width: nat)
    ensures Place(row, width, width) == Place(row + 1, width, 0)
  {
  }

  lemma Times(a: nat, b: nat, k: nat)
    requires a <= b
    ensures a * k <= b * k
  {
  }

  lemma PlaceSplits(row: nat, width: nat, col: nat)
    requires col < width
    ensures Row(Place(row, width, col), width) == row && Column(Place(row, width, col), width) == col
  {
    var d := (row * width + col) / width;
    assert d * width <= row * width + col < (d + 1) * width;
    if d < row {
      Times(d + 1, row, width);
    } else if row < d {
      Times(row + 1, d, width);
    }
  }

  lemma RowFits(k: nat, rows: nat, width: nat)
    requires width > 0 && k < Place(rows, width, 0)
    ensures Row(k, width) < rows && Column(k, width) < width
  {
    if k / width >= rows {
      Times(rows, k / width, width);
    }
  }

  // ----- Samples -----

  lemma ChromaFits(stride: nat, height: nat, row: nat, col: nat)
    requires height % 2 == 0 && row < height / 2 && col < stride
    ensures Place(row, stride, col) + stride * height < Required(stride, height)
  {
    PlaceFits(row, height / 2, stride, col);
    assert stride * height == height / 2 * stride * 2;
  }

  lemma LumaFits(f: Frame, p: Point)
    requires Valid(f) && p.x < f.width && p.y < f.height
    ensures Place(p.y, f.stride, p.x) < |f.pixels|
  {
    PlaceFits(p.y, f.height, f.stride, p.x);
    assert f.height * f.stride <= Required(f.stride, f.height);
  }

  function Luma(f: Frame, p: Point): byte
    requires Valid(f) && p.x < f.width && p.y < f.height
  {
    LumaFits(f, p);
    f.pixels[Place(p.y, f.stride, p.x)]
  }

  lemma PairFits(f: Frame, p: Point)
    requires Valid(f) && p.x < f.width / 2 && p.y < f.height / 2
    ensures Place(p.y, f.stride, p.x * 2) + f.stride * f.height + 1 < |f.pixels|
  {
    ChromaFits(f.stride, f.height, p.y, p.x * 2 + 1);
  }

  /** Byte b of the UV pair at this point of the chroma plane. */
  function Chroma(f: Frame, p: Point, b: nat): byte
    requires Valid(f) && p.x < f.width / 2 && p.y < f.height / 2 && b < 2
  {
    PairFits(f, p);
    f.pixels[Place(p.y, f.stride, p.x * 2) + f.stride * f.height + b]
  }

  function PixelAt(f: Frame, p: Point): Colour
    requires Valid(f) && p.x < f.width && p.y < f.height
  {
    var c := Point(p.x / 2, p.y / 2);
    Colour(Luma(f, p), Chroma(f, c, 0), Chroma(f, c, 1))
  }

  // ----- The transform -----

  lemma PlaneSizes(f: Frame, rotation: nat)
    requires Valid(f) && RightAngle(rotation)
    ensures var ow := OutWidth(rotation, f.width, f.height); var oh := OutWidth(rotation, f.height, f.width);
            && ow > 0 && oh > 0 && ow % 2 == 0 && oh % 2 == 0
            && OutWidth(rotation, f.width / 2, f.height / 2) == ow / 2
            && OutWidth(rotation, f.height / 2, f.width / 2) == oh / 2
            && Place(oh, ow, 0) == f.width * f.height
            && Required(f.width, f.height) == Required(ow, oh) == f.width * f.height + Place(oh / 2, ow, 0)
  {
    var ow, oh := OutWidth(rotation, f.width, f.height), OutWidth(rotation, f.height, f.width);
    assert oh * ow == f.width * f.height;
    assert oh * ow == oh / 2 * ow * 2;
  }

  /** Byte k of the output's luma plane. */
  function LumaByte(f: Frame, rotation: nat, mirrored: bool, k: nat): byte
    requires Valid(f) && RightAngle(rotation) && k < f.width * f.height
  {
    hide Valid, Required, Place;
    PlaneSizes(f, rotation);
    var ow, oh := OutWidth(rotation, f.width, f.height), OutWidth(rotation, f.height, f.width);
    RowFits(k, oh, ow);
    Luma(f, SourceOf(rotation, mirrored, Point(Column(k, ow), Row(k, ow)), f.width, f.height))
  }

  /** Byte k of the output's chroma plane. */
  function ChromaByte(f: Frame, rotation: nat, mirrored: bool, k: nat): byte
    requires Valid(f) && RightAngle(rotation) && f.width * f.height + k < Required(f.width, f.height)
  {
    hide Valid, Required, Place, Row, Column, OutWidth;
    PlaneSizes(f, rotation);
    var ow, oh := OutWidth(rotation, f.width, f.height), OutWidth(rotation, f.height, f.width);
    RowFits(k, oh / 2, ow);
    Chroma(f, SourceOf(rotation, mirrored, Point(Column(k, ow) / 2, Row(k, ow)), f.width / 2, f.height / 2),
           Column(k, ow) % 2)
  }

  /** Byte k of the output. */
  function Sample(f: Frame, rotation: nat, mirrored: bool, k: nat): byte
    requires Valid(f) && RightAngle(rotation) && k < Required(f.width, f.height)
  {
    if k < f.width * f.height then LumaByte(f, rotation, mirrored, k)
    else ChromaByte(f, rotation, mirrored, k - f.width * f.height)
  }

  function Transformed(f: Frame, degrees: nat, mirrored: bool): (out: Frame)
    requires Valid(f)
    ensures Valid(out)
  {
    var rotation := Normalize(degrees);
    if rotation == 0 && !mirrored then f
    else
      PlaneSizes(f, rotation);
      var ow := OutWidth(rotation, f.width, f.height);
      Frame(ow, OutWidth(rotation, f.height, f.width), ow,
            seq(Required(f.width, f.height),
                k requires 0 <= k < Required(f.width, f.height) => Sample(f, rotation, mirrored, k)))
  }

  lemma LumaSample(f: Frame, rotation: nat, mirrored: bool, out: Point)
    requires Valid(f) && RightAngle(rotation)
    requires out.x < OutWidth(rotation, f.width, f.height) && out.y < OutWidth(rotation, f.height, f.width)
    ensures var k := Place(out.y, OutWidth(rotation, f.width, f.height), out.x);
            k < f.width * f.height <= Required(f.width, f.height)
            && Sample(f, rotation, mirrored, k) == Luma(f, SourceOf(rotation, mirrored, out, f.width, f.height))
  {
    hide Luma, SourceOf, ChromaByte, Place, Required, Valid, Row, Column, OutWidth;
    var ow := OutWidth(rotation, f.width, f.height);
    PlaneSizes(f, rotation);
    PlaceFits(out.y, OutWidth(rotation, f.height, f.width), ow, out.x);
    PlaceSplits(out.y, ow, out.x);
  }

  lemma ChromaSample(f: Frame, rotation: nat, mirrored: bool, out: Point, b: nat)
    requires Valid(f) && RightAngle(rotation) && b < 2
    requires out.x < OutWidth(rotation, f.width, f.height) / 2 && out.y < OutWidth(rotation, f.height, f.width) / 2
    ensures OutWidth(rotation, f.width / 2, f.height / 2) == OutWidth(rotation, f.width, f.height) / 2
    ensures OutWidth(rotation, f.height / 2, f.width / 2) == OutWidth(rotation, f.height, f.width) / 2
    ensures var k := f.width * f.height + Place(out.y, OutWidth(rotation, f.width, f.height), out.x * 2 + b);
            k < Required(f.width, f.height)
            && Sample(f, rotation, mirrored, k)
               == Chroma(f, SourceOf(rotation, mirrored, out, f.width / 2, f.height / 2), b)
  {
    hide Luma, Chroma, SourceOf, LumaByte, Place, Required, Valid, Row, Column, OutWidth;
    var ow := OutWidth(rotation, f.width, f.height);
    PlaneSizes(f, rotation);
    PlaceFits(out.y, OutWidth(rotation, f.height, f.width) / 2, ow, out.x * 2 + b);
    PlaceSplits(out.y, ow, out.x * 2 + b);
    assert (out.x * 2 + b) / 2 == out.x && (out.x * 2 + b) % 2 == b;
    assert Point(out.x, out.y) == out;
  }

  /** The bytes written so far are final. */
  ghost predicate Done(out: seq<byte>, f: Frame, rotation: nat, mirrored: bool, n: nat)
    requires Valid(f) && RightAngle(rotation)
  {
    && n <= |out| == Required(f.width, f.height)
    && forall k {:trigger out[k]} | 0 <= k < n :: out[k] == Sample(f, rotation, mirrored, k)
  }

  lemma DoneNext(out: seq<byte>, f: Frame, rotation: nat, mirrored: bool, n: nat, v: byte)
    requires Valid(f) && RightAngle(rotation) && Done(out, f, rotation, mirrored, n) && n < |out|
    requires v == Sample(f, rotation, mirrored, n)
    ensures Done(out[n := v], f, rotation, mirrored, n + 1)
  {
    hide Sample;
  }

  /** The first nested loop. */
  method FillLuma(f: Frame, rotation: nat, mirrored: bool, output: array<byte>)
    requires Valid(f) && RightAngle(rotation) && output.Length == Required(f.width, f.height)
    modifies output
    ensures Done(output[..], f, rotation, mirrored, f.width * f.height)
  {
    var outWidth, outHeight := OutWidth(rotation, f.width, f.height), OutWidth(rotation, f.height, f.width);
    PlaneSizes(f, rotation);
    assert Place(0, outWidth, 0) == 0 && Done(output[..], f, rotation, mirrored, 0);
    hide Sample, Done, Place, Valid, Required, OutWidth;
    for outputY := 0 to outHeight
      invariant Done(output[..], f, rotation, mirrored, Place(outputY, outWidth, 0))
    {
      for outputX := 0 to outWidth
        invariant Done(output[..], f, rotation, mirrored, Place(outputY, outWidth, outputX))
      {
        var rotatedX := if mirrored then outWidth - 1 - outputX else outputX;
        var source := MapOutputToSource(rotation, Point(rotatedX, outputY), f.width, f.height);
        LumaFits(f, source);
        LumaSample(f, rotation, mirrored, Point(outputX, outputY));
        Put(f, rotation, mirrored, output, Place(outputY, outWidth, outputX), f.pixels[Place(source.y, f.stride, source.x)]);
      }
      NextRow(outputY, outWidth);
    }
  }

  method Put(f: Frame, rotation: nat, mirrored: bool, output: array<byte>, n: nat, v: byte)
    requires Valid(f) && RightAngle(rotation) && output.Length == Required(f.width, f.height) && n < output.Length
    requires Done(output[..], f, rotation, mirrored, n) && v == Sample(f, rotation, mirrored, n)
    modifies output
    ensures output[..] == old(output[..])[n := v] && Done(output[..], f, rotation, mirrored, n + 1)
  {
    hide Sample, Done;
    DoneNext(output[..], f, rotation, mirrored, n, v);
    output[n] := v;
    assert output[..] == old(output[..])[n := v];
  }

  /** Where an output UV pair is written. */
  function PairPlace(f: Frame, rotation: nat, out: Point): nat {
    f.width * f.height + Place(out.y, OutWidth(rotation, f.width, f.height), out.x * 2)
  }

  /** Where a source UV pair is read. */
  function SourcePlace(f: Frame, source: Point): nat {
    Place(source.y, f.stride, source.x * 2) + f.stride * f.height
  }

  lemma PairSamples(f: Frame, rotation: nat, mirrored: bool, out: Point)
    requires Valid(f) && RightAngle(rotation)
    requires out.x < OutWidth(rotation, f.width, f.height) / 2 && out.y < OutWidth(rotation, f.height, f.width) / 2
    ensures OutWidth(rotation, f.width / 2, f.height / 2) == OutWidth(rotation, f.width, f.height) / 2
    ensures OutWidth(rotation, f.height / 2, f.width / 2) == OutWidth(rotation, f.height, f.width) / 2
    ensures var at := SourcePlace(f, SourceOf(rotation, mirrored, out, f.width / 2, f.height / 2));
            var k := PairPlace(f, rotation, out);
            && at + 1 < |f.pixels| && k + 1 < Required(f.width, f.height)
            && Sample(f, rotation, mirrored, k) == f.pixels[at]
            && Sample(f, rotation, mirrored, k + 1) == f.pixels[at + 1]
            && PairPlace(f, rotation, Point(out.x + 1, out.y)) == k + 2
  {
    hide Sample, Place, Valid, Required, OutWidth, SourceOf;
    ChromaSample(f, rotation, mirrored, out, 0);
    ChromaSample(f, rotation, mirrored, out, 1);
    PairFits(f, SourceOf(rotation, mirrored, out, f.width / 2, f.height / 2));
    NextColumn(out.y, OutWidth(rotation, f.width, f.height), out.x * 2);
  }

  lemma PairRows(f: Frame, rotation: nat, y: nat)
    requires Valid(f) && RightAngle(rotation)
    ensures PairPlace(f, rotation, Point(0, 0)) == f.width * f.height
    ensures PairPlace(f, rotation, Point(OutWidth(rotation, f.width, f.height) / 2, y))
            == PairPlace(f, rotation, Point(0, y + 1))
    ensures PairPlace(f, rotation, Point(0, OutWidth(rotation, f.height, f.width) / 2)) == Required(f.width, f.height)
  {
    PlaneSizes(f, rotation);
    NextRow(y, OutWidth(rotation, f.width, f.height));
    assert Place(0, OutWidth(rotation, f.width, f.height), 0) == 0;
  }

  /** The second nested loop: each UV pair moves as a whole. */
  method FillChroma(f: Frame, rotation: nat, mirrored: bool, output: array<byte>)
    requires Valid(f) && RightAngle(rotation) && output.Length == Required(f.width, f.height)
    requires Done(output[..], f, rotation, mirrored, f.width * f.height)
    modifies output
    ensures Done(output[..], f, rotation, mirrored, output.Length)
  {
    hide Sample, Done, Place, Valid, Required, OutWidth, PairPlace, SourcePlace;
    var outWidth, outHeight := OutWidth(rotation, f.width, f.height), OutWidth(rotation, f.height, f.width);
    PairRows(f, rotation, 0);
    for outputY := 0 to outHeight / 2
      invariant Done(output[..], f, rotation, mirrored, PairPlace(f, rotation, Point(0, outputY)))
    {
      for outputX := 0 to outWidth / 2
        invariant Done(output[..], f, rotation, mirrored, PairPlace(f, rotation, Point(outputX, outputY)))
      {
        var out := Point(outputX, outputY);
        PairSamples(f, rotation, mirrored, out);
        var rotatedX := if mirrored then outWidth / 2 - 1 - outputX else outputX;
        var source := MapOutputToSource(rotation, Point(rotatedX, outputY), f.width / 2, f.height / 2);
        var at, destination := SourcePlace(f, source), PairPlace(f, rotation, out);
        Put(f, rotation, mirrored, output, destination, f.pixels[at]);
        Put(f, rotation, mirrored, output, destination + 1, f.pixels[at + 1]);
      }
      PairRows(f, rotation, outputY);
    }
  }

  lemma NextColumn(row: nat, width: nat, col: nat)
    ensures Place(row, width, col + 1) == Place(row, width, col) + 1
    ensures Place(row, width, col + 2) == Place(row, width, col) + 2
  {
  }

  method TransformNv12(width: nat, height: nat, stride: nat, degrees: nat, mirrored: bool, pixels: seq<byte>)
    returns (r: Result<Frame, Nv12TransformError>)
    requires width < U32 && height < U32 && stride < U32 && |pixels| <= ISIZE_MAX
    ensures var layout := ValidateLayout(width, height, stride, |pixels|);
            r == if layout.Err? then Err(layout.error)
                 else Ok(Transformed(Frame(width, height, stride, pixels[..layout.value]), degrees, mirrored))
  {
    hide Sample;
    var required :- ValidateLayout(width, height, stride, |pixels|);
    var f := Frame(width, height, stride, pixels[..required]);
    var rotation := Normalize(degrees);
    if rotation == 0 && !mirrored {
      return Ok(f);
    }
    PlaneSizes(f, rotation);
    var outWidth, outHeight := width, height;
    if rotation == 90 || rotation == 270 {
      outWidth, outHeight := height, width;
    }
    var output := new byte[outWidth * outHeight * 3 / 2](_ => 0);
    assert output.Length == Required(width, height);
    FillLuma(f, rotation, mirrored, output);
    FillChroma(f, rotation, mirrored, output);
    assert output[..] == Transformed(f, degrees, mirrored).pixels;
    return Ok(Frame(outWidth, outHeight, outWidth, output[..]));
  }

  // ----- What a transform does to the visible pixels -----

  /** Normalization rounds to the nearest right angle, halves upwards. */
  lemma NormalizeIsNearest(degrees: nat)
    ensures RightAngle(Normalize(degrees))
    ensures Normalize(degrees) == (degrees + 45) / 90 * 90 % 360
  {
    var q, r := degrees / 360, degrees % 360;
    assert degrees + 45 == 90 * (4 * q) + (r + 45);
    assert (degrees + 45) / 90 == 4 * q + (r + 45) / 90;
    NearestInTurn(r);
    assert Normalize(degrees) == Normalize(r);
  }

  lemma NearestInTurn(r: nat)
    requires r < 360
    ensures RightAngle(Normalize(r)) && (r + 45) / 90 * 90 == Normalize(r) + (if r >= 315 then 360 else 0)
  {
  }

  /** Accepted exactly when the dimensions are even and positive, rows are long enough and the buffer holds both planes. */
  lemma AcceptedExactly(width: nat, height: nat, stride: nat, actual: nat)
    requires width < U32 && height < U32 && stride < U32 && actual <= ISIZE_MAX
    ensures var v := ValidateLayout(width, height, stride, actual);
            v.Ok? <==> width > 0 && height > 0 && width % 2 == 0 && height % 2 == 0 && width <= stride
                       && 2 * actual >= 3 * (stride * height)
    ensures forall pixels: seq<byte> | |pixels| == actual && ValidateLayout(width, height, stride, actual).Ok? ::
              Valid(Frame(width, height, stride, pixels[..ValidateLayout(width, height, stride, actual).value]))
    ensures ValidateLayout(width, height, stride, actual).Ok? ==> width * height * 3 < U64
  {
    if height % 2 == 0 {
      assert stride * height == height / 2 * stride * 2;
    }
    if width <= stride {
      Times(width, stride, height);
    }
  }

  /** Why the others are refused; the sizes overflow 64 bits only for strides and heights near 2^32. */
  lemma RefusedWith(width: nat, height: nat, stride: nat, actual: nat)
    requires width < U32 && height < U32 && stride < U32 && ValidateLayout(width, height, stride, actual).Err?
    ensures ValidateLayout(width, height, stride, actual).error ==
              if width * height == 0 || width % 2 == 1 || height % 2 == 1 then InvalidDimensions(width, height)
              else if stride < width then InvalidStride(width, stride)
              else if 3 * (stride * height) / 2 >= U64 then SizeOverflow
              else BufferTooSmall(3 * (stride * height) / 2, actual)
  {
    if width > 0 && height > 0 {
      NonZero(width, height);
    }
    if height % 2 == 0 {
      assert stride * height == height / 2 * stride * 2;
    }
  }

  lemma NonZero(width: nat, height: nat)
    requires width > 0 && height > 0
    ensures width * height > 0
  {
  }

  /** Every whole colour of the output is the colour at one source point: each 2x2 block keeps its own UV pair. */
  lemma PixelsMove(f: Frame, degrees: nat, mirrored: bool, out: Point)
    requires Valid(f)
    requires var t := Transformed(f, degrees, mirrored); out.x < t.width && out.y < t.height
    ensures var r := Normalize(degrees); var t := Transformed(f, degrees, mirrored);
            && t.width == OutWidth(r, f.width, f.height) && t.height == OutWidth(r, f.height, f.width)
            && PixelAt(t, out) == PixelAt(f, SourceOf(r, mirrored, out, f.width, f.height))
  {
    hide Transformed, Normalize, SourceOf, Luma, Chroma;
    var r := Normalize(degrees);
    NormalizeIsNearest(degrees);
    OutSize(f, degrees, mirrored);
    BlockStays(r, mirrored, out, f.width, f.height);
    LumaMoves(f, degrees, mirrored, out);
    ChromaMoves(f, degrees, mirrored, Point(out.x / 2, out.y / 2), 0);
    ChromaMoves(f, degrees, mirrored, Point(out.x / 2, out.y / 2), 1);
  }

  lemma LumaMoves(f: Frame, degrees: nat, mirrored: bool, out: Point)
    requires Valid(f)
    requires var t := Transformed(f, degrees, mirrored); out.x < t.width && out.y < t.height
    ensures var r := Normalize(degrees); var t := Transformed(f, degrees, mirrored);
            RightAngle(r) && t.width == OutWidth(r, f.width, f.height) && t.height == OutWidth(r, f.height, f.width)
            && Luma(t, out) == Luma(f, SourceOf(r, mirrored, out, f.width, f.height))
  {
    hide Sample, Place, Required, Normalize;
    var r := Normalize(degrees);
    NormalizeIsNearest(degrees);
    if r != 0 || mirrored {
      hide SourceOf;
      LumaSample(f, r, mirrored, out);
    }
  }

  lemma PlaneArea(f: Frame, rotation: nat)
    ensures OutWidth(rotation, f.width, f.height) * OutWidth(rotation, f.height, f.width) == f.width * f.height
  {
  }

  lemma ChromaIs(f: Frame, c: Point, b: nat)
    requires Valid(f) && c.x < f.width / 2 && c.y < f.height / 2 && b < 2
    ensures var k := f.stride * f.height + (Place(c.y, f.stride, c.x * 2) + b);
            k < |f.pixels| && Chroma(f, c, b) == f.pixels[k]
  {
    PairFits(f, c);
    hide Place, Valid;
  }

  lemma ChromaMoves(f: Frame, degrees: nat, mirrored: bool, c: Point, b: nat)
    requires Valid(f) && b < 2
    requires var t := Transformed(f, degrees, mirrored); c.x < t.width / 2 && c.y < t.height / 2
    ensures var r := Normalize(degrees); var t := Transformed(f, degrees, mirrored);
            RightAngle(r) && t.width == OutWidth(r, f.width, f.height) && t.height == OutWidth(r, f.height, f.width)
            && OutWidth(r, f.width / 2, f.height / 2) == t.width / 2
            && OutWidth(r, f.height / 2, f.width / 2) == t.height / 2
            && Chroma(t, c, b) == Chroma(f, SourceOf(r, mirrored, c, f.width / 2, f.height / 2), b)
  {
    hide Sample, Place, Required, Normalize;
    var r := Normalize(degrees);
    NormalizeIsNearest(degrees);
    if r != 0 || mirrored {
      hide SourceOf;
      PlaneSizes(f, r);
      PlaneArea(f, r);
      hide Valid, OutWidth, Chroma;
      ChromaSample(f, r, mirrored, c, b);
      NextColumn(c.y, OutWidth(r, f.width, f.height), c.x * 2);
      ChromaIs(Transformed(f, degrees, mirrored), c, b);
    } else {
      PlaneSizes(f, r);
    }
  }

  lemma BlockStays(rotation: nat, mirrored: bool, out: Point, w: nat, h: nat)
    requires RightAngle(rotation) && w % 2 == 0 && h % 2 == 0
    requires out.x < OutWidth(rotation, w, h) && out.y < OutWidth(rotation, h, w)
    ensures var s := SourceOf(rotation, mirrored, out, w, h);
            SourceOf(rotation, mirrored, Point(out.x / 2, out.y / 2), w / 2, h / 2) == Point(s.x / 2, s.y / 2)
  {
  }

  /** Where the point (x, y) of a w by h picture is after a clockwise rotation, then a mirroring. */
  function Placed(rotation: nat, mirrored: bool, x: nat, y: nat, w: nat, h: nat): Point
    requires x < w && y < h
  {
    match rotation
    case 90 => Point(if mirrored then y else h - 1 - y, x)
    case 180 => Point(if mirrored then x else w - 1 - x, h - 1 - y)
    case 270 => Point(if mirrored then h - 1 - y else y, w - 1 - x)
    case _ => Point(if mirrored then w - 1 - x else x, y)
  }

  lemma PlacedIsSource(rotation: nat, mirrored: bool, x: nat, y: nat, w: nat, h: nat)
    requires RightAngle(rotation) && x < w && y < h
    ensures var q := Placed(rotation, mirrored, x, y, w, h);
            && q.x < OutWidth(rotation, w, h) && q.y < OutWidth(rotation, h, w)
            && SourceOf(rotation, mirrored, q, w, h) == Point(x, y)
  {
  }

  /** The direction of a transform: every source pixel is shown where rotating clockwise, then mirroring, puts it. */
  lemma PixelsArePlaced(f: Frame, degrees: nat, mirrored: bool, x: nat, y: nat)
    requires Valid(f) && x < f.width && y < f.height
    ensures var r := (degrees + 45) / 90 * 90 % 360;
            var t := Transformed(f, degrees, mirrored);
            var q := Placed(r, mirrored, x, y, f.width, f.height);
            && (if r == 90 || r == 270 then t.width == f.height && t.height == f.width
                else t.width == f.width && t.height == f.height)
            && (if r == 0 && !mirrored then t == f else t.stride == t.width)
            && q.x < t.width && q.y < t.height && PixelAt(t, q) == PixelAt(f, Point(x, y))
  {
    hide Transformed, Normalize, SourceOf, PixelAt;
    var r := Normalize(degrees);
    NormalizeIsNearest(degrees);
    OutSize(f, degrees, mirrored);
    OutStride(f, degrees, mirrored);
    PlacedIsSource(r, mirrored, x, y, f.width, f.height);
    PixelsMove(f, degrees, mirrored, Placed(r, mirrored, x, y, f.width, f.height));
  }

  lemma OutStride(f: Frame, degrees: nat, mirrored: bool)
    requires Valid(f)
    ensures var t := Transformed(f, degrees, mirrored);
            if Normalize(degrees) == 0 && !mirrored then t == f else t.stride == t.width
  {
    hide Sample, Normalize;
  }

  /** The bytes of a pixel: its luma sample, and the UV pair of its 2x2 block behind the luma plane. */
  lemma PixelBytes(f: Frame, p: Point)
    requires Valid(f) && p.x < f.width && p.y < f.height
    ensures var chroma := f.stride * f.height + p.y / 2 * f.stride + p.x / 2 * 2;
            && p.y * f.stride + p.x < |f.pixels| && chroma + 1 < |f.pixels|
            && PixelAt(f, p) == Colour(f.pixels[p.y * f.stride + p.x], f.pixels[chroma], f.pixels[chroma + 1])
  {
    LumaFits(f, p);
    PairFits(f, Point(p.x / 2, p.y / 2));
    hide Valid;
  }

  /** Rotations and mirrorings compose as the dihedral group does; a mirroring reverses the rotation after it. */
  function Composed(first: nat, mirrored: bool, second: nat): nat {
    (first + (if mirrored then 360 - second else second)) % 360
  }

  lemma RotationsAdd(r1: nat, r2: nat, out: Point, w: nat, h: nat)
    requires RightAngle(r1) && RightAngle(r2)
    requires var w1, h1 := OutWidth(r1, w, h), OutWidth(r1, h, w);
             out.x < OutWidth(r2, w1, h1) && out.y < OutWidth(r2, h1, w1)
    ensures var w1, h1, r := OutWidth(r1, w, h), OutWidth(r1, h, w), (r1 + r2) % 360;
            && RightAngle(r) && OutWidth(r2, w1, h1) == OutWidth(r, w, h) && OutWidth(r2, h1, w1) == OutWidth(r, h, w)
            && MapOutputToSource(r1, MapOutputToSource(r2, out, w1, h1), w, h) == MapOutputToSource(r, out, w, h)
  {
    assert r1 + r2 < 360 || (r1 + r2) % 360 == r1 + r2 - 360;
  }

  lemma FlipReverses(r: nat, out: Point, w: nat, h: nat)
    requires RightAngle(r) && out.x < OutWidth(r, w, h) && out.y < OutWidth(r, h, w)
    ensures var back := (360 - r) % 360;
            && RightAngle(back) && OutWidth(back, w, h) == OutWidth(r, w, h) && OutWidth(back, h, w) == OutWidth(r, h, w)
            && Flip(true, MapOutputToSource(r, out, w, h), w)
               == MapOutputToSource(back, Flip(true, out, OutWidth(r, w, h)), w, h)
  {
  }

  lemma PointsCompose(r1: nat, m1: bool, r2: nat, m2: bool, out: Point, w: nat, h: nat)
    requires RightAngle(r1) && RightAngle(r2)
    requires var w1, h1 := OutWidth(r1, w, h), OutWidth(r1, h, w);
             out.x < OutWidth(r2, w1, h1) && out.y < OutWidth(r2, h1, w1)
    ensures var w1, h1, r := OutWidth(r1, w, h), OutWidth(r1, h, w), Composed(r1, m1, r2);
            && RightAngle(r) && OutWidth(r2, w1, h1) == OutWidth(r, w, h) && OutWidth(r2, h1, w1) == OutWidth(r, h, w)
            && SourceOf(r1, m1, SourceOf(r2, m2, out, w1, h1), w, h) == SourceOf(r, m1 != m2, out, w, h)
  {
    hide MapOutputToSource, OutWidth;
    var w1, h1 := OutWidth(r1, w, h), OutWidth(r1, h, w);
    var p := Flip(m2, out, OutWidth(r2, w1, h1));
    if m1 {
      FlipReverses(r2, p, w1, h1);
      RotationsAdd(r1, (360 - r2) % 360, Flip(true, p, OutWidth(r2, w1, h1)), w, h);
      Minus(r1, r2);
    } else {
      RotationsAdd(r1, r2, p, w, h);
    }
  }

  lemma Minus(r1: nat, r2: nat)
    requires RightAngle(r1) && RightAngle(r2)
    ensures (r1 + (360 - r2) % 360) % 360 == (r1 + (360 - r2)) % 360
  {
  }

  /** The same visible pixels, whatever the strides and the bytes between rows. */
  ghost predicate SamePicture(f: Frame, g: Frame)
    requires Valid(f) && Valid(g)
  {
    && f.width == g.width && f.height == g.height
    && forall x: nat, y: nat {:trigger PixelAt(f, Point(x, y))} | x < f.width && y < f.height ::
         PixelAt(f, Point(x, y)) == PixelAt(g, Point(x, y))
  }

  lemma RightAngleStays(r: nat)
    requires RightAngle(r)
    ensures Normalize(r) == r
  {
  }

  /** A second transform after a first shows the same picture as the one transform that composes them. */
  lemma TransformsCompose(f: Frame, d1: nat, m1: bool, d2: nat, m2: bool)
    requires Valid(f)
    ensures SamePicture(Transformed(Transformed(f, d1, m1), d2, m2),
                        Transformed(f, Composed(Normalize(d1), m1, Normalize(d2)), m1 != m2))
  {
    hide Transformed, PixelAt, SourceOf, Normalize, Composed;
    var r1, r2 := Normalize(d1), Normalize(d2);
    NormalizeIsNearest(d1);
    NormalizeIsNearest(d2);
    var once, r := Transformed(f, d1, m1), Composed(r1, m1, r2);
    var twice := Transformed(once, d2, m2);
    var direct := Transformed(f, r, m1 != m2);
    OutSize(f, d1, m1);
    OutSize(once, d2, m2);
    OutSize(f, r, m1 != m2);
    PointsCompose(r1, m1, r2, m2, Point(0, 0), f.width, f.height);
    RightAngleStays(r);
    forall x: nat, y: nat {:trigger PixelAt(twice, Point(x, y))} | x < twice.width && y < twice.height
      ensures PixelAt(twice, Point(x, y)) == PixelAt(direct, Point(x, y))
    {
      PointsCompose(r1, m1, r2, m2, Point(x, y), f.width, f.height);
      PixelsMove(once, d2, m2, Point(x, y));
      PixelsMove(f, d1, m1, SourceOf(r2, m2, Point(x, y), once.width, once.height));
      PixelsMove(f, r, m1 != m2, Point(x, y));
    }
  }

  lemma OutSize(f: Frame, degrees: nat, mirrored: bool)
    requires Valid(f)
    ensures var t := Transformed(f, degrees, mirrored);
            t.width == OutWidth(Normalize(degrees), f.width, f.height)
            && t.height == OutWidth(Normalize(degrees), f.height, f.width)
  {
  }

  /** Every transform is undone by another: its samples are a permutation of the visible ones. */
  lemma TransformIsUndone(f: Frame, degrees: nat, mirrored: bool)
    requires Valid(f)
    ensures var r := Normalize(degrees);
            SamePicture(Transformed(Transformed(f, degrees, mirrored), if mirrored then r else (360 - r) % 360, mirrored), f)
  {
    var r := Normalize(degrees);
    NormalizeIsNearest(degrees);
    var back := if mirrored then r else (360 - r) % 360;
    RightAngleStays(back);
    TransformsCompose(f, degrees, mirrored, back, mirrored);
    assert Composed(r, mirrored, back) == 0;
    assert Transformed(f, 0, false) == f;
  }

  /** Every source point is shown at exactly one output point. */
  lemma EveryPointOnce(rotation: nat, mirrored: bool, source: Point, w: nat, h: nat) returns (out: Point)
    requires RightAngle(rotation) && source.x < w && source.y < h
    ensures out.x < OutWidth(rotation, w, h) && out.y < OutWidth(rotation, h, w)
    ensures SourceOf(rotation, mirrored, out, w, h) == source
    ensures forall p: Point {:trigger SourceOf(rotation, mirrored, p, w, h)} |
              p.x < OutWidth(rotation, w, h) && p.y < OutWidth(rotation, h, w)
              && SourceOf(rotation, mirrored, p, w, h) == source :: p == out
  {
    var back := if mirrored then rotation else (360 - rotation) % 360;
    var w1, h1 := OutWidth(rotation, w, h), OutWidth(rotation, h, w);
    out := SourceOf(back, mirrored, source, w1, h1);
  }

  /** Frames that look the same are transformed alike; past the no-op even their bytes agree. */
  lemma PaddingIsInvisible(f: Frame, g: Frame, degrees: nat, mirrored: bool)
    requires Valid(f) && Valid(g) && SamePicture(f, g)
    ensures SamePicture(Transformed(f, degrees, mirrored), Transformed(g, degrees, mirrored))
    ensures Normalize(degrees) != 0 || mirrored ==> Transformed(f, degrees, mirrored) == Transformed(g, degrees, mirrored)
  {
    hide Sample, PixelAt, Normalize, Required;
    if Normalize(degrees) != 0 || mirrored {
      NormalizeIsNearest(degrees);
      forall k: nat | k < Required(f.width, f.height)
        ensures Sample(f, Normalize(degrees), mirrored, k) == Sample(g, Normalize(degrees), mirrored, k)
      {
        SamplesAgree(f, g, Normalize(degrees), mirrored, k);
      }
      assert Transformed(f, degrees, mirrored).pixels == Transformed(g, degrees, mirrored).pixels;
    }
  }

  lemma SamplesAgree(f: Frame, g: Frame, rotation: nat, mirrored: bool, k: nat)
    requires Valid(f) && Valid(g) && SamePicture(f, g) && RightAngle(rotation) && k < Required(f.width, f.height)
    ensures Sample(f, rotation, mirrored, k) == Sample(g, rotation, mirrored, k)
  {
    hide Valid, Required, Luma, Chroma, SourceOf, Row, Column, SamePicture, OutWidth;
    PlaneSizes(f, rotation);
    SameSize(f, g);
    var ow, oh := OutWidth(rotation, f.width, f.height), OutWidth(rotation, f.height, f.width);
    if k < f.width * f.height {
      RowFits(k, oh, ow);
      SameSamples(f, g, SourceOf(rotation, mirrored, Point(Column(k, ow), Row(k, ow)), f.width, f.height));
    } else {
      var j := k - f.width * f.height;
      RowFits(j, oh / 2, ow);
      var c := SourceOf(rotation, mirrored, Point(Column(j, ow) / 2, Row(j, ow)), f.width / 2, f.height / 2);
      SameSamples(f, g, Point(2 * c.x, 2 * c.y));
      assert Point(2 * c.x / 2, 2 * c.y / 2) == c;
      assert Column(j, ow) % 2 == 0 || Column(j, ow) % 2 == 1;
    }
  }

  lemma SameSize(f: Frame, g: Frame)
    requires Valid(f) && Valid(g) && SamePicture(f, g)
    ensures f.width == g.width && f.height == g.height
  {
  }

  lemma SameSamples(f: Frame, g: Frame, p: Point)
    requires Valid(f) && Valid(g) && SamePicture(f, g) && p.x < f.width && p.y < f.height
    ensures f.width == g.width && f.height == g.height && Luma(f, p) == Luma(g, p)
    ensures var c := Point(p.x / 2, p.y / 2);
            c.x < f.width / 2 && c.y < f.height / 2
            && Chroma(f, c, 0) == Chroma(g, c, 0) && Chroma(f, c, 1) == Chroma(g, c, 1)
  {
    hide Luma, Chroma;
    assert PixelAt(f, Point(p.x, p.y)) == PixelAt(g, Point(p.x, p.y));
  }
}
