/**
 * The sequence parameter set as the standard lays it out: sections 7.3.2.1.1, 7.3.2.1.1.1, E.1.1 and E.1.2 of
 * ITU-T H.264. This is the reference the rewriter is held to; it shares only the element readers with it.
 */
module SpsSyntax {
  import opened Results
  import opened BitReader

  datatype ChromaInfo = ChromaInfo(
    format: nat, separatePlanes: bool, lumaDepth: nat, chromaDepth: nat, bypass: bool,
    scaling: Option<seq<Option<seq<int>>>>)

  datatype PicOrder =
    | Poc0(log2MaxLsb: nat)
    | Poc1(alwaysZero: bool, nonRef: int, topToBottom: int, cycle: seq<int>)
    | Poc2

  datatype Crop = Crop(left: nat, right: nat, top: nat, bottom: nat)

  /** The picture geometry that ends the header. */
  datatype Frame = Frame(
    refFrames: nat, gaps: bool, widthInMbs: nat, heightInUnits: nat, mbsOnly: bool, adaptive: Option<bool>,
    direct8x8: bool, crop: Option<Crop>)

  /** Everything before vui_parameters_present_flag. */
  datatype Header = Header(
    profile: nat, constraintsAndLevel: nat, id: nat, chroma: Option<ChromaInfo>, log2MaxFrameNum: nat,
    picOrder: PicOrder, frame: Frame)

  datatype Aspect = Aspect(idc: nat, width: nat, height: nat)

  datatype Colour = Colour(primaries: nat, transfer: nat, matrix: nat)

  datatype Signal = Signal(format: nat, fullRange: bool, colour: Option<Colour>)

  datatype Hrd = Hrd(rateScale: nat, sizeScale: nat, schedules: seq<(nat, nat, bool)>,
                     initialDelay: nat, removalDelay: nat, outputDelay: nat, timeOffset: nat)

  datatype Timing = Timing(unitsInTick: nat, timeScale: nat, fixedRate: bool)

  datatype Restriction = Restriction(overBoundaries: bool, limits: seq<nat>)

  /** The VUI after video_signal_type. */
  datatype VuiTail = VuiTail(
    chromaLocation: Option<(nat, nat)>, timing: Option<Timing>, nalHrd: Option<Hrd>, vclHrd: Option<Hrd>,
    lowDelay: Option<bool>, picStruct: bool, restriction: Option<Restriction>)

  datatype Vui = Vui(aspect: Option<Aspect>, overscan: Option<bool>, signal: Option<Signal>, tail: VuiTail)

  datatype Sps = Sps(header: Header, vui: Option<Vui>)

  // ----- The header -----

  /** profile_idc values whose SPS carries chroma_format_idc. */
  predicate HasChromaInfo(profile: nat) {
    profile in {100, 110, 122, 244, 44, 83, 86, 118, 128, 138, 139, 134, 135}
  }

  /** One scaling list; the deltas as read. */
  function ScalingListAt(b: seq<bool>, p: nat, left: nat, last: int, next: int): (read: Read<seq<int>>)
    ensures read.Ok? ==> p <= read.value.1
    decreases left
  {
    if left == 0 then Ok(([], p))
    else if next == 0 then ScalingListAt(b, p, left - 1, last, next)
    else
      var (delta, q) :- SeAt(b, p);
      var scale := (last + delta + 256) % 256;
      var (rest, r) :- ScalingListAt(b, q, left - 1, if scale == 0 then last else scale, scale);
      Ok(([delta] + rest, r))
  }

  function ScalingMatrixAt(b: seq<bool>, p: nat, i: nat, count: nat): (read: Read<seq<Option<seq<int>>>>)
    ensures read.Ok? ==> p <= read.value.1
    requires i <= count
    decreases count - i
  {
    if i == count then Ok(([], p))
    else
      var (present, q) :- BitAt(b, p);
      if present then
        var (list, r) :- ScalingListAt(b, q, if i < 6 then 16 else 64, 8, 8);
        var (rest, t) :- ScalingMatrixAt(b, r, i + 1, count);
        Ok(([Some(list)] + rest, t))
      else
        var (rest, t) :- ScalingMatrixAt(b, q, i + 1, count);
        Ok(([None] + rest, t))
  }

  function ChromaInfoAt(b: seq<bool>, p: nat): (read: Read<ChromaInfo>)
    ensures read.Ok? ==> p <= read.value.1
  {
    var (format, p) :- UeAt(b, p);
    var (separate, p) :- if format == 3 then BitAt(b, p) else Ok((false, p));
    var (luma, p) :- UeAt(b, p);
    var (chroma, p) :- UeAt(b, p);
    var (bypass, p) :- BitAt(b, p);
    var (matrix, p) :- BitAt(b, p);
    if matrix then
      var (lists, p) :- ScalingMatrixAt(b, p, 0, if format != 3 then 8 else 12);
      Ok((ChromaInfo(format, separate, luma, chroma, bypass, Some(lists)), p))
    else Ok((ChromaInfo(format, separate, luma, chroma, bypass, None), p))
  }

  function OptionalChromaAt(b: seq<bool>, p: nat, profile: nat): (read: Read<Option<ChromaInfo>>)
    ensures read.Ok? ==> p <= read.value.1
  {
    if HasChromaInfo(profile) then
      var (info, q) :- ChromaInfoAt(b, p);
      Ok((Some(info), q))
    else Ok((None, p))
  }

  function SeListAt(b: seq<bool>, p: nat, n: nat): (read: Read<seq<int>>)
    ensures read.Ok? ==> p <= read.value.1
    decreases n
  {
    if n == 0 then Ok(([], p))
    else
      var (v, q) :- SeAt(b, p);
      var (rest, r) :- SeListAt(b, q, n - 1);
      Ok(([v] + rest, r))
  }

  function PicOrderAt(b: seq<bool>, p: nat): (read: Read<PicOrder>)
    ensures read.Ok? ==> p <= read.value.1
  {
    var (kind, p) :- UeAt(b, p);
    if kind == 0 then
      var (lsb, p) :- UeAt(b, p);
      Ok((Poc0(lsb), p))
    else if kind == 1 then
      var (zero, p) :- BitAt(b, p);
      var (nonRef, p) :- SeAt(b, p);
      var (top, p) :- SeAt(b, p);
      var (n, p) :- UeAt(b, p);
      if n > 255 then Err(Malformed)
      else
        var (cycle, p) :- SeListAt(b, p, n);
        Ok((Poc1(zero, nonRef, top, cycle), p))
    else if kind == 2 then Ok((Poc2, p))
    else Err(Malformed)
  }

  function CropAt(b: seq<bool>, p: nat): (read: Read<Option<Crop>>)
    ensures read.Ok? ==> p <= read.value.1
  {
    var (present, p) :- BitAt(b, p);
    if !present then Ok((None, p))
    else
      var (left, p) :- UeAt(b, p);
      var (right, p) :- UeAt(b, p);
      var (top, p) :- UeAt(b, p);
      var (bottom, p) :- UeAt(b, p);
      Ok((Some(Crop(left, right, top, bottom)), p))
  }

  function FrameAt(b: seq<bool>, p: nat): (read: Read<Frame>)
    ensures read.Ok? ==> p <= read.value.1
  {
    var (refs, p) :- UeAt(b, p);
    var (gaps, p) :- BitAt(b, p);
    var (width, p) :- UeAt(b, p);
    var (height, p) :- UeAt(b, p);
    var (frames, p) :- BitAt(b, p);
    var (adaptive, p) :- if frames then Ok((None, p)) else SomeBitAt(b, p);
    var (direct, p) :- BitAt(b, p);
    var (crop, p) :- CropAt(b, p);
    Ok((Frame(refs, gaps, width, height, frames, adaptive, direct, crop), p))
  }

  function HeaderAt(b: seq<bool>): Read<Header> {
    var (profile, p) :- UAt(b, 0, 8);
    var (level, p) :- UAt(b, p, 16);
    var (id, p) :- UeAt(b, p);
    var (chroma, p) :- OptionalChromaAt(b, p, profile);
    var (frameNum, p) :- UeAt(b, p);
    var (order, p) :- PicOrderAt(b, p);
    var (frame, p) :- FrameAt(b, p);
    Ok((Header(profile, level, id, chroma, frameNum, order, frame), p))
  }

  function SomeBitAt(b: seq<bool>, p: nat): (read: Read<Option<bool>>)
    ensures read.Ok? ==> p <= read.value.1
  {
    var (bit, q) :- BitAt(b, p);
    Ok((Some(bit), q))
  }

  // ----- The VUI -----

  function AspectAt(b: seq<bool>, p: nat): (read: Read<Option<Aspect>>)
    ensures read.Ok? ==> p <= read.value.1
  {
    var (present, p) :- BitAt(b, p);
    if !present then Ok((None, p))
    else
      var (idc, p) :- UAt(b, p, 8);
      if idc != 255 then Ok((Some(Aspect(idc, 0, 0)), p))
      else
        var (w, p) :- UAt(b, p, 16);
        var (h, p) :- UAt(b, p, 16);
        Ok((Some(Aspect(idc, w, h)), p))
  }

  function OverscanAt(b: seq<bool>, p: nat): (read: Read<Option<bool>>)
    ensures read.Ok? ==> p <= read.value.1
  {
    var (present, p) :- BitAt(b, p);
    if present then SomeBitAt(b, p) else Ok((None, p))
  }

  function SignalAt(b: seq<bool>, p: nat): (read: Read<Option<Signal>>)
    ensures read.Ok? ==> p <= read.value.1
  {
    var (present, p) :- BitAt(b, p);
    if !present then Ok((None, p))
    else
      var (format, p) :- UAt(b, p, 3);
      var (full, p) :- BitAt(b, p);
      var (described, p) :- BitAt(b, p);
      if !described then Ok((Some(Signal(format, full, None)), p))
      else
        var (primaries, p) :- UAt(b, p, 8);
        var (transfer, p) :- UAt(b, p, 8);
        var (matrix, p) :- UAt(b, p, 8);
        Ok((Some(Signal(format, full, Some(Colour(primaries, transfer, matrix)))), p))
  }

  function LocationAt(b: seq<bool>, p: nat): (read: Read<Option<(nat, nat)>>)
    ensures read.Ok? ==> p <= read.value.1
  {
    var (present, p) :- BitAt(b, p);
    if !present then Ok((None, p))
    else
      var (top, p) :- UeAt(b, p);
      var (bottom, p) :- UeAt(b, p);
      Ok((Some((top, bottom)), p))
  }

  function TimingAt(b: seq<bool>, p: nat): (read: Read<Option<Timing>>)
    ensures read.Ok? ==> p <= read.value.1
  {
    var (present, p) :- BitAt(b, p);
    if !present then Ok((None, p))
    else
      var (units, p) :- UAt(b, p, 32);
      var (scale, p) :- UAt(b, p, 32);
      var (fixed, p) :- BitAt(b, p);
      Ok((Some(Timing(units, scale, fixed)), p))
  }

  function SchedulesAt(b: seq<bool>, p: nat, n: nat): (read: Read<seq<(nat, nat, bool)>>)
    ensures read.Ok? ==> p <= read.value.1
    decreases n
  {
    if n == 0 then Ok(([], p))
    else
      var (rate, q) :- UeAt(b, p);
      var (size, q) :- UeAt(b, q);
      var (cbr, q) :- BitAt(b, q);
      var (rest, r) :- SchedulesAt(b, q, n - 1);
      Ok(([(rate, size, cbr)] + rest, r))
  }

  function HrdAt(b: seq<bool>, p: nat): (read: Read<Option<Hrd>>)
    ensures read.Ok? ==> p <= read.value.1
  {
    var (present, p) :- BitAt(b, p);
    if !present then Ok((None, p))
    else
      var (count, p) :- UeAt(b, p);
      var (rate, p) :- UAt(b, p, 4);
      var (size, p) :- UAt(b, p, 4);
      var (schedules, p) :- SchedulesAt(b, p, count + 1);
      var (initial, p) :- UAt(b, p, 5);
      var (removal, p) :- UAt(b, p, 5);
      var (output, p) :- UAt(b, p, 5);
      var (offset, p) :- UAt(b, p, 5);
      Ok((Some(Hrd(rate, size, schedules, initial, removal, output, offset)), p))
  }

  function UeListAt(b: seq<bool>, p: nat, n: nat): (read: Read<seq<nat>>)
    ensures read.Ok? ==> p <= read.value.1
    decreases n
  {
    if n == 0 then Ok(([], p))
    else
      var (v, q) :- UeAt(b, p);
      var (rest, r) :- UeListAt(b, q, n - 1);
      Ok(([v] + rest, r))
  }

  function RestrictionAt(b: seq<bool>, p: nat): (read: Read<Option<Restriction>>)
    ensures read.Ok? ==> p <= read.value.1
  {
    var (present, p) :- BitAt(b, p);
    if !present then Ok((None, p))
    else
      var (over, p) :- BitAt(b, p);
      var (limits, p) :- UeListAt(b, p, 6);
      Ok((Some(Restriction(over, limits)), p))
  }

  function TailAt(b: seq<bool>, p: nat): (read: Read<VuiTail>)
    ensures read.Ok? ==> p <= read.value.1
  {
    var (location, p) :- LocationAt(b, p);
    var (timing, p) :- TimingAt(b, p);
    var (nal, p) :- HrdAt(b, p);
    var (vcl, p) :- HrdAt(b, p);
    var (lowDelay, p) :- if nal.Some? || vcl.Some? then SomeBitAt(b, p) else Ok((None, p));
    var (picStruct, p) :- BitAt(b, p);
    var (restriction, p) :- RestrictionAt(b, p);
    Ok((VuiTail(location, timing, nal, vcl, lowDelay, picStruct, restriction), p))
  }

  /** The aspect ratio and overscan, which come before video_signal_type. */
  function VuiStartAt(b: seq<bool>, p: nat): (read: Read<(Option<Aspect>, Option<bool>)>)
    ensures read.Ok? ==> p <= read.value.1
  {
    var (aspect, p) :- AspectAt(b, p);
    var (overscan, p) :- OverscanAt(b, p);
    Ok(((aspect, overscan), p))
  }

  function VuiAt(b: seq<bool>, p: nat): (read: Read<Vui>)
    ensures read.Ok? ==> p <= read.value.1
  {
    var (start, p) :- VuiStartAt(b, p);
    var (signal, p) :- SignalAt(b, p);
    var (tail, p) :- TailAt(b, p);
    Ok((Vui(start.0, start.1, signal, tail), p))
  }

  function OptionalVuiAt(b: seq<bool>, p: nat): (read: Read<Option<Vui>>)
    ensures read.Ok? ==> p <= read.value.1
  {
    var (present, p) :- BitAt(b, p);
    if present then
      var (vui, q) :- VuiAt(b, p);
      Ok((Some(vui), q))
    else Ok((None, p))
  }

  /** The whole RBSP: the syntax must end exactly at the stop bit. */
  function ParseSps(b: seq<bool>): Result<Sps, BitstreamError> {
    var (header, p) :- HeaderAt(b);
    var (vui, p) :- OptionalVuiAt(b, p);
    var stop :- LastOne(b);
    if p == stop then Ok(Sps(header, vui)) else Err(Malformed)
  }
}
