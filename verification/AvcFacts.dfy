/** The presentation facts of an AVC sequence parameter set, and what they are in terms of its syntax. */
module AvcFacts {
  import opened Results
  import opened BitReader
  import opened Rbsp
  import opened SpsSyntax

  datatype ColorFacts = ColorFacts(fullRange: bool, primaries: nat, transfer: nat, matrix: nat)

  datatype SpsFacts = SpsFacts(
    codedWidth: nat, codedHeight: nat, visibleX: nat, visibleY: nat, visibleWidth: nat, visibleHeight: nat,
    pixelAspect: Option<(nat, nat)>, color: Option<ColorFacts>, chromaLocation: nat)

  const BT709 := ColorFacts(false, 1, 1, 1)
  const UNSPECIFIED := ColorFacts(false, 2, 2, 2)
  const MAX_SPS_BYTES: nat := 65536
  const MAX_DIMENSION: nat := 8192

  /** Table E-1; None when the ratio is unspecified. */
  function AspectRatio(aspect: Option<Aspect>): Result<Option<(nat, nat)>, BitstreamError> {
    match aspect
    case None => Ok(None)
    case Some(Aspect(idc, width, height)) =>
      var table: seq<(nat, nat)> :=
        [(1, 1), (12, 11), (10, 11), (16, 11), (40, 33), (24, 11), (20, 11), (32, 11),
         (80, 33), (18, 11), (15, 11), (64, 33), (160, 99), (4, 3), (3, 2), (2, 1)];
      if idc == 0 then Ok(None)
      else if idc <= 16 then Ok(Some(table[idc - 1]))
      else if idc == 255 then Ok(if width == 0 || height == 0 then None else Some((width, height)))
      else Err(Unsupported)
  }

  function Dimension(blocks: nat): Result<nat, BitstreamError> {
    if (blocks + 1) * 16 <= MAX_DIMENSION then Ok((blocks + 1) * 16) else Err(Limit)
  }

  /** Crop offsets count pairs of samples; doubling one must fit 32 bits. */
  function CropSamples(n: nat): Result<nat, BitstreamError> {
    if 2 * n < 0x1_0000_0000 then Ok(2 * n) else Err(Limit)
  }

  function Visible(coded: nat, before: nat, after: nat): Result<nat, BitstreamError> {
    if coded > before + after then Ok(coded - before - after) else Err(Malformed)
  }

  function ColorOf(signal: Option<Signal>): Option<ColorFacts> {
    match signal
    case None => None
    case Some(Signal(_, full, None)) => Some(ColorFacts(full, 2, 2, 2))
    case Some(Signal(_, full, Some(Colour(p, t, m)))) => Some(ColorFacts(full, p, t, m))
  }

  function LocationOf(location: Option<(nat, nat)>): Result<nat, BitstreamError> {
    match location
    case None => Ok(0)
    case Some((top, bottom)) => if top == bottom && top <= 5 then Ok(top) else Err(Unsupported)
  }

  function FactsOf(sps: Sps): Result<SpsFacts, BitstreamError> {
    var h := sps.header;
    if !h.frame.mbsOnly then Err(Unsupported)
    else if h.chroma.Some?
            && !(h.chroma.value.format == 1 && h.chroma.value.lumaDepth == 0 && h.chroma.value.chromaDepth == 0) then
      Err(Unsupported)
    else
      var width :- Dimension(h.frame.widthInMbs);
      var height :- Dimension(h.frame.heightInUnits);
      var crop := if h.frame.crop.Some? then h.frame.crop.value else Crop(0, 0, 0, 0);
      var left :- CropSamples(crop.left);
      var right :- CropSamples(crop.right);
      var top :- CropSamples(crop.top);
      var bottom :- CropSamples(crop.bottom);
      var aspect :- AspectRatio(if sps.vui.Some? then sps.vui.value.aspect else None);
      var location :- LocationOf(if sps.vui.Some? then sps.vui.value.tail.chromaLocation else None);
      var visibleWidth :- Visible(width, left, right);
      var visibleHeight :- Visible(height, top, bottom);
      Ok(SpsFacts(width, height, left, top, visibleWidth, visibleHeight, aspect,
                  ColorOf(if sps.vui.Some? then sps.vui.value.signal else None), location))
  }

  /** The syntax of an SPS NAL unit. */
  function SyntaxOf(nal: seq<byte>): Result<Sps, BitstreamError>
    requires |nal| > 0
  {
    ParseSps(Unpack(DecodeNal(nal)))
  }

  function ParseAvc(nal: seq<byte>): Result<SpsFacts, BitstreamError> {
    if |nal| > MAX_SPS_BYTES then Err(Limit)
    else if nal == [] || nal[0] >= 128 || nal[0] % 32 != 7 then Err(Malformed)
    else
      var sps := SyntaxOf(nal);
      if sps.Err? then Err(Malformed) else FactsOf(sps.value)
  }

  // ----- What the facts are -----

  /** The frame_cropping offsets of section 7.4.2.1.1; absent ones are zero. */
  function CropOf(s: Sps): Crop {
    if s.header.frame.crop.Some? then s.header.frame.crop.value else Crop(0, 0, 0, 0)
  }

  function AspectOf(s: Sps): Option<Aspect> {
    if s.vui.Some? then s.vui.value.aspect else None
  }

  function ChromaLocationOf(s: Sps): (nat, nat) {
    if s.vui.Some? && s.vui.value.tail.chromaLocation.Some? then s.vui.value.tail.chromaLocation.value else (0, 0)
  }

  function SignalOf(s: Sps): Option<Signal> {
    if s.vui.Some? then s.vui.value.signal else None
  }

  /** The columns of Table E-1 from aspect_ratio_idc 1 to 16. */
  const SAR_WIDTHS: seq<nat> := [1, 12, 10, 16, 40, 24, 20, 32, 80, 18, 15, 64, 160, 4, 3, 2]
  const SAR_HEIGHTS: seq<nat> := [1, 11, 11, 11, 33, 11, 11, 11, 33, 11, 11, 33, 99, 3, 2, 1]

  /** An absent, unspecified or zero ratio is none; Extended_SAR is spelled out. */
  ghost predicate HasRatio(aspect: Option<Aspect>, ratio: Option<(nat, nat)>) {
    if aspect.None? || aspect.value.idc == 0 then ratio == None
    else
      var a := aspect.value;
      if a.idc <= 16 then ratio == Some((SAR_WIDTHS[a.idc - 1], SAR_HEIGHTS[a.idc - 1]))
      else a.idc == 255 && ratio == if a.width > 0 && a.height > 0 then Some((a.width, a.height)) else None
  }

  /** Progressive, 4:2:0 and 8 bits deep. */
  predicate Progressive420(s: Sps) {
    && s.header.frame.mbsOnly
    && (s.header.chroma.Some? ==>
          s.header.chroma.value.format == 1 && s.header.chroma.value.lumaDepth == 0
          && s.header.chroma.value.chromaDepth == 0)
  }

  predicate FitsDimensions(s: Sps) {
    16 * (s.header.frame.widthInMbs + 1) <= 8192 && 16 * (s.header.frame.heightInUnits + 1) <= 8192
  }

  /** The crop leaves some of the picture. */
  predicate SomethingVisible(s: Sps) {
    var c := CropOf(s);
    && 2 * (c.left + c.right) < 16 * (s.header.frame.widthInMbs + 1)
    && 2 * (c.top + c.bottom) < 16 * (s.header.frame.heightInUnits + 1)
  }

  predicate KnownAspect(s: Sps) {
    AspectOf(s).Some? ==> AspectOf(s).value.idc <= 16 || AspectOf(s).value.idc == 255
  }

  predicate KnownLocation(s: Sps) {
    ChromaLocationOf(s).0 == ChromaLocationOf(s).1 <= 5
  }

  predicate AdmittedSyntax(s: Sps) {
    Progressive420(s) && FitsDimensions(s) && SomethingVisible(s) && KnownAspect(s) && KnownLocation(s)
  }

  ghost predicate Describes(f: SpsFacts, s: Sps) {
    var c := CropOf(s);
    && f.codedWidth == 16 * (s.header.frame.widthInMbs + 1)
    && f.codedHeight == 16 * (s.header.frame.heightInUnits + 1)
    && f.visibleX == 2 * c.left && f.visibleWidth == f.codedWidth - 2 * c.left - 2 * c.right
    && f.visibleY == 2 * c.top && f.visibleHeight == f.codedHeight - 2 * c.top - 2 * c.bottom
    && HasRatio(AspectOf(s), f.pixelAspect) && f.chromaLocation == ChromaLocationOf(s).0
    && DescribesColour(f.color, SignalOf(s))
  }

  /** The colour of a video_signal_type; without a description its three codes are 2, unspecified. */
  ghost predicate DescribesColour(color: Option<ColorFacts>, signal: Option<Signal>) {
    && (color.None? <==> signal.None?)
    && (color.Some? ==>
          && color.value.fullRange == signal.value.fullRange
          && (signal.value.colour.None? ==>
                color.value.primaries == 2 && color.value.transfer == 2 && color.value.matrix == 2)
          && (signal.value.colour.Some? ==>
                && color.value.primaries == signal.value.colour.value.primaries
                && color.value.transfer == signal.value.colour.value.transfer
                && color.value.matrix == signal.value.colour.value.matrix))
  }

  lemma RatioExactly(aspect: Option<Aspect>, ratio: Option<(nat, nat)>)
    ensures AspectRatio(aspect) == Ok(ratio) <==> HasRatio(aspect, ratio)
    ensures AspectRatio(aspect).Ok? <==> (aspect.Some? ==> aspect.value.idc <= 16 || aspect.value.idc == 255)
    ensures AspectRatio(aspect).Err? ==> AspectRatio(aspect).error == Unsupported
  {
  }

  lemma ColourExactly(color: Option<ColorFacts>, signal: Option<Signal>)
    ensures ColorOf(signal) == color <==> DescribesColour(color, signal)
  {
  }

  /** Which syntax has facts, and what they are. */
  lemma FactsExactly(s: Sps, f: SpsFacts)
    ensures FactsOf(s) == Ok(f) <==> AdmittedSyntax(s) && Describes(f, s)
  {
    hide AspectRatio, HasRatio, ColorOf, DescribesColour;
    RatioExactly(AspectOf(s), f.pixelAspect);
    ColourExactly(f.color, SignalOf(s));
  }

  /** An SPS is read exactly within its limits, and gives exactly these facts. */
  lemma ParseAvcExactly(nal: seq<byte>, f: SpsFacts)
    ensures ParseAvc(nal) == Ok(f) <==>
              && 0 < |nal| <= 65536 && nal[0] in {0x07, 0x27, 0x47, 0x67} && SyntaxOf(nal).Ok?
              && AdmittedSyntax(SyntaxOf(nal).value) && Describes(f, SyntaxOf(nal).value)
  {
    hide FactsOf, AdmittedSyntax, Describes, SyntaxOf;
    if nal != [] {
      HeaderByte(nal[0]);
      if SyntaxOf(nal).Ok? {
        FactsExactly(SyntaxOf(nal).value, f);
      }
    }
  }

  lemma HeaderByte(x: byte)
    ensures x < 128 && x % 32 == 7 <==> x in {0x07, 0x27, 0x47, 0x67}
  {
  }

  /** Every refusal with its kind; a limit shadows an unknown aspect or location, and those an empty picture. */
  lemma RefusedWith(nal: seq<byte>)
    requires ParseAvc(nal).Err?
    ensures ParseAvc(nal).error ==
              if |nal| > 65536 then Limit
              else if nal == [] || nal[0] !in {0x07, 0x27, 0x47, 0x67} || SyntaxOf(nal).Err? then Malformed
              else
                var s := SyntaxOf(nal).value;
                var c := CropOf(s);
                if !Progressive420(s) then Unsupported
                else if !FitsDimensions(s) || c.left >= 0x8000_0000 || c.right >= 0x8000_0000
                        || c.top >= 0x8000_0000 || c.bottom >= 0x8000_0000 then Limit
                else if !KnownAspect(s) || !KnownLocation(s) then Unsupported
                else Malformed
  {
    hide SyntaxOf, AspectRatio, ColorOf;
    if nal != [] {
      HeaderByte(nal[0]);
      if SyntaxOf(nal).Ok? {
        RatioExactly(AspectOf(SyntaxOf(nal).value), None);
      }
    }
  }

  /** The same geometry: size, crop, sample aspect ratio and chroma location. */
  ghost predicate SameGeometry(s: Sps, t: Sps) {
    && s.header.frame.widthInMbs == t.header.frame.widthInMbs
    && s.header.frame.heightInUnits == t.header.frame.heightInUnits
    && CropOf(s) == CropOf(t) && ChromaLocationOf(s) == ChromaLocationOf(t)
    && forall ratio :: HasRatio(AspectOf(s), ratio) <==> HasRatio(AspectOf(t), ratio)
  }

  /** Facts that differ in the colour alone are those of the same geometry. */
  lemma ColourAloneExactly(s: Sps, t: Sps, f: SpsFacts, g: SpsFacts)
    requires FactsOf(s) == Ok(f) && FactsOf(t) == Ok(g)
    ensures f.(color := None) == g.(color := None) <==> SameGeometry(s, t)
  {
    hide HasRatio, ColorOf, DescribesColour, AspectRatio, FactsOf;
    FactsExactly(s, f);
    FactsExactly(t, g);
    forall ratio
      ensures HasRatio(AspectOf(s), ratio) <==> ratio == f.pixelAspect
      ensures HasRatio(AspectOf(t), ratio) <==> ratio == g.pixelAspect
    {
      RatioExactly(AspectOf(s), ratio);
      RatioExactly(AspectOf(s), f.pixelAspect);
      RatioExactly(AspectOf(t), ratio);
      RatioExactly(AspectOf(t), g.pixelAspect);
    }
  }
}
