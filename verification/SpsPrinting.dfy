/**
 * The sequence parameter set printed bit by bit, as the tables of ITU-T H.264 list its elements, and the proof that the
 * parser of SpsSyntax accepts exactly what is printed. At the end, a short SPS for any source.
 */
module SpsPrinting {
  import opened Results
  import opened BitReader
  import opened SpsSyntax

  // ----- Printing -----

  function SeCode(v: int): seq<bool> {
    UeCode(CodeNumOf(v))
  }

  function SeCodes(list: seq<int>): seq<bool> {
    if list == [] then [] else SeCode(list[0]) + SeCodes(list[1..])
  }

  function UeCodes(list: seq<nat>): seq<bool> {
    if list == [] then [] else UeCode(list[0]) + UeCodes(list[1..])
  }

  function MatrixBits(lists: seq<Option<seq<int>>>): seq<bool> {
    if lists == [] then []
    else
      match lists[0]
      case None => [false] + MatrixBits(lists[1..])
      case Some(list) => [true] + (SeCodes(list) + MatrixBits(lists[1..]))
  }

  function ScalingBits(scaling: Option<seq<Option<seq<int>>>>): seq<bool> {
    match scaling
    case None => [false]
    case Some(lists) => [true] + MatrixBits(lists)
  }

  function ChromaInfoBits(c: ChromaInfo): seq<bool> {
    UeCode(c.format) + ((if c.format == 3 then [c.separatePlanes] else []) +
    (UeCode(c.lumaDepth) + (UeCode(c.chromaDepth) + ([c.bypass] + ScalingBits(c.scaling)))))
  }

  function OptionalChromaBits(chroma: Option<ChromaInfo>): seq<bool> {
    match chroma
    case None => []
    case Some(c) => ChromaInfoBits(c)
  }

  function PicOrderBits(order: PicOrder): seq<bool> {
    match order
    case Poc0(lsb) => UeCode(0) + UeCode(lsb)
    case Poc1(zero, nonRef, top, cycle) =>
      UeCode(1) + ([zero] + (SeCode(nonRef) + (SeCode(top) + (UeCode(|cycle|) + SeCodes(cycle)))))
    case Poc2 => UeCode(2)
  }

  function CropBits(crop: Option<Crop>): seq<bool> {
    match crop
    case None => [false]
    case Some(c) => [true] + (UeCode(c.left) + (UeCode(c.right) + (UeCode(c.top) + UeCode(c.bottom))))
  }

  /** frame_mbs_only_flag, and mb_adaptive_frame_field_flag where it is 0. */
  function MbsBits(f: Frame): seq<bool> {
    match f.adaptive
    case None => [f.mbsOnly]
    case Some(bit) => [f.mbsOnly] + [bit]
  }

  function FrameBits(f: Frame): seq<bool> {
    UeCode(f.refFrames) + ([f.gaps] + (UeCode(f.widthInMbs) + (UeCode(f.heightInUnits) +
    (MbsBits(f) + ([f.direct8x8] + CropBits(f.crop))))))
  }

  function HeaderBits(h: Header): seq<bool> {
    BitsOf(h.profile, 8) + (BitsOf(h.constraintsAndLevel, 16) + (UeCode(h.id) + (OptionalChromaBits(h.chroma) +
    (UeCode(h.log2MaxFrameNum) + (PicOrderBits(h.picOrder) + FrameBits(h.frame))))))
  }

  function AspectBits(aspect: Option<Aspect>): seq<bool> {
    match aspect
    case None => [false]
    case Some(a) =>
      [true] + (BitsOf(a.idc, 8) + if a.idc == 255 then BitsOf(a.width, 16) + BitsOf(a.height, 16) else [])
  }

  function FlagBits(flag: Option<bool>): seq<bool> {
    match flag
    case None => [false]
    case Some(bit) => [true] + [bit]
  }

  function ColourBits(colour: Option<Colour>): seq<bool> {
    match colour
    case None => [false]
    case Some(c) => [true] + (BitsOf(c.primaries, 8) + (BitsOf(c.transfer, 8) + BitsOf(c.matrix, 8)))
  }

  function SignalTypeBits(signal: Option<Signal>): seq<bool> {
    match signal
    case None => [false]
    case Some(s) => [true] + (BitsOf(s.format, 3) + ([s.fullRange] + ColourBits(s.colour)))
  }

  function LocationBits(location: Option<(nat, nat)>): seq<bool> {
    match location
    case None => [false]
    case Some(l) => [true] + (UeCode(l.0) + UeCode(l.1))
  }

  function TimingBits(timing: Option<Timing>): seq<bool> {
    match timing
    case None => [false]
    case Some(t) => [true] + (BitsOf(t.unitsInTick, 32) + (BitsOf(t.timeScale, 32) + [t.fixedRate]))
  }

  function ScheduleBits(list: seq<(nat, nat, bool)>): seq<bool> {
    if list == [] then []
    else UeCode(list[0].0) + (UeCode(list[0].1) + ([list[0].2] + ScheduleBits(list[1..])))
  }

  function DelayBits(d: (nat, nat, nat, nat)): seq<bool> {
    BitsOf(d.0, 5) + (BitsOf(d.1, 5) + (BitsOf(d.2, 5) + BitsOf(d.3, 5)))
  }

  /** cpb_cnt_minus1. */
  function LastOf(list: seq<(nat, nat, bool)>): nat {
    if list == [] then 0 else |list| - 1
  }

  function HrdBodyBits(h: Hrd): seq<bool> {
    UeCode(LastOf(h.schedules)) + (BitsOf(h.rateScale, 4) + (BitsOf(h.sizeScale, 4) + (ScheduleBits(h.schedules) +
    DelayBits((h.initialDelay, h.removalDelay, h.outputDelay, h.timeOffset)))))
  }

  function HrdBits(hrd: Option<Hrd>): seq<bool> {
    match hrd
    case None => [false]
    case Some(h) => [true] + HrdBodyBits(h)
  }

  function RestrictionBits(restriction: Option<Restriction>): seq<bool> {
    match restriction
    case None => [false]
    case Some(r) => [true] + ([r.overBoundaries] + UeCodes(r.limits))
  }

  function LowDelayBits(lowDelay: Option<bool>): seq<bool> {
    match lowDelay
    case None => []
    case Some(bit) => [bit]
  }

  function TailBits(t: VuiTail): seq<bool> {
    LocationBits(t.chromaLocation) + (TimingBits(t.timing) + (HrdBits(t.nalHrd) + (HrdBits(t.vclHrd) +
    (LowDelayBits(t.lowDelay) + ([t.picStruct] + RestrictionBits(t.restriction))))))
  }

  function VuiBits(vui: Option<Vui>): seq<bool> {
    match vui
    case None => [false]
    case Some(v) =>
      [true] + (AspectBits(v.aspect) + (FlagBits(v.overscan) + (SignalTypeBits(v.signal) + TailBits(v.tail))))
  }

  /** The RBSP of an SPS up to its stop bit. */
  function SpsBits(s: Sps): seq<bool> {
    HeaderBits(s.header) + VuiBits(s.vui)
  }

  // ----- What can be printed -----

  predicate Unsigned(v: nat) {
    v <= UE_MAX
  }

  predicate Signed(v: int) {
    -SE_MAX <= v <= SE_MAX
  }

  /** A scaling list ends where the next scale becomes 0, or with its last entry. */
  predicate WellFormedList(list: seq<int>, left: nat, next: int, last: int)
    decreases left
  {
    if left == 0 || next == 0 then list == []
    else
      && list != [] && Signed(list[0])
      && var scale := (last + list[0] + 256) % 256;
         WellFormedList(list[1..], left - 1, scale, if scale == 0 then last else scale)
  }

  /** The lists from the i-th on; the first six are 4x4. */
  predicate WellFormedMatrix(lists: seq<Option<seq<int>>>, i: nat)
    decreases |lists|
  {
    lists != [] ==>
      && (lists[0].Some? ==> WellFormedList(lists[0].value, if i < 6 then 16 else 64, 8, 8))
      && WellFormedMatrix(lists[1..], i + 1)
  }

  predicate WellFormedChroma(c: ChromaInfo) {
    && Unsigned(c.format) && Unsigned(c.lumaDepth) && Unsigned(c.chromaDepth) && (c.format != 3 ==> !c.separatePlanes)
    && (c.scaling.Some? ==>
          |c.scaling.value| == (if c.format != 3 then 8 else 12) && WellFormedMatrix(c.scaling.value, 0))
  }

  predicate WellFormedOrder(order: PicOrder) {
    match order
    case Poc0(lsb) => Unsigned(lsb)
    case Poc1(_, nonRef, top, cycle) =>
      Signed(nonRef) && Signed(top) && |cycle| <= 255 && forall v | v in cycle :: Signed(v)
    case Poc2 => true
  }

  predicate WellFormedCrop(crop: Option<Crop>) {
    crop.Some? ==>
      Unsigned(crop.value.left) && Unsigned(crop.value.right) && Unsigned(crop.value.top) && Unsigned(crop.value.bottom)
  }

  predicate WellFormedFrame(f: Frame) {
    && Unsigned(f.refFrames) && Unsigned(f.widthInMbs) && Unsigned(f.heightInUnits)
    && (f.mbsOnly <==> f.adaptive.None?) && WellFormedCrop(f.crop)
  }

  predicate WellFormedHeader(h: Header) {
    && h.profile < 0x100 && h.constraintsAndLevel < 0x1_0000 && Unsigned(h.id)
    && (h.chroma.Some? <==> HasChromaInfo(h.profile)) && (h.chroma.Some? ==> WellFormedChroma(h.chroma.value))
    && Unsigned(h.log2MaxFrameNum) && WellFormedOrder(h.picOrder) && WellFormedFrame(h.frame)
  }

  predicate WellFormedAspect(aspect: Option<Aspect>) {
    aspect.Some? ==>
      && aspect.value.idc < 0x100 && aspect.value.width < 0x1_0000 && aspect.value.height < 0x1_0000
      && (aspect.value.idc != 255 ==> aspect.value.width == 0 && aspect.value.height == 0)
  }

  predicate WellFormedColour(colour: Option<Colour>) {
    colour.Some? ==> colour.value.primaries < 0x100 && colour.value.transfer < 0x100 && colour.value.matrix < 0x100
  }

  predicate WellFormedSignal(signal: Option<Signal>) {
    signal.Some? ==> signal.value.format < 8 && WellFormedColour(signal.value.colour)
  }

  predicate WellFormedLocation(location: Option<(nat, nat)>) {
    location.Some? ==> Unsigned(location.value.0) && Unsigned(location.value.1)
  }

  predicate WellFormedTiming(timing: Option<Timing>) {
    timing.Some? ==> timing.value.unitsInTick < 0x1_0000_0000 && timing.value.timeScale < 0x1_0000_0000
  }

  predicate WellFormedSchedules(list: seq<(nat, nat, bool)>) {
    forall e | e in list :: Unsigned(e.0) && Unsigned(e.1)
  }

  predicate WellFormedHrd(hrd: Option<Hrd>) {
    hrd.Some? ==>
      && 0 < |hrd.value.schedules| <= UE_MAX + 1 && WellFormedSchedules(hrd.value.schedules)
      && hrd.value.rateScale < 16 && hrd.value.sizeScale < 16 && hrd.value.initialDelay < 32
      && hrd.value.removalDelay < 32 && hrd.value.outputDelay < 32 && hrd.value.timeOffset < 32
  }

  predicate WellFormedRestriction(restriction: Option<Restriction>) {
    restriction.Some? ==> |restriction.value.limits| == 6 && forall v | v in restriction.value.limits :: Unsigned(v)
  }

  predicate WellFormedTail(t: VuiTail) {
    && WellFormedLocation(t.chromaLocation) && WellFormedTiming(t.timing) && WellFormedHrd(t.nalHrd)
    && WellFormedHrd(t.vclHrd) && (t.lowDelay.Some? <==> t.nalHrd.Some? || t.vclHrd.Some?)
    && WellFormedRestriction(t.restriction)
  }

  predicate WellFormedVui(vui: Option<Vui>) {
    vui.Some? ==>
      WellFormedAspect(vui.value.aspect) && WellFormedSignal(vui.value.signal) && WellFormedTail(vui.value.tail)
  }

  predicate WellFormed(s: Sps) {
    WellFormedHeader(s.header) && WellFormedVui(s.vui)
  }

  // ----- Elements at a position -----

  predicate StandsAt(b: seq<bool>, p: nat, code: seq<bool>) {
    p + |code| <= |b| && b[p..p + |code|] == code
  }

  /** Inside b, a reader yields v at p exactly where v is well formed and its code stands, and ends behind it. */
  ghost predicate Exactly<T>(read: Read<T>, v: T, wellFormed: bool, b: seq<bool>, p: nat, code: seq<bool>) {
    p <= |b| ==>
      && (read.Ok? && read.value.0 == v <==> wellFormed && StandsAt(b, p, code))
      && (read.Ok? && read.value.0 == v ==> read.value.1 == p + |code| <= |b|)
  }

  lemma StandsSplit(b: seq<bool>, p: nat, x: seq<bool>, y: seq<bool>)
    ensures StandsAt(b, p, x + y) <==> StandsAt(b, p, x) && StandsAt(b, p + |x|, y)
    ensures StandsAt(b, p, x) ==> p + |x| <= |b|
  {
    var hi := p + |x| + |y|;
    if hi <= |b| {
      SliceOfSlice(b, p, hi, 0, |x|);
      SliceOfSlice(b, p, hi, |x|, |x| + |y|);
      assert (x + y)[0..|x|] == x && (x + y)[|x|..|x| + |y|] == y;
      assert b[p..hi] == b[p..hi][0..|x|] + b[p..hi][|x|..|x| + |y|];
    }
  }

  lemma NothingStands(b: seq<bool>, p: nat)
    ensures StandsAt(b, p, []) <==> p <= |b|
  {
  }

  lemma BitExactly(b: seq<bool>, p: nat, v: bool)
    ensures Exactly(BitAt(b, p), v, true, b, p, [v])
  {
    if p < |b| {
      assert b[p..p + 1] == [b[p]];
    }
  }

  lemma UeExactly(b: seq<bool>, p: nat, v: nat)
    ensures Exactly(UeAt(b, p), v, Unsigned(v), b, p, UeCode(v))
  {
    hide UeAt, UeCode;
    UeInverts(b, p, v);
  }

  lemma SeExactly(b: seq<bool>, p: nat, v: int)
    ensures Exactly(SeAt(b, p), v, Signed(v), b, p, SeCode(v))
  {
    hide SeAt, UeCode;
    SeInverts(b, p, v);
  }

  lemma UExactly(b: seq<bool>, p: nat, v: nat, n: nat)
    ensures Exactly(UAt(b, p, n), v, v < Pow2(n), b, p, BitsOf(v, n))
  {
    hide BitsOf, ValueOf;
    if p + n <= |b| {
      BitsOfValue(b[p..p + n]);
    }
    if v < Pow2(n) {
      ValueOfBits(v, n);
    }
  }

  lemma Powers()
    ensures Pow2(3) == 8 && Pow2(4) == 16 && Pow2(5) == 32 && Pow2(8) == 0x100 && Pow2(16) == 0x1_0000
    ensures Pow2(32) == 0x1_0000_0000
  {
    assert Pow2(8) == 0x100;
    assert Pow2(16) == 0x1_0000;
    Pow2At32();
  }

  /** An element, and what stands behind it. */
  ghost predicate Then<T>(read: Read<T>, v: T, wellFormed: bool, b: seq<bool>, p: nat, code: seq<bool>, rest: seq<bool>)
  {
    && Exactly(read, v, wellFormed, b, p, code)
    && (StandsAt(b, p, code + rest) <==> StandsAt(b, p, code) && StandsAt(b, p + |code|, rest))
    && (StandsAt(b, p, code) ==> p + |code| <= |b|)
  }

  lemma BitThen(b: seq<bool>, p: nat, v: bool, rest: seq<bool>)
    ensures Then(BitAt(b, p), v, true, b, p, [v], rest)
  {
    BitExactly(b, p, v);
    StandsSplit(b, p, [v], rest);
  }

  lemma UeThen(b: seq<bool>, p: nat, v: nat, rest: seq<bool>)
    ensures Then(UeAt(b, p), v, Unsigned(v), b, p, UeCode(v), rest)
  {
    hide UeAt, UeCode;
    UeExactly(b, p, v);
    StandsSplit(b, p, UeCode(v), rest);
  }

  lemma SeThen(b: seq<bool>, p: nat, v: int, rest: seq<bool>)
    ensures Then(SeAt(b, p), v, Signed(v), b, p, SeCode(v), rest)
  {
    hide SeAt, SeCode;
    SeExactly(b, p, v);
    StandsSplit(b, p, SeCode(v), rest);
  }

  lemma UThen(b: seq<bool>, p: nat, v: nat, n: nat, rest: seq<bool>)
    ensures Then(UAt(b, p, n), v, v < Pow2(n), b, p, BitsOf(v, n), rest)
  {
    hide UAt, BitsOf;
    UExactly(b, p, v, n);
    StandsSplit(b, p, BitsOf(v, n), rest);
  }

  // ----- Lists -----

  lemma {:induction false} ListExactly(b: seq<bool>, p: nat, left: nat, last: int, next: int, list: seq<int>)
    ensures Exactly(ScalingListAt(b, p, left, last, next), list, WellFormedList(list, left, next, last), b, p,
                    SeCodes(list))
    decreases left
  {
    hide SeAt, SeCode, StandsAt;
    if left == 0 || next == 0 {
      NothingStands(b, p);
      ListOver(b, p, left, last, next);
    } else if list != [] {
      var q := p + |SeCode(list[0])|;
      var scale := (last + list[0] + 256) % 256;
      SeExactly(b, p, list[0]);
      StandsSplit(b, p, SeCode(list[0]), SeCodes(list[1..]));
      ListExactly(b, q, left - 1, if scale == 0 then last else scale, scale, list[1..]);
      assert list == [list[0]] + list[1..];
    }
  }

  lemma {:induction false} ListOver(b: seq<bool>, p: nat, left: nat, last: int, next: int)
    requires left == 0 || next == 0
    ensures ScalingListAt(b, p, left, last, next) == Ok(([], p))
    decreases left
  {
    if left > 0 {
      ListOver(b, p, left - 1, last, next);
    }
  }

  lemma {:induction false} SeListExactly(b: seq<bool>, p: nat, list: seq<int>)
    ensures Exactly(SeListAt(b, p, |list|), list, forall v | v in list :: Signed(v), b, p, SeCodes(list))
    decreases |list|
  {
    hide SeAt, SeCode, StandsAt, Signed;
    if list == [] {
      NothingStands(b, p);
    } else {
      SeThen(b, p, list[0], SeCodes(list[1..]));
      SeListExactly(b, p + |SeCode(list[0])|, list[1..]);
      assert list == [list[0]] + list[1..];
    }
  }

  lemma {:induction false} UeListExactly(b: seq<bool>, p: nat, list: seq<nat>)
    ensures Exactly(UeListAt(b, p, |list|), list, forall v | v in list :: Unsigned(v), b, p, UeCodes(list))
    decreases |list|
  {
    hide UeAt, UeCode, StandsAt, Unsigned;
    if list == [] {
      NothingStands(b, p);
    } else {
      UeThen(b, p, list[0], UeCodes(list[1..]));
      UeListExactly(b, p + |UeCode(list[0])|, list[1..]);
      assert list == [list[0]] + list[1..];
    }
  }

  lemma {:induction false} SchedulesExactly(b: seq<bool>, p: nat, list: seq<(nat, nat, bool)>)
    ensures Exactly(SchedulesAt(b, p, |list|), list, WellFormedSchedules(list), b, p, ScheduleBits(list))
    decreases |list|
  {
    hide UeAt, UeCode, StandsAt, Unsigned, BitAt;
    if list == [] {
      NothingStands(b, p);
    } else {
      var (rate, size, cbr) := list[0];
      var rest := ScheduleBits(list[1..]);
      var q := p + |UeCode(rate)|;
      var r := q + |UeCode(size)|;
      UeThen(b, p, rate, UeCode(size) + ([cbr] + rest));
      UeThen(b, q, size, [cbr] + rest);
      BitThen(b, r, cbr, rest);
      SchedulesExactly(b, r + 1, list[1..]);
      assert list == [list[0]] + list[1..];
    }
  }

  lemma {:induction false} MatrixExactly(b: seq<bool>, p: nat, i: nat, count: nat, lists: seq<Option<seq<int>>>)
    requires i + |lists| == count
    ensures Exactly(ScalingMatrixAt(b, p, i, count), lists, WellFormedMatrix(lists, i), b, p, MatrixBits(lists))
    decreases |lists|
  {
    hide BitAt, StandsAt, ScalingListAt, SeCodes, WellFormedList;
    if lists == [] {
      NothingStands(b, p);
    } else {
      var rest := MatrixBits(lists[1..]);
      assert lists == [lists[0]] + lists[1..];
      BitExactly(b, p, false);
      match lists[0]
      case None =>
        BitThen(b, p, false, rest);
        MatrixExactly(b, p + 1, i + 1, count, lists[1..]);
      case Some(list) =>
        var q := p + 1 + |SeCodes(list)|;
        BitThen(b, p, true, SeCodes(list) + rest);
        ListExactly(b, p + 1, if i < 6 then 16 else 64, 8, 8, list);
        StandsSplit(b, p + 1, SeCodes(list), rest);
        MatrixExactly(b, q, i + 1, count, lists[1..]);
    }
  }

  // ----- The header -----

  /** The scaling matrix behind its flag. */
  function ScalingAt(b: seq<bool>, p: nat, format: nat): Read<Option<seq<Option<seq<int>>>>> {
    var (matrix, p) :- BitAt(b, p);
    if matrix then
      var (lists, p) :- ScalingMatrixAt(b, p, 0, if format != 3 then 8 else 12);
      Ok((Some(lists), p))
    else Ok((None, p))
  }

  lemma {:induction false} MatrixLength(b: seq<bool>, p: nat, i: nat, count: nat)
    requires i <= count && ScalingMatrixAt(b, p, i, count).Ok?
    ensures |ScalingMatrixAt(b, p, i, count).value.0| == count - i
    decreases count - i
  {
    hide BitAt, ScalingListAt;
    if i < count {
      var (present, q) := BitAt(b, p).value;
      MatrixLength(b, if present then ScalingListAt(b, q, if i < 6 then 16 else 64, 8, 8).value.1 else q, i + 1, count);
    }
  }

  lemma ScalingExactly(b: seq<bool>, p: nat, format: nat, scaling: Option<seq<Option<seq<int>>>>)
    ensures Exactly(ScalingAt(b, p, format), scaling,
                    scaling.Some? ==>
                      |scaling.value| == (if format != 3 then 8 else 12) && WellFormedMatrix(scaling.value, 0),
                    b, p, ScalingBits(scaling))
  {
    hide BitAt, StandsAt, ScalingMatrixAt, MatrixBits, WellFormedMatrix;
    BitExactly(b, p, false);
    match scaling
    case None =>
    case Some(lists) =>
      var count := if format != 3 then 8 else 12;
      BitThen(b, p, true, MatrixBits(lists));
      if |lists| == count {
        MatrixExactly(b, p + 1, 0, count, lists);
      } else if ScalingMatrixAt(b, p + 1, 0, count).Ok? {
        MatrixLength(b, p + 1, 0, count);
      }
  }

  lemma SeparateExactly(b: seq<bool>, p: nat, format: nat, separate: bool, rest: seq<bool>)
    ensures Then(if format == 3 then BitAt(b, p) else Ok((false, p)), separate, format != 3 ==> !separate, b, p,
                 if format == 3 then [separate] else [], rest)
  {
    hide StandsAt, BitAt;
    if format == 3 {
      BitThen(b, p, separate, rest);
    } else {
      NothingStands(b, p);
      assert [] + rest == rest;
      StandsSplit(b, p, [], rest);
    }
  }

  lemma ChromaInfoUnfolds(b: seq<bool>, p: nat)
    ensures ChromaInfoAt(b, p) ==
              (var (format, p) :- UeAt(b, p);
               var (separate, p) :- if format == 3 then BitAt(b, p) else Ok((false, p));
               var (luma, p) :- UeAt(b, p);
               var (chroma, p) :- UeAt(b, p);
               var (bypass, p) :- BitAt(b, p);
               var (scaling, p) :- ScalingAt(b, p, format);
               Ok((ChromaInfo(format, separate, luma, chroma, bypass, scaling), p)))
  {
    hide UeAt, BitAt, ScalingMatrixAt;
  }

  lemma ChromaInfoExactly(b: seq<bool>, p: nat, c: ChromaInfo)
    ensures Exactly(ChromaInfoAt(b, p), c, WellFormedChroma(c), b, p, ChromaInfoBits(c))
  {
    hide UeAt, UeCode, BitAt, StandsAt, ScalingAt, ScalingBits, WellFormedMatrix, ChromaInfoAt;
    ChromaInfoUnfolds(b, p);
    var bypass := [c.bypass] + ScalingBits(c.scaling);
    var chroma := UeCode(c.chromaDepth) + bypass;
    var luma := UeCode(c.lumaDepth) + chroma;
    var flag := if c.format == 3 then [c.separatePlanes] else [];
    var q := p + |UeCode(c.format)|;
    var r := q + |flag|;
    var s := r + |UeCode(c.lumaDepth)|;
    var t := s + |UeCode(c.chromaDepth)|;
    UeThen(b, p, c.format, flag + luma);
    SeparateExactly(b, q, c.format, c.separatePlanes, luma);
    UeThen(b, r, c.lumaDepth, chroma);
    UeThen(b, s, c.chromaDepth, bypass);
    BitThen(b, t, c.bypass, ScalingBits(c.scaling));
    ScalingExactly(b, t + 1, c.format, c.scaling);
  }

  lemma OptionalChromaExactly(b: seq<bool>, p: nat, profile: nat, chroma: Option<ChromaInfo>)
    ensures Exactly(OptionalChromaAt(b, p, profile), chroma,
                    (chroma.Some? <==> HasChromaInfo(profile)) && (chroma.Some? ==> WellFormedChroma(chroma.value)),
                    b, p, OptionalChromaBits(chroma))
  {
    hide ChromaInfoAt, ChromaInfoBits, WellFormedChroma, StandsAt, HasChromaInfo;
    match chroma
    case None => NothingStands(b, p);
    case Some(c) => ChromaInfoExactly(b, p, c);
  }

  lemma {:induction false} SeListLength(b: seq<bool>, p: nat, n: nat)
    requires SeListAt(b, p, n).Ok?
    ensures |SeListAt(b, p, n).value.0| == n
    decreases n
  {
    hide SeAt;
    if n > 0 {
      SeListLength(b, SeAt(b, p).value.1, n - 1);
    }
  }

  /** The second kind of picture order count, behind its kind. */
  function CycleAt(b: seq<bool>, p: nat): Read<PicOrder> {
    var (zero, p) :- BitAt(b, p);
    var (nonRef, p) :- SeAt(b, p);
    var (top, p) :- SeAt(b, p);
    var (n, p) :- UeAt(b, p);
    if n > 255 then Err(Malformed)
    else
      var (cycle, p) :- SeListAt(b, p, n);
      Ok((Poc1(zero, nonRef, top, cycle), p))
  }

  lemma CycleExactly(b: seq<bool>, p: nat, order: PicOrder)
    requires order.Poc1?
    ensures Exactly(CycleAt(b, p), order, WellFormedOrder(order), b, p,
                    [order.alwaysZero] + (SeCode(order.nonRef) + (SeCode(order.topToBottom) +
                    (UeCode(|order.cycle|) + SeCodes(order.cycle)))))
  {
    hide BitAt, SeAt, UeAt, SeListAt, SeCode, UeCode, SeCodes, StandsAt, Signed;
    var cycle := SeCodes(order.cycle);
    var n := UeCode(|order.cycle|) + cycle;
    var top := SeCode(order.topToBottom) + n;
    var q := p + 1 + |SeCode(order.nonRef)|;
    var r := q + |SeCode(order.topToBottom)|;
    var t := r + |UeCode(|order.cycle|)|;
    BitThen(b, p, order.alwaysZero, SeCode(order.nonRef) + top);
    SeThen(b, p + 1, order.nonRef, top);
    SeThen(b, q, order.topToBottom, n);
    UeThen(b, r, |order.cycle|, cycle);
    SeListExactly(b, t, order.cycle);
    if CycleAt(b, p).Ok? {
      CycleLength(b, p);
    }
  }

  lemma CycleLength(b: seq<bool>, p: nat)
    requires CycleAt(b, p).Ok?
    ensures var zero := BitAt(b, p).value; var nonRef := SeAt(b, zero.1).value; var top := SeAt(b, nonRef.1).value;
            |CycleAt(b, p).value.0.cycle| == UeAt(b, top.1).value.0 <= 255
  {
    hide BitAt, SeAt, UeAt, SeListAt;
    var r := SeAt(b, SeAt(b, BitAt(b, p).value.1).value.1).value.1;
    SeListLength(b, UeAt(b, r).value.1, UeAt(b, r).value.0);
  }

  lemma PicOrderExactly(b: seq<bool>, p: nat, order: PicOrder)
    ensures Exactly(PicOrderAt(b, p), order, WellFormedOrder(order), b, p, PicOrderBits(order))
  {
    hide UeAt, UeCode, StandsAt, CycleAt, SeCode, SeCodes, WellFormedOrder;
    PicOrderUnfolds(b, p);
    hide PicOrderAt;
    assert Unsigned(0) && Unsigned(1) && Unsigned(2);
    match order
    case Poc0(lsb) =>
      UeThen(b, p, 0, UeCode(lsb));
      UeExactly(b, p + |UeCode(0)|, lsb);
      OrderOf(order);
    case Poc1(zero, nonRef, top, cycle) =>
      UeThen(b, p, 1, [zero] + (SeCode(nonRef) + (SeCode(top) + (UeCode(|cycle|) + SeCodes(cycle)))));
      CycleExactly(b, p + |UeCode(1)|, order);
    case Poc2 =>
      UeExactly(b, p, 2);
      OrderOf(order);
  }

  lemma OrderOf(order: PicOrder)
    ensures order.Poc0? ==> (WellFormedOrder(order) <==> Unsigned(order.log2MaxLsb))
    ensures order.Poc2? ==> WellFormedOrder(order)
  {
  }

  lemma PicOrderUnfolds(b: seq<bool>, p: nat)
    ensures PicOrderAt(b, p) ==
              (var (kind, p) :- UeAt(b, p);
               if kind == 0 then
                 var (lsb, p) :- UeAt(b, p);
                 Ok((Poc0(lsb), p))
               else if kind == 1 then CycleAt(b, p)
               else if kind == 2 then Ok((Poc2, p))
               else Err(Malformed))
    ensures forall q | CycleAt(b, q).Ok? :: CycleAt(b, q).value.0.Poc1?
  {
    hide UeAt, BitAt, SeAt, SeListAt;
  }

  lemma CropExactly(b: seq<bool>, p: nat, crop: Option<Crop>)
    ensures Exactly(CropAt(b, p), crop, WellFormedCrop(crop), b, p, CropBits(crop))
  {
    hide BitAt, UeAt, UeCode, StandsAt;
    BitExactly(b, p, false);
    match crop
    case None =>
    case Some(c) =>
      var top := UeCode(c.top) + UeCode(c.bottom);
      var right := UeCode(c.right) + top;
      var q := p + 1 + |UeCode(c.left)|;
      var r := q + |UeCode(c.right)|;
      BitThen(b, p, true, UeCode(c.left) + right);
      UeThen(b, p + 1, c.left, right);
      UeThen(b, q, c.right, top);
      UeThen(b, r, c.top, UeCode(c.bottom));
      UeExactly(b, r + |UeCode(c.top)|, c.bottom);
  }

  /** frame_mbs_only_flag and what depends on it. */
  function MbsAt(b: seq<bool>, p: nat): Read<(bool, Option<bool>)> {
    var (frames, p) :- BitAt(b, p);
    var (adaptive, p) :- if frames then Ok((None, p)) else SomeBitAt(b, p);
    Ok(((frames, adaptive), p))
  }

  lemma MbsExactly(b: seq<bool>, p: nat, f: Frame)
    ensures Exactly(MbsAt(b, p), (f.mbsOnly, f.adaptive), f.mbsOnly <==> f.adaptive.None?, b, p, MbsBits(f))
  {
    hide BitAt, StandsAt;
    BitExactly(b, p, f.mbsOnly);
    if f.adaptive.Some? {
      BitThen(b, p, f.mbsOnly, [f.adaptive.value]);
      BitExactly(b, p + 1, f.adaptive.value);
    }
  }

  lemma FrameUnfolds(b: seq<bool>, p: nat)
    ensures FrameAt(b, p) ==
              (var (refs, p) :- UeAt(b, p);
               var (gaps, p) :- BitAt(b, p);
               var (width, p) :- UeAt(b, p);
               var (height, p) :- UeAt(b, p);
               var (mbs, p) :- MbsAt(b, p);
               var (direct, p) :- BitAt(b, p);
               var (crop, p) :- CropAt(b, p);
               Ok((Frame(refs, gaps, width, height, mbs.0, mbs.1, direct, crop), p)))
  {
    hide UeAt, BitAt, SomeBitAt, CropAt;
  }

  lemma FrameExactly(b: seq<bool>, p: nat, f: Frame)
    ensures Exactly(FrameAt(b, p), f, WellFormedFrame(f), b, p, FrameBits(f))
  {
    hide BitAt, UeAt, UeCode, StandsAt, CropAt, CropBits, MbsAt, MbsBits, WellFormedCrop, FrameAt, Unsigned;
    FrameUnfolds(b, p);
    var direct := [f.direct8x8] + CropBits(f.crop);
    var mbs := MbsBits(f) + direct;
    var height := UeCode(f.heightInUnits) + mbs;
    var width := UeCode(f.widthInMbs) + height;
    var q := p + |UeCode(f.refFrames)|;
    var r := q + 1 + |UeCode(f.widthInMbs)|;
    var s := r + |UeCode(f.heightInUnits)|;
    var t := s + |MbsBits(f)|;
    UeThen(b, p, f.refFrames, [f.gaps] + width);
    BitThen(b, q, f.gaps, width);
    UeThen(b, q + 1, f.widthInMbs, height);
    UeThen(b, r, f.heightInUnits, mbs);
    MbsExactly(b, s, f);
    StandsSplit(b, s, MbsBits(f), direct);
    BitThen(b, t, f.direct8x8, CropBits(f.crop));
    CropExactly(b, t + 1, f.crop);
  }

  lemma HeaderExactly(b: seq<bool>, h: Header)
    ensures Exactly(HeaderAt(b), h, WellFormedHeader(h), b, 0, HeaderBits(h))
  {
    hide UAt, UeAt, UeCode, BitsOf, StandsAt, OptionalChromaAt, OptionalChromaBits, PicOrderAt, PicOrderBits, FrameAt,
         FrameBits, HasChromaInfo, WellFormedChroma, WellFormedOrder, WellFormedFrame, Pow2, Unsigned;
    Powers();
    var order := PicOrderBits(h.picOrder) + FrameBits(h.frame);
    var num := UeCode(h.log2MaxFrameNum) + order;
    var chroma := OptionalChromaBits(h.chroma) + num;
    var id := UeCode(h.id) + chroma;
    var q := 24 + |UeCode(h.id)|;
    var r := q + |OptionalChromaBits(h.chroma)|;
    var s := r + |UeCode(h.log2MaxFrameNum)|;
    UThen(b, 0, h.profile, 8, BitsOf(h.constraintsAndLevel, 16) + id);
    UThen(b, 8, h.constraintsAndLevel, 16, id);
    UeThen(b, 24, h.id, chroma);
    OptionalChromaExactly(b, q, h.profile, h.chroma);
    StandsSplit(b, q, OptionalChromaBits(h.chroma), num);
    UeThen(b, r, h.log2MaxFrameNum, order);
    PicOrderExactly(b, s, h.picOrder);
    StandsSplit(b, s, PicOrderBits(h.picOrder), FrameBits(h.frame));
    FrameExactly(b, s + |PicOrderBits(h.picOrder)|, h.frame);
  }

  // ----- The VUI -----

  lemma AspectExactly(b: seq<bool>, p: nat, aspect: Option<Aspect>)
    ensures Exactly(AspectAt(b, p), aspect, WellFormedAspect(aspect), b, p, AspectBits(aspect))
  {
    hide BitAt, UAt, BitsOf, StandsAt, Pow2;
    Powers();
    BitExactly(b, p, false);
    match aspect
    case None =>
    case Some(a) =>
      var size := if a.idc == 255 then BitsOf(a.width, 16) + BitsOf(a.height, 16) else [];
      BitThen(b, p, true, BitsOf(a.idc, 8) + size);
      UThen(b, p + 1, a.idc, 8, size);
      if a.idc == 255 {
        UThen(b, p + 9, a.width, 16, BitsOf(a.height, 16));
        UExactly(b, p + 25, a.height, 16);
      } else {
        NothingStands(b, p + 9);
      }
  }

  lemma OverscanExactly(b: seq<bool>, p: nat, overscan: Option<bool>)
    ensures Exactly(OverscanAt(b, p), overscan, true, b, p, FlagBits(overscan))
  {
    hide BitAt, StandsAt;
    BitExactly(b, p, false);
    if overscan.Some? {
      BitThen(b, p, true, [overscan.value]);
      BitExactly(b, p + 1, overscan.value);
    }
  }

  /** The colour description behind its flag. */
  function ColourAt(b: seq<bool>, p: nat): Read<Option<Colour>> {
    var (described, p) :- BitAt(b, p);
    if !described then Ok((None, p))
    else
      var (primaries, p) :- UAt(b, p, 8);
      var (transfer, p) :- UAt(b, p, 8);
      var (matrix, p) :- UAt(b, p, 8);
      Ok((Some(Colour(primaries, transfer, matrix)), p))
  }

  lemma ColourExactly(b: seq<bool>, p: nat, colour: Option<Colour>)
    ensures Exactly(ColourAt(b, p), colour, WellFormedColour(colour), b, p, ColourBits(colour))
  {
    hide BitAt, UAt, BitsOf, StandsAt, Pow2;
    Powers();
    BitExactly(b, p, false);
    match colour
    case None =>
    case Some(c) =>
      var transfer := BitsOf(c.transfer, 8) + BitsOf(c.matrix, 8);
      BitThen(b, p, true, BitsOf(c.primaries, 8) + transfer);
      UThen(b, p + 1, c.primaries, 8, transfer);
      UThen(b, p + 9, c.transfer, 8, BitsOf(c.matrix, 8));
      UExactly(b, p + 17, c.matrix, 8);
  }

  lemma SignalUnfolds(b: seq<bool>, p: nat)
    ensures SignalAt(b, p) ==
              (var (present, p) :- BitAt(b, p);
               if !present then Ok((None, p))
               else
                 var (format, p) :- UAt(b, p, 3);
                 var (full, p) :- BitAt(b, p);
                 var (colour, p) :- ColourAt(b, p);
                 Ok((Some(Signal(format, full, colour)), p)))
  {
    hide BitAt, UAt;
  }

  lemma SignalExactly(b: seq<bool>, p: nat, signal: Option<Signal>)
    ensures Exactly(SignalAt(b, p), signal, WellFormedSignal(signal), b, p, SignalTypeBits(signal))
  {
    hide BitAt, UAt, BitsOf, StandsAt, Pow2, ColourAt, ColourBits, WellFormedColour, SignalAt;
    SignalUnfolds(b, p);
    Powers();
    BitExactly(b, p, false);
    match signal
    case None =>
    case Some(s) =>
      var full := [s.fullRange] + ColourBits(s.colour);
      BitThen(b, p, true, BitsOf(s.format, 3) + full);
      UThen(b, p + 1, s.format, 3, full);
      BitThen(b, p + 4, s.fullRange, ColourBits(s.colour));
      ColourExactly(b, p + 5, s.colour);
  }

  lemma LocationExactly(b: seq<bool>, p: nat, location: Option<(nat, nat)>)
    ensures Exactly(LocationAt(b, p), location, WellFormedLocation(location), b, p, LocationBits(location))
  {
    hide BitAt, UeAt, UeCode, StandsAt;
    BitExactly(b, p, false);
    match location
    case None =>
    case Some(l) =>
      BitThen(b, p, true, UeCode(l.0) + UeCode(l.1));
      UeThen(b, p + 1, l.0, UeCode(l.1));
      UeExactly(b, p + 1 + |UeCode(l.0)|, l.1);
  }

  lemma TimingExactly(b: seq<bool>, p: nat, timing: Option<Timing>)
    ensures Exactly(TimingAt(b, p), timing, WellFormedTiming(timing), b, p, TimingBits(timing))
  {
    hide BitAt, UAt, BitsOf, StandsAt, Pow2;
    Powers();
    BitExactly(b, p, false);
    match timing
    case None =>
    case Some(t) =>
      var scale := BitsOf(t.timeScale, 32) + [t.fixedRate];
      BitThen(b, p, true, BitsOf(t.unitsInTick, 32) + scale);
      UThen(b, p + 1, t.unitsInTick, 32, scale);
      UThen(b, p + 33, t.timeScale, 32, [t.fixedRate]);
      BitExactly(b, p + 65, t.fixedRate);
  }

  /** The four lengths that end an HRD. */
  function DelaysAt(b: seq<bool>, p: nat): Read<(nat, nat, nat, nat)> {
    var (initial, p) :- UAt(b, p, 5);
    var (removal, p) :- UAt(b, p, 5);
    var (output, p) :- UAt(b, p, 5);
    var (offset, p) :- UAt(b, p, 5);
    Ok(((initial, removal, output, offset), p))
  }

  lemma DelaysExactly(b: seq<bool>, p: nat, d: (nat, nat, nat, nat))
    ensures Exactly(DelaysAt(b, p), d, d.0 < 32 && d.1 < 32 && d.2 < 32 && d.3 < 32, b, p, DelayBits(d))
  {
    hide UAt, BitsOf, StandsAt, Pow2;
    Powers();
    var output := BitsOf(d.2, 5) + BitsOf(d.3, 5);
    UThen(b, p, d.0, 5, BitsOf(d.1, 5) + output);
    UThen(b, p + 5, d.1, 5, output);
    UThen(b, p + 10, d.2, 5, BitsOf(d.3, 5));
    UExactly(b, p + 15, d.3, 5);
  }

  lemma {:induction false} SchedulesLength(b: seq<bool>, p: nat, n: nat)
    requires SchedulesAt(b, p, n).Ok?
    ensures |SchedulesAt(b, p, n).value.0| == n
    decreases n
  {
    hide UeAt, BitAt;
    if n > 0 {
      SchedulesLength(b, BitAt(b, UeAt(b, UeAt(b, p).value.1).value.1).value.1, n - 1);
    }
  }

  /** An HRD behind its flag: the count, the scales, the schedules and the lengths. */
  function HrdBodyAt(b: seq<bool>, p: nat): Read<(nat, Hrd)> {
    var (count, p) :- UeAt(b, p);
    var (rate, p) :- UAt(b, p, 4);
    var (size, p) :- UAt(b, p, 4);
    var (schedules, p) :- SchedulesAt(b, p, count + 1);
    var (d, p) :- DelaysAt(b, p);
    Ok(((count, Hrd(rate, size, schedules, d.0, d.1, d.2, d.3)), p))
  }

  lemma HrdUnfolds(b: seq<bool>, p: nat)
    ensures HrdAt(b, p) ==
              (var (present, p) :- BitAt(b, p);
               if !present then Ok((None, p))
               else
                 var (body, p) :- HrdBodyAt(b, p);
                 Ok((Some(body.1), p)))
  {
    hide BitAt, UAt, UeAt, SchedulesAt;
  }

  lemma HrdBodyExactly(b: seq<bool>, p: nat, h: Hrd)
    requires |h.schedules| > 0
    ensures Exactly(HrdBodyAt(b, p), (LastOf(h.schedules), h), WellFormedHrd(Some(h)), b, p, HrdBodyBits(h))
  {
    hide UAt, UeAt, SchedulesAt, DelaysAt, UeCode, BitsOf, ScheduleBits, DelayBits, WellFormedSchedules, StandsAt, Pow2;
    Powers();
    var d := (h.initialDelay, h.removalDelay, h.outputDelay, h.timeOffset);
    var schedules := ScheduleBits(h.schedules) + DelayBits(d);
    var size := BitsOf(h.sizeScale, 4) + schedules;
    var rate := BitsOf(h.rateScale, 4) + size;
    var q := p + |UeCode(LastOf(h.schedules))|;
    UeThen(b, p, LastOf(h.schedules), rate);
    UThen(b, q, h.rateScale, 4, size);
    UThen(b, q + 4, h.sizeScale, 4, schedules);
    SchedulesExactly(b, q + 8, h.schedules);
    StandsSplit(b, q + 8, ScheduleBits(h.schedules), DelayBits(d));
    DelaysExactly(b, q + 8 + |ScheduleBits(h.schedules)|, d);
  }

  lemma HrdCount(b: seq<bool>, p: nat)
    requires HrdBodyAt(b, p).Ok?
    ensures |HrdBodyAt(b, p).value.0.1.schedules| == HrdBodyAt(b, p).value.0.0 + 1
  {
    hide UAt, UeAt, SchedulesAt, DelaysAt;
    var (count, q) := UeAt(b, p).value;
    SchedulesLength(b, UAt(b, UAt(b, q, 4).value.1, 4).value.1, count + 1);
  }

  lemma HrdExactly(b: seq<bool>, p: nat, hrd: Option<Hrd>)
    ensures Exactly(HrdAt(b, p), hrd, WellFormedHrd(hrd), b, p, HrdBits(hrd))
  {
    hide BitAt, HrdBodyAt, HrdAt, StandsAt, HrdBodyBits, WellFormedSchedules;
    HrdUnfolds(b, p);
    BitExactly(b, p, false);
    match hrd
    case None =>
    case Some(h) =>
      BitThen(b, p, true, HrdBodyBits(h));
      if HrdBodyAt(b, p + 1).Ok? {
        HrdCount(b, p + 1);
      }
      if h.schedules != [] {
        HrdBodyExactly(b, p + 1, h);
      }
  }

  lemma {:induction false} UeListLength(b: seq<bool>, p: nat, n: nat)
    requires UeListAt(b, p, n).Ok?
    ensures |UeListAt(b, p, n).value.0| == n
    decreases n
  {
    hide UeAt;
    if n > 0 {
      UeListLength(b, UeAt(b, p).value.1, n - 1);
    }
  }

  lemma RestrictionExactly(b: seq<bool>, p: nat, restriction: Option<Restriction>)
    ensures Exactly(RestrictionAt(b, p), restriction, WellFormedRestriction(restriction), b, p,
                    RestrictionBits(restriction))
  {
    hide BitAt, UeListAt, UeCodes, StandsAt, Unsigned;
    BitExactly(b, p, false);
    match restriction
    case None =>
    case Some(r) =>
      BitThen(b, p, true, [r.overBoundaries] + UeCodes(r.limits));
      BitThen(b, p + 1, r.overBoundaries, UeCodes(r.limits));
      if UeListAt(b, p + 2, 6).Ok? {
        UeListLength(b, p + 2, 6);
      }
      if |r.limits| == 6 {
        UeListExactly(b, p + 2, r.limits);
      }
  }

  lemma LowDelayExactly(b: seq<bool>, p: nat, present: bool, lowDelay: Option<bool>)
    ensures Exactly(if present then SomeBitAt(b, p) else Ok((None, p)), lowDelay, lowDelay.Some? <==> present, b, p,
                    LowDelayBits(lowDelay))
  {
    hide BitAt, StandsAt;
    match lowDelay
    case None => NothingStands(b, p);
    case Some(bit) => BitExactly(b, p, bit);
  }

  lemma TailExactly(b: seq<bool>, p: nat, t: VuiTail)
    ensures Exactly(TailAt(b, p), t, WellFormedTail(t), b, p, TailBits(t))
  {
    hide BitAt, StandsAt, SomeBitAt, LocationAt, TimingAt, HrdAt, RestrictionAt, LocationBits, TimingBits, HrdBits,
         LowDelayBits, RestrictionBits, WellFormedLocation, WellFormedTiming, WellFormedHrd, WellFormedRestriction;
    var struct := [t.picStruct] + RestrictionBits(t.restriction);
    var low := LowDelayBits(t.lowDelay) + struct;
    var vcl := HrdBits(t.vclHrd) + low;
    var nal := HrdBits(t.nalHrd) + vcl;
    var timing := TimingBits(t.timing) + nal;
    var q := p + |LocationBits(t.chromaLocation)|;
    var r := q + |TimingBits(t.timing)|;
    var s := r + |HrdBits(t.nalHrd)|;
    var u := s + |HrdBits(t.vclHrd)|;
    var v := u + |LowDelayBits(t.lowDelay)|;
    LocationExactly(b, p, t.chromaLocation);
    StandsSplit(b, p, LocationBits(t.chromaLocation), timing);
    TimingExactly(b, q, t.timing);
    StandsSplit(b, q, TimingBits(t.timing), nal);
    HrdExactly(b, r, t.nalHrd);
    StandsSplit(b, r, HrdBits(t.nalHrd), vcl);
    HrdExactly(b, s, t.vclHrd);
    StandsSplit(b, s, HrdBits(t.vclHrd), low);
    LowDelayExactly(b, u, t.nalHrd.Some? || t.vclHrd.Some?, t.lowDelay);
    StandsSplit(b, u, LowDelayBits(t.lowDelay), struct);
    BitThen(b, v, t.picStruct, RestrictionBits(t.restriction));
    RestrictionExactly(b, v + 1, t.restriction);
  }

  lemma VuiExactly(b: seq<bool>, p: nat, vui: Option<Vui>)
    ensures Exactly(OptionalVuiAt(b, p), vui, WellFormedVui(vui), b, p, VuiBits(vui))
  {
    hide BitAt, StandsAt, AspectAt, OverscanAt, SignalAt, TailAt, AspectBits, FlagBits, SignalTypeBits, TailBits,
         WellFormedAspect, WellFormedSignal, WellFormedTail;
    BitExactly(b, p, false);
    match vui
    case None =>
    case Some(v) =>
      var signal := SignalTypeBits(v.signal) + TailBits(v.tail);
      var overscan := FlagBits(v.overscan) + signal;
      var q := p + 1 + |AspectBits(v.aspect)|;
      var r := q + |FlagBits(v.overscan)|;
      BitThen(b, p, true, AspectBits(v.aspect) + overscan);
      AspectExactly(b, p + 1, v.aspect);
      StandsSplit(b, p + 1, AspectBits(v.aspect), overscan);
      OverscanExactly(b, q, v.overscan);
      StandsSplit(b, q, FlagBits(v.overscan), signal);
      SignalExactly(b, r, v.signal);
      StandsSplit(b, r, SignalTypeBits(v.signal), TailBits(v.tail));
      TailExactly(b, r + |SignalTypeBits(v.signal)|, v.tail);
  }

  /**
   * Parsing and printing are inverse: an RBSP parses to an SPS exactly where that is well formed, its printed bits
   * begin the RBSP, and the stop bit follows them.
   */
  lemma ParsesExactly(b: seq<bool>, s: Sps)
    ensures ParseSps(b) == Ok(s) <==>
              && WellFormed(s) && |SpsBits(s)| <= |b| && b[..|SpsBits(s)|] == SpsBits(s)
              && LastOne(b) == Ok(|SpsBits(s)|)
  {
    hide HeaderAt, OptionalVuiAt, HeaderBits, VuiBits, WellFormedHeader, WellFormedVui, LastOne;
    HeaderExactly(b, s.header);
    StandsSplit(b, 0, HeaderBits(s.header), VuiBits(s.vui));
    VuiExactly(b, |HeaderBits(s.header)|, s.vui);
  }

  // ----- A short SPS for any source -----

  /** What describes a source, its colour apart. */
  datatype Geometry = Geometry(
    width: nat, height: nat, crop: Option<Crop>, aspect: Option<Aspect>, location: Option<(nat, nat)>)

  function GeometryOf(s: Sps): Geometry {
    Geometry(s.header.frame.widthInMbs, s.header.frame.heightInUnits, s.header.frame.crop,
             if s.vui.Some? then s.vui.value.aspect else None,
             if s.vui.Some? then s.vui.value.tail.chromaLocation else None)
  }

  const BASELINE: nat := 66

  /** Progressive, 4:2:0, with this geometry and nothing else. */
  function MinimalSps(g: Geometry): Sps {
    Sps(Header(BASELINE, 0, 0, None, 0, Poc2, Frame(0, false, g.width, g.height, true, None, true, g.crop)),
        Some(Vui(g.aspect, None, None, VuiTail(g.location, None, None, None, None, false, None))))
  }

  lemma MinimalIsWellFormed(s: Sps)
    requires WellFormed(s)
    ensures WellFormed(MinimalSps(GeometryOf(s)))
  {
  }

  lemma CodeIsShort(v: nat)
    requires Unsigned(v)
    ensures |UeCode(v)| <= 63
  {
    var k := Log2(v + 1);
    Pow2At32();
    if k >= 32 {
      Pow2Monotone(32, k);
    }
    hide Pow2, BitsOf;
  }

  lemma MinimalIsShort(g: Geometry)
    requires WellFormed(MinimalSps(g))
    ensures |SpsBits(MinimalSps(g))| <= 1000
  {
    hide UeCode, BitsOf;
    CodeIsShort(0);
    CodeIsShort(2);
    CodeIsShort(g.width);
    CodeIsShort(g.height);
    if g.crop.Some? {
      CodeIsShort(g.crop.value.left);
      CodeIsShort(g.crop.value.right);
      CodeIsShort(g.crop.value.top);
      CodeIsShort(g.crop.value.bottom);
    }
    if g.location.Some? {
      CodeIsShort(g.location.value.0);
      CodeIsShort(g.location.value.1);
    }
  }
}
