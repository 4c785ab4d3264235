/** The BT.709 rewrite of an AVC sequence parameter set. */
module AvcVui {
  import opened Results
  import opened BitReader
  import opened Rbsp
  import opened SpsSyntax
  import opened SpsLocality
  import opened SpsPrinting
  import opened AvcFacts

  // ----- The walk to vui_parameters_present_flag -----

  /** Profiles added by later annexes: their SPS carries chroma information the walk does not expect. */
  predicate LaterProfile(profile: nat) {
    HasChromaInfo(profile) && profile !in {100, 110, 122, 244, 44, 83, 86}
  }

  /** The headers the walk can pass. */
  predicate Walkable(h: Header) {
    && h.frame.mbsOnly
    && (h.chroma.Some? ==> h.chroma.value.format == 1 && h.chroma.value.scaling.None?)
  }

  function WalkChroma(b: seq<bool>, p: nat): Result<nat, BitstreamError> {
    var (format, p) :- UeAt(b, p);
    if format != 1 then Err(Unsupported)
    else
      var (_, p) :- UeAt(b, p);
      var (_, p) :- UeAt(b, p);
      var (_, p) :- BitAt(b, p);
      var (matrix, p) :- BitAt(b, p);
      if matrix then Err(Unsupported) else Ok(p)
  }

  function WalkSigned(b: seq<bool>, p: nat, n: nat): Result<nat, BitstreamError>
    decreases n
  {
    if n == 0 then Ok(p)
    else
      var (_, q) :- SeAt(b, p);
      WalkSigned(b, q, n - 1)
  }

  function WalkPicOrder(b: seq<bool>, p: nat): Result<nat, BitstreamError> {
    var (kind, p) :- UeAt(b, p);
    if kind == 0 then
      var (_, p) :- UeAt(b, p);
      Ok(p)
    else if kind == 1 then
      var (_, p) :- BitAt(b, p);
      var (_, p) :- SeAt(b, p);
      var (_, p) :- SeAt(b, p);
      var (cycle, p) :- UeAt(b, p);
      if cycle > 255 then Err(Limit) else WalkSigned(b, p, cycle)
    else if kind == 2 then Ok(p)
    else Err(Unsupported)
  }

  function WalkCrop(b: seq<bool>, p: nat): Result<nat, BitstreamError> {
    var (present, p) :- BitAt(b, p);
    if !present then Ok(p)
    else
      var (_, p) :- UeAt(b, p);
      var (_, p) :- UeAt(b, p);
      var (_, p) :- UeAt(b, p);
      var (_, p) :- UeAt(b, p);
      Ok(p)
  }

  function WalkFrame(b: seq<bool>, p: nat): Result<nat, BitstreamError> {
    var (_, p) :- UeAt(b, p);
    var (_, p) :- BitAt(b, p);
    var (_, p) :- UeAt(b, p);
    var (_, p) :- UeAt(b, p);
    var (frames, p) :- BitAt(b, p);
    if !frames then Err(Unsupported)
    else
      var (_, p) :- BitAt(b, p);
      WalkCrop(b, p)
  }

  /** Where the walk ends, or why it stops. */
  function Walk(b: seq<bool>): Result<nat, BitstreamError> {
    var (profile, p) :- UAt(b, 0, 8);
    var (_, p) :- UAt(b, p, 16);
    var (_, p) :- UeAt(b, p);
    var p :- if profile in {100, 110, 122, 244, 44, 83, 86} then WalkChroma(b, p) else Ok(p);
    var (_, p) :- UeAt(b, p);
    var p :- WalkPicOrder(b, p);
    WalkFrame(b, p)
  }

  lemma {:induction false} WalkSignedFollows(b: seq<bool>, p: nat, n: nat)
    ensures WalkSigned(b, p, n).Ok? <==> SeListAt(b, p, n).Ok?
    ensures SeListAt(b, p, n).Ok? ==> WalkSigned(b, p, n) == Ok(SeListAt(b, p, n).value.1)
    decreases n
  {
    hide SeAt;
    if n > 0 && SeAt(b, p).Ok? {
      WalkSignedFollows(b, SeAt(b, p).value.1, n - 1);
    }
  }

  lemma WalkPicOrderFollows(b: seq<bool>, p: nat)
    ensures WalkPicOrder(b, p).Ok? <==> PicOrderAt(b, p).Ok?
    ensures PicOrderAt(b, p).Ok? ==> WalkPicOrder(b, p) == Ok(PicOrderAt(b, p).value.1)
  {
    hide UeAt, SeAt, WalkSigned, SeListAt;
    forall q: nat, n: nat
      ensures WalkSigned(b, q, n).Ok? <==> SeListAt(b, q, n).Ok?
      ensures SeListAt(b, q, n).Ok? ==> WalkSigned(b, q, n) == Ok(SeListAt(b, q, n).value.1)
    {
      WalkSignedFollows(b, q, n);
    }
  }

  lemma WalkChromaFollows(b: seq<bool>, p: nat, profile: nat)
    requires HasChromaInfo(profile)
    ensures WalkChroma(b, p).Ok? <==>
            && OptionalChromaAt(b, p, profile).Ok?
            && OptionalChromaAt(b, p, profile).value.0.value.format == 1
            && OptionalChromaAt(b, p, profile).value.0.value.scaling.None?
    ensures WalkChroma(b, p).Ok? ==> WalkChroma(b, p).value == OptionalChromaAt(b, p, profile).value.1
  {
    hide UeAt, ScalingMatrixAt;
  }

  lemma WalkFrameFollows(b: seq<bool>, p: nat)
    ensures WalkFrame(b, p).Ok? <==> FrameAt(b, p).Ok? && FrameAt(b, p).value.0.mbsOnly
    ensures WalkFrame(b, p).Ok? ==> WalkFrame(b, p).value == FrameAt(b, p).value.1
  {
    hide UeAt;
  }

  /** The profile the header announces is one the walk knows. */
  predicate KnownProfile(b: seq<bool>) {
    UAt(b, 0, 8).Ok? ==> !LaterProfile(UAt(b, 0, 8).value.0)
  }

  /** The header as the walk takes it: a later profile is taken to carry no chroma information. */
  function WalkedHeaderAt(b: seq<bool>): Read<Header> {
    var (profile, p) :- UAt(b, 0, 8);
    var (level, p) :- UAt(b, p, 16);
    var (id, p) :- UeAt(b, p);
    var (chroma, p) :- if LaterProfile(profile) then Ok((None, p)) else OptionalChromaAt(b, p, profile);
    var (frameNum, p) :- UeAt(b, p);
    var (order, p) :- PicOrderAt(b, p);
    var (frame, p) :- FrameAt(b, p);
    Ok((Header(profile, level, id, chroma, frameNum, order, frame), p))
  }

  /**
   * The walk passes exactly the headers that are progressive, 4:2:0 and without scaling lists, and then stands on
   * vui_parameters_present_flag; the headers are the standard's, but for the chroma information of a later profile.
   */
  lemma WalkFollowsSyntax(b: seq<bool>)
    ensures Walk(b).Ok? <==> WalkedHeaderAt(b).Ok? && Walkable(WalkedHeaderAt(b).value.0)
    ensures Walk(b).Ok? ==> Walk(b).value == WalkedHeaderAt(b).value.1
    ensures KnownProfile(b) ==> WalkedHeaderAt(b) == HeaderAt(b)
  {
    hide UeAt, UAt, WalkPicOrder, PicOrderAt, WalkChroma, OptionalChromaAt, WalkFrame, FrameAt;
    if UAt(b, 0, 8).Ok? && UAt(b, 8, 16).Ok? && UeAt(b, 24).Ok? {
      var profile := UAt(b, 0, 8).value.0;
      var p := UeAt(b, 24).value.1;
      NoChromaInfo(b, p, profile);
      if HasChromaInfo(profile) {
        WalkChromaFollows(b, p, profile);
      }
      var chroma := if LaterProfile(profile) then Ok((None, p)) else OptionalChromaAt(b, p, profile);
      if chroma.Ok? && UeAt(b, chroma.value.1).Ok? {
        var q := UeAt(b, chroma.value.1).value.1;
        WalkPicOrderFollows(b, q);
        if PicOrderAt(b, q).Ok? {
          WalkFrameFollows(b, PicOrderAt(b, q).value.1);
        }
      }
    }
  }

  lemma NoChromaInfo(b: seq<bool>, p: nat, profile: nat)
    ensures !HasChromaInfo(profile) ==> OptionalChromaAt(b, p, profile) == Ok((None, p))
    ensures HasChromaInfo(profile) && OptionalChromaAt(b, p, profile).Ok? ==>
              OptionalChromaAt(b, p, profile).value.0.Some?
  {
  }

  /** A later profile, 4:2:0, no VUI: the walk takes chroma_format_idc for log2_max_frame_num_minus4 and loses its place. */
  ghost predicate LaterProfileExample(b: seq<bool>, profile: nat) {
    && |b| == 48 && b[0..8] == BitsOf(profile, 8)
    && b[24]                                          // seq_parameter_set_id 0
    && !b[25] && b[26] && !b[27] && b[28] && b[29]    // chroma_format_idc 1, both depths 0
    && !b[30] && !b[31]                               // no bypass, no scaling matrix
    && b[32] && b[33] && b[34]                        // log2_max_frame_num, pic_order_cnt_type, its lsb: all 0
    && b[35] && !b[36] && b[37] && b[38] && b[39]     // no references or gaps, one macroblock, progressive
    && b[40] && !b[41] && !b[42] && b[43]             // direct_8x8, no crop, no VUI, stop bit
    && !b[44] && !b[45] && !b[46] && !b[47]           // alignment
  }

  lemma CodeOfOne()
    ensures UeCode(1) == [false, true, false]
  {
  }

  lemma FormatIsOne(b: seq<bool>)
    requires |b| >= 28 && !b[25] && b[26] && !b[27]
    ensures UeAt(b, 25) == Ok((1, 28))
  {
    CodeOfOne();
    hide UeCode, UeAt;
    assert b[25..28] == UeCode(1);
    UeCodeIsRead(b, 25, 1);
  }

  lemma UeZero(b: seq<bool>, p: nat)
    requires p < |b| && b[p]
    ensures UeAt(b, p) == Ok((0, p + 1))
  {
  }

  lemma ExampleProfile(b: seq<bool>, profile: nat)
    requires LaterProfile(profile) && LaterProfileExample(b, profile)
    ensures UAt(b, 0, 8) == Ok((profile, 8))
  {
    hide ValueOf, BitsOf;
    assert Pow2(8) == 256;
    ValueOfBits(profile, 8);
  }

  lemma ExampleChroma(b: seq<bool>, profile: nat)
    requires LaterProfile(profile) && LaterProfileExample(b, profile)
    ensures OptionalChromaAt(b, 25, profile) == Ok((Some(ChromaInfo(1, false, 0, 0, false, None)), 32))
  {
    hide UeAt, BitsOf;
    FormatIsOne(b);
    UeZero(b, 28);
    UeZero(b, 29);
  }

  lemma ExampleFrame(b: seq<bool>, profile: nat)
    requires LaterProfileExample(b, profile)
    ensures UeAt(b, 24) == Ok((0, 25)) && UeAt(b, 32) == Ok((0, 33)) && PicOrderAt(b, 33) == Ok((Poc0(0), 35))
    ensures FrameAt(b, 35) == Ok((Frame(0, false, 0, 0, true, None, true, None), 42))
  {
    hide UeAt, BitsOf;
    UeZero(b, 24);
    UeZero(b, 32);
    UeZero(b, 33);
    UeZero(b, 34);
    UeZero(b, 35);
    UeZero(b, 37);
    UeZero(b, 38);
  }

  lemma LaterProfileSyntax(b: seq<bool>, profile: nat)
    requires LaterProfile(profile) && LaterProfileExample(b, profile)
    ensures ParseSps(b).Ok? && Walkable(ParseSps(b).value.header) && HeaderAt(b).value.1 == 42
    ensures ParseSps(b).value.header.profile == profile && LastOne(b) == Ok(43)
    ensures FactsOf(ParseSps(b).value).Ok? && FactsOf(ParseSps(b).value).value.color.None?
  {
    hide UeAt, LastOne, ValueOf, BitsOf, OptionalChromaAt, PicOrderAt, FrameAt, FactsOf;
    ExampleProfile(b, profile);
    ExampleChroma(b, profile);
    ExampleFrame(b, profile);
    LastOneIs(b, 43);
    OneMacroblockFacts(ParseSps(b).value);
  }

  lemma OneMacroblockFacts(s: Sps)
    requires s.vui.None? && s.header.frame == Frame(0, false, 0, 0, true, None, true, None)
    requires s.header.chroma == Some(ChromaInfo(1, false, 0, 0, false, None))
    ensures FactsOf(s).Ok? && FactsOf(s).value.color.None?
  {
  }

  lemma LaterProfileWalk(b: seq<bool>, profile: nat)
    requires LaterProfile(profile) && LaterProfileExample(b, profile)
    ensures Walk(b) == Ok(43)
  {
    hide UeAt, ValueOf, BitsOf;
    ExampleProfile(b, profile);
    FormatIsOne(b);
    UeZero(b, 24);
    UeZero(b, 28);
    UeZero(b, 29);
    assert WalkPicOrder(b, 28) == Ok(30);
    assert UeAt(b, 30) == Ok((6, 35)) by {
      assert b[30..35] == [false, false, true, true, true] == UeCode(6) by { CodeOfSix(); }
      UeCodeIsRead(b, 30, 6);
    }
    assert UeAt(b, 36) == Ok((2, 39)) by {
      assert b[36..39] == [false, true, true] == UeCode(2) by { CodeOfTwo(); }
      UeCodeIsRead(b, 36, 2);
    }
    UeZero(b, 39);
    assert WalkFrame(b, 30) == Ok(43);
  }

  lemma CodeOfSix()
    ensures UeCode(6) == [false, false, true, true, true]
  {
  }

  lemma CodeOfTwo()
    ensures UeCode(2) == [false, true, true]
  {
  }

  lemma LaterProfileExists(profile: nat) returns (rbsp: seq<byte>)
    requires LaterProfile(profile)
    ensures LaterProfileExample(Unpack(rbsp), profile)
  {
    hide BitsOf, UeCode;
    var ones := {24, 26, 28, 29, 32, 33, 34, 35, 37, 38, 39, 40, 43};
    var b := seq(48, i requires 0 <= i < 48 => if i < 8 then BitsOf(profile, 8)[i] else i in ones);
    assert b[0..8] == BitsOf(profile, 8);
    assert LaterProfileExample(b, profile);
    hide LaterProfileExample;
    rbsp := PackExists(b);
  }

  /** For every later profile there is a well-formed SPS on which the walk overshoots. */
  lemma LaterProfileWalksAstray(profile: nat) returns (rbsp: seq<byte>)
    requires LaterProfile(profile)
    ensures var b := Unpack(rbsp);
            && ParseSps(b).Ok? && ParseSps(b).value.header.profile == profile && Walkable(ParseSps(b).value.header)
            && Walk(b).Ok? && Walk(b).value > HeaderAt(b).value.1
  {
    hide ParseSps, Walk, HeaderAt, Unpack, LaterProfileExample;
    rbsp := LaterProfileExists(profile);
    LaterProfileSyntax(Unpack(rbsp), profile);
    LaterProfileWalk(Unpack(rbsp), profile);
  }

  /** All the SPS of a profile that the walk should pass are walked to their flag. */
  ghost predicate WalkedRight(profile: nat) {
    forall rbsp: seq<byte> {:trigger Unpack(rbsp)} |
        ParseSps(Unpack(rbsp)).Ok? && ParseSps(Unpack(rbsp)).value.header.profile == profile
        && Walkable(ParseSps(Unpack(rbsp)).value.header) ::
      Walk(Unpack(rbsp)) == Ok(HeaderAt(Unpack(rbsp)).value.1)
  }

  /** The walk is right on a profile if and only if it is not a later one. */
  lemma ProfilesWalkedRight(profile: nat)
    ensures WalkedRight(profile) <==> !LaterProfile(profile)
  {
    hide Walk, HeaderAt, Walkable, OptionalVuiAt, LastOne, Unpack;
    if LaterProfile(profile) {
      var rbsp := LaterProfileWalksAstray(profile);
      assert Walk(Unpack(rbsp)) != Ok(HeaderAt(Unpack(rbsp)).value.1);
    } else {
      forall rbsp: seq<byte> {:trigger Unpack(rbsp)} |
          ParseSps(Unpack(rbsp)).Ok? && ParseSps(Unpack(rbsp)).value.header.profile == profile
          && Walkable(ParseSps(Unpack(rbsp)).value.header)
        ensures Walk(Unpack(rbsp)) == Ok(HeaderAt(Unpack(rbsp)).value.1)
      {
        ParsedHasHeader(Unpack(rbsp));
        HeaderHasProfile(Unpack(rbsp));
        WalkFollowsSyntax(Unpack(rbsp));
      }
    }
  }

  lemma HeaderHasProfile(b: seq<bool>)
    requires HeaderAt(b).Ok?
    ensures UAt(b, 0, 8).Ok? && UAt(b, 0, 8).value.0 == HeaderAt(b).value.0.profile
  {
    hide UeAt, UAt, OptionalChromaAt, PicOrderAt, FrameAt;
  }

  method SkipChroma(bits: Bits) returns (r: Result<(), BitstreamError>)
    modifies bits`pos
    ensures Landed(WalkChroma(bits.bits, old(bits.pos)), r, bits.pos)
  {
    hide UeAt;
    var format :- bits.ReadUe();
    if format != 1 {
      return Err(Unsupported);
    }
    var _ :- bits.ReadUe();
    var _ :- bits.ReadUe();
    var _ :- bits.Skip(1);
    var matrix :- bits.ReadBit();
    if matrix {
      return Err(Unsupported);
    }
    return Ok(());
  }

  method SkipPicOrder(bits: Bits) returns (r: Result<(), BitstreamError>)
    modifies bits`pos
    ensures Landed(WalkPicOrder(bits.bits, old(bits.pos)), r, bits.pos)
  {
    hide UeAt, SeAt;
    var kind :- bits.ReadUe();
    if kind == 0 {
      var _ :- bits.ReadUe();
    } else if kind == 1 {
      var _ :- bits.Skip(1);
      var _ :- bits.ReadSe();
      var _ :- bits.ReadSe();
      var cycle :- bits.ReadUe();
      if cycle > 255 {
        return Err(Limit);
      }
      ghost var spec := WalkSigned(bits.bits, bits.pos, cycle);
      for i := 0 to cycle
        invariant WalkSigned(bits.bits, bits.pos, cycle - i) == spec
      {
        var _ :- bits.ReadSe();
      }
    } else if kind != 2 {
      return Err(Unsupported);
    }
    return Ok(());
  }

  method SkipCrop(bits: Bits) returns (r: Result<(), BitstreamError>)
    modifies bits`pos
    ensures Landed(WalkCrop(bits.bits, old(bits.pos)), r, bits.pos)
  {
    hide UeAt;
    var present :- bits.ReadBit();
    if present {
      var _ :- bits.ReadUe();
      var _ :- bits.ReadUe();
      var _ :- bits.ReadUe();
      var _ :- bits.ReadUe();
    }
    return Ok(());
  }

  method SkipFrame(bits: Bits) returns (r: Result<(), BitstreamError>)
    modifies bits`pos
    ensures Landed(WalkFrame(bits.bits, old(bits.pos)), r, bits.pos)
  {
    hide UeAt, WalkCrop;
    var _ :- bits.ReadUe();
    var _ :- bits.Skip(1);
    var _ :- bits.ReadUe();
    var _ :- bits.ReadUe();
    var frames :- bits.ReadBit();
    if !frames {
      return Err(Unsupported);
    }
    var _ :- bits.Skip(1);
    var _ :- SkipCrop(bits);
    return Ok(());
  }

  /** The source's one function, read as four. */
  method SkipSpsToVuiFlag(bits: Bits) returns (r: Result<nat, BitstreamError>)
    requires bits.pos == 0
    modifies bits`pos
    ensures r == Walk(bits.bits)
  {
    hide UeAt, WalkChroma, WalkPicOrder, WalkFrame;
    var profile :- bits.Read(8);
    var _ :- bits.Skip(16);
    var _ :- bits.ReadUe();
    if profile in {100, 110, 122, 244, 44, 83, 86} {
      var _ :- SkipChroma(bits);
    }
    var _ :- bits.ReadUe();
    var _ :- SkipPicOrder(bits);
    var _ :- SkipFrame(bits);
    return Ok(bits.pos);
  }

  // ----- The rewrite -----

  const UNSPECIFIED_FORMAT: nat := 5

  /** The value of all three colour codes for BT.709. */
  const BT709_CODE: nat := 1

  /** video_format, limited range, and a colour description with the same value for all three codes. */
  function SignalBits(format: nat, code: nat): (s: seq<bool>)
    ensures |s| == 29
  {
    BitsOf(format, 3) + [false, true] + BitsOf(code, 8) + BitsOf(code, 8) + BitsOf(code, 8)
  }

  function LimitedSignal(format: nat, code: nat): Signal {
    Signal(format, false, Some(Colour(code, code, code)))
  }

  /** What the rewrite promises: the same syntax elements, with video_signal_type now limited BT.709. */
  function WithBt709(s: Sps): Sps {
    match s.vui
    case None =>
      s.(vui := Some(Vui(None, None, Some(LimitedSignal(UNSPECIFIED_FORMAT, BT709_CODE)),
                         VuiTail(None, None, None, None, None, false, None))))
    case Some(vui) =>
      var format := if vui.signal.Some? then vui.signal.value.format else UNSPECIFIED_FORMAT;
      s.(vui := Some(vui.(signal := Some(LimitedSignal(format, BT709_CODE)))))
  }

  /** From position a on, c holds a present, limited and described video_signal_type. */
  ghost predicate HasSignal(c: seq<bool>, a: nat, format: nat, code: nat) {
    a + 30 <= |c| && c[a] && c[a + 1..a + 30] == SignalBits(format, code)
  }

  lemma SignalParts(c: seq<bool>, a: nat, format: nat, code: nat)
    requires HasSignal(c, a, format, code)
    ensures c[a] && !c[a + 4] && c[a + 5] && c[a + 1..a + 4] == BitsOf(format, 3)
    ensures c[a + 6..a + 14] == c[a + 14..a + 22] == c[a + 22..a + 30] == BitsOf(code, 8)
  {
    hide BitsOf;
    var s := c[a + 1..a + 30];
    assert s == SignalBits(format, code);
    assert c[a + 1..a + 4] == s[..3];
    assert c[a + 4] == s[3] && c[a + 5] == s[4];
    SliceOfSlice(c, a + 1, a + 30, 5, 13);
    SliceOfSlice(c, a + 1, a + 30, 13, 21);
    SliceOfSlice(c, a + 1, a + 30, 21, 29);
  }

  lemma SignalIsRead(c: seq<bool>, a: nat, format: nat, code: nat)
    requires format < 8 && code < 256 && HasSignal(c, a, format, code)
    ensures SignalAt(c, a) == Ok((Some(LimitedSignal(format, code)), a + 30))
  {
    hide ValueOf, BitsOf, HasSignal;
    assert Pow2(3) == 8 && Pow2(8) == 256;
    ValueOfBits(format, 3);
    ValueOfBits(code, 8);
    assert a + 30 <= |c| by { SignalFits(c, a, format, code); }
    SignalParts(c, a, format, code);
  }

  lemma SignalFits(c: seq<bool>, a: nat, format: nat, code: nat)
    requires HasSignal(c, a, format, code)
    ensures a + 30 <= |c|
  {
  }

  /** The three shapes of video_signal_type, by position. */
  lemma SignalShape(b: seq<bool>, a: nat)
    requires SignalAt(b, a).Ok?
    ensures var (signal, t) := SignalAt(b, a).value;
            && a < t <= |b|
            && match signal
               case None => !b[a] && t == a + 1
               case Some(Signal(format, full, colour)) =>
                 && b[a] && t == (if colour.Some? then a + 30 else a + 6)
                 && b[a + 1..a + 4] == BitsOf(format, 3) && format < 8
                 && b[a + 4] == full && b[a + 5] == colour.Some?
  {
    hide ValueOf, BitsOf;
    if b[a] {
      BitsOfValue(b[a + 1..a + 4]);
      assert Pow2(3) == 8;
    }
  }

  /** Where the parts of a parsed SPS with a VUI stand. */
  datatype Layout = Layout(flag: nat, signal: nat, tail: nat, stop: nat)

  function End<T>(r: Read<T>): nat {
    if r.Ok? then r.value.1 else 0
  }

  function LayoutOf(b: seq<bool>): Layout {
    var flag := End(HeaderAt(b));
    var signal := End(VuiStartAt(b, flag + 1));
    var tail := End(SignalAt(b, signal));
    Layout(flag, signal, tail, if LastOne(b).Ok? then LastOne(b).value else 0)
  }

  lemma LayoutFacts(b: seq<bool>)
    requires ParseSps(b).Ok? && ParseSps(b).value.vui.Some?
    ensures var l := LayoutOf(b); var vui := ParseSps(b).value.vui.value;
            && HeaderAt(b) == Ok((ParseSps(b).value.header, l.flag))
            && l.flag < l.signal < l.tail <= l.stop < |b| && b[l.flag] && LastOne(b) == Ok(l.stop)
            && VuiStartAt(b, l.flag + 1) == Ok(((vui.aspect, vui.overscan), l.signal))
            && SignalAt(b, l.signal) == Ok((vui.signal, l.tail))
            && TailAt(b, l.tail) == Ok((vui.tail, l.stop))
  {
    hide HeaderAt, VuiStartAt, TailAt, SignalAt, LastOne;
    SignalShape(b, VuiStartAt(b, HeaderAt(b).value.1 + 1).value.1);
  }

  /** c is b with its video_signal_type replaced, ended by a stop bit and padding. */
  ghost predicate Rebuilt(b: seq<bool>, c: seq<bool>, l: Layout, format: nat, code: nat)
    requires l.signal <= l.tail <= l.stop < |b|
  {
    var end := l.stop + (l.signal + 30 - l.tail);
    && l.signal + 30 <= end < |c|
    && c[..l.signal] == b[..l.signal]
    && HasSignal(c, l.signal, format, code)
    && c[l.signal + 30..end] == b[l.tail..l.stop]
    && c[end]
    && forall i | end < i < |c| :: !c[i]
  }

  lemma RebuiltParts(b: seq<bool>, c: seq<bool>, l: Layout, format: nat, code: nat)
    requires l.signal <= l.tail <= l.stop < |b| && Rebuilt(b, c, l, format, code)
    ensures var d := l.signal + 30 - l.tail;
            && Moved(b, 0, l.signal, c, 0) && Moved(b, l.tail, l.stop, c, d) && LastOne(c) == Ok(l.stop + d)
  {
    hide HasSignal;
    var d := l.signal + 30 - l.tail;
    forall i {:trigger b[i]} | 0 <= i < l.signal
      ensures b[i] == c[i + 0]
    {
      assert b[..l.signal][i] == c[..l.signal][i];
    }
    forall i {:trigger b[i]} | l.tail <= i < l.stop
      ensures b[i] == c[i + d]
    {
      assert b[i] == b[l.tail..l.stop][i - l.tail];
      assert c[i + d] == c[l.signal + 30..l.stop + d][i - l.tail];
    }
    LastOneIs(c, l.stop + d);
  }

  function WithSignal(s: Sps, signal: Signal): Sps
    requires s.vui.Some?
  {
    s.(vui := Some(s.vui.value.(signal := Some(signal))))
  }

  /** Replacing the video_signal_type of an SPS changes no other syntax element. */
  lemma RebuiltKeepsSyntax(b: seq<bool>, c: seq<bool>, format: nat, code: nat)
    requires ParseSps(b).Ok? && ParseSps(b).value.vui.Some? && format < 8 && code < 256
    requires LayoutOf(b).signal <= LayoutOf(b).tail <= LayoutOf(b).stop < |b|
    requires Rebuilt(b, c, LayoutOf(b), format, code)
    ensures ParseSps(c) == Ok(WithSignal(ParseSps(b).value, LimitedSignal(format, code)))
  {
    hide HeaderAt, VuiStartAt, TailAt, SignalAt, HasSignal, LastOne, LayoutOf;
    LayoutFacts(b);
    var l := LayoutOf(b);
    var d := l.signal + 30 - l.tail;
    RebuiltParts(b, c, l, format, code);
    HeaderStays(b, l.signal, c);
    VuiStartMoves(b, 0, l.signal, c, 0, l.flag + 1);
    SignalIsRead(c, l.signal, format, code);
    TailMoves(b, l.tail, l.stop, c, d, l.tail);
    assert b[l.flag] == c[l.flag + 0];
  }

  /** An SPS without a VUI, given one that holds nothing but the BT.709 signal. */
  ghost predicate Inserted(b: seq<bool>, c: seq<bool>, flag: nat)
    requires flag <= |b|
  {
    && flag + 39 < |c|
    && c[..flag] == b[..flag]
    && c[flag] && !c[flag + 1] && !c[flag + 2]
    && HasSignal(c, flag + 3, UNSPECIFIED_FORMAT, BT709_CODE)
    && (forall i | flag + 33 <= i < flag + 39 :: !c[i])
    && c[flag + 39]
    && forall i | flag + 39 < i < |c| :: !c[i]
  }

  lemma InsertedKeepsSyntax(b: seq<bool>, c: seq<bool>)
    requires ParseSps(b).Ok? && ParseSps(b).value.vui.None?
    requires HeaderAt(b).value.1 <= |b| && Inserted(b, c, HeaderAt(b).value.1)
    ensures ParseSps(c) == Ok(WithBt709(ParseSps(b).value))
  {
    hide HeaderAt, HasSignal, SignalAt, LastOne;
    var flag := HeaderAt(b).value.1;
    forall i {:trigger b[i]} | 0 <= i < flag
      ensures b[i] == c[i + 0]
    {
      assert b[..flag][i] == c[..flag][i];
    }
    HeaderStays(b, flag, c);
    SignalIsRead(c, flag + 3, UNSPECIFIED_FORMAT, BT709_CODE);
    LastOneIs(c, flag + 39);
    assert VuiStartAt(c, flag + 1) == Ok(((None, None), flag + 3));
    assert TailAt(c, flag + 33) == Ok((VuiTail(None, None, None, None, None, false, None), flag + 39));
  }

  /** How far an aspect ratio reaches; the size behind an extended one is passed unread. */
  function AspectEnd(b: seq<bool>, cursor: nat): Result<nat, BitstreamError> {
    var (present, p) :- BitAt(b, cursor);
    if !present then Ok(p)
    else
      var (idc, q) :- UAt(b, p, 8);
      Ok(if idc == 255 then q + 32 else q)
  }

  function OverscanEnd(b: seq<bool>, cursor: nat): Result<nat, BitstreamError> {
    var (present, p) :- BitAt(b, cursor);
    Ok(if present then p + 1 else p)
  }

  method SkipAspectRatio(bits: Bits, cursor: nat) returns (r: Result<nat, BitstreamError>)
    ensures r == AspectEnd(bits.bits, cursor)
    ensures AspectAt(bits.bits, cursor).Ok? ==> r == Ok(AspectAt(bits.bits, cursor).value.1)
  {
    var present :- bits.ReadAt(cursor);
    if present {
      var idc :- bits.ReadN(cursor + 1, 8);
      return Ok(if idc == 255 then cursor + 41 else cursor + 9);
    }
    return Ok(cursor + 1);
  }

  method SkipOverscan(bits: Bits, cursor: nat) returns (r: Result<nat, BitstreamError>)
    ensures r == OverscanEnd(bits.bits, cursor)
    ensures OverscanAt(bits.bits, cursor).Ok? ==> r == Ok(OverscanAt(bits.bits, cursor).value.1)
  {
    var present :- bits.ReadAt(cursor);
    return Ok(if present then cursor + 2 else cursor + 1);
  }

  method PushBits(out: seq<bool>, value: nat, width: nat) returns (r: seq<bool>)
    ensures r == out + BitsOf(value, width)
  {
    r := out + BitsOf(value, width);
  }

  method PushVideoSignal(out: seq<bool>) returns (r: seq<bool>)
    ensures r == out + SignalBits(UNSPECIFIED_FORMAT, BT709_CODE)
  {
    r := out + BitsOf(UNSPECIFIED_FORMAT, 3) + [false, true] + BitsOf(1, 8) + BitsOf(1, 8) + BitsOf(1, 8);
  }

  /** The bits b[..a], a present signal and b[tail..stop], ended and padded to n bytes, are b rebuilt. */
  lemma FinishedIsRebuilt(b: seq<bool>, c: seq<bool>, l: Layout, format: nat, code: nat, payload: seq<bool>, n: nat)
    requires l.signal <= l.tail <= l.stop < |b|
    requires payload == b[..l.signal] + ([true] + SignalBits(format, code)) + b[l.tail..l.stop] + [true]
    requires |payload| <= 8 * n && c == Padded(payload, |payload|, n)
    ensures Rebuilt(b, c, l, format, code)
  {
    hide SignalBits;
    var end := l.stop + (l.signal + 30 - l.tail);
    assert c[..|payload|] == payload;
    assert c[l.signal + 1..l.signal + 30] == SignalBits(format, code);
    assert c[l.signal + 30..end] == b[l.tail..l.stop];
  }

  lemma SignalGrows(b: seq<bool>, a: nat, format: nat)
    requires a + 6 <= |b| && b[a] && b[a + 1..a + 4] == BitsOf(format, 3) && !b[a + 4]
    ensures b[..a + 5] + [true] + BitsOf(1, 8) + BitsOf(1, 8) + BitsOf(1, 8) ==
            b[..a] + ([true] + SignalBits(format, BT709_CODE))
  {
    hide BitsOf;
    assert b[..a + 5] == b[..a] + [true] + b[a + 1..a + 4] + [false];
  }

  /** Any new start that ends in a BT.709 signal, followed by the old tail and finished, is the promised rewrite. */
  lemma RewrittenExisting(b: seq<bool>, c: seq<bool>, l: Layout, format: nat, start: seq<bool>)
    requires ParseSps(b).Ok? && ParseSps(b).value.vui.Some? && l == LayoutOf(b) && format < 8
    requires var signal := ParseSps(b).value.vui.value.signal;
             format == if signal.Some? then signal.value.format else UNSPECIFIED_FORMAT
    requires l.signal <= l.tail <= l.stop < |b|
    requires start == b[..l.signal] + ([true] + SignalBits(format, BT709_CODE))
    requires var payload := start + b[l.tail..l.stop] + [true];
             c == Padded(payload, |payload|, BytesFor(|payload|))
    ensures ParseSps(c) == Ok(WithBt709(ParseSps(b).value))
  {
    hide ParseSps, LayoutOf, Padded, SignalBits, Rebuilt;
    var payload := start + b[l.tail..l.stop] + [true];
    FinishedIsRebuilt(b, c, l, format, BT709_CODE, payload, BytesFor(|payload|));
    RebuiltKeepsSyntax(b, c, format, BT709_CODE);
  }

  /** Overwriting the three colour bytes in place leaves the stop bit and everything around them. */
  lemma PatchedParts(b: seq<bool>, patched: seq<bool>, l: Layout)
    requires l.tail == l.signal + 30 <= l.stop < |b| && LastOne(b) == Ok(l.stop)
    requires var c := l.signal + 6;
             patched == b[..c] + BitsOf(1, 8) + BitsOf(1, 8) + BitsOf(1, 8) + b[c + 24..]
    ensures LastOne(patched) == Ok(l.stop)
    ensures patched[..l.stop] ==
            b[..l.signal + 6] + BitsOf(1, 8) + BitsOf(1, 8) + BitsOf(1, 8) + b[l.tail..l.stop]
  {
    hide BitsOf;
    forall i | l.stop <= i < |b|
      ensures patched[i] == b[i]
    {
    }
    LastOneIs(patched, l.stop);
  }

  lemma ThreeWrites(b: seq<bool>, c: nat, one: seq<bool>, b1: seq<bool>, b2: seq<bool>, b3: seq<bool>)
    requires c + 24 <= |b| && |one| == 8
    requires b1 == b[..c] + one + b[c + 8..]
    requires b2 == b1[..c + 8] + one + b1[c + 16..]
    requires b3 == b2[..c + 16] + one + b2[c + 24..]
    ensures b3 == b[..c] + one + one + one + b[c + 24..]
  {
  }

  lemma VuiStartParts(b: seq<bool>, p: nat)
    requires VuiStartAt(b, p).Ok?
    ensures AspectAt(b, p).Ok? && OverscanAt(b, AspectAt(b, p).value.1).Ok?
    ensures OverscanAt(b, AspectAt(b, p).value.1).value.1 == VuiStartAt(b, p).value.1
  {
    hide AspectAt, OverscanAt;
  }

  /** A rewritten RBSP ends in a byte with the stop bit and is at most six bytes longer than the b it came from. */
  ghost predicate Finished(b: seq<bool>, bytes: seq<byte>) {
    bytes != [] && bytes[|bytes| - 1] != 0 && |bytes| <= |b| / 8 + 6
  }

  /** b holds a parsed SPS with a VUI, laid out as l. */
  ghost predicate Parsed(b: seq<bool>, l: Layout) {
    && ParseSps(b).Ok? && ParseSps(b).value.vui.Some?
    && l == LayoutOf(b) && l.signal < l.tail <= l.stop < |b| && LastOne(b) == Ok(l.stop)
  }

  /** How a rewrite ends; a slice whose bounds are out of order panics. */
  datatype Outcome = Returned(result: Result<seq<byte>, BitstreamError>) | Panicked

  /** Every rewritten RBSP ends in a byte with the stop bit. */
  predicate Ended(o: Outcome) {
    o.Returned? && o.result.Ok? ==> o.result.value != [] && o.result.value[|o.result.value| - 1] != 0
  }

  /** The RBSP holds the syntax of b with limited BT.709 as its signal type. */
  ghost predicate Rewritten(b: seq<bool>, o: Outcome) {
    && ParseSps(b).Ok? && o.Returned? && o.result.Ok?
    && ParseSps(Unpack(o.result.value)) == Ok(WithBt709(ParseSps(b).value)) && Finished(b, o.result.value)
  }

  // On a parsed SPS none of the source's `?` below can fire, and no slice panics, which the contracts say.

  /** The parsed SPS has a colour description whose codes stand at cursor. */
  ghost predicate Patchable(b: seq<bool>, l: Layout, cursor: nat) {
    && Parsed(b, l) && cursor == l.signal + 6 && l.tail == l.signal + 30
    && var signal := ParseSps(b).value.vui.value.signal;
       && signal.Some? && signal.value.format < 8
       && b[l.signal + 1..l.signal + 4] == BitsOf(signal.value.format, 3)
       && b[l.signal] && !b[l.signal + 4] && b[l.signal + 5]
  }

  lemma PatchedIsRewritten(b: seq<bool>, l: Layout, cursor: nat, b1: seq<bool>, b2: seq<bool>, b3: seq<bool>)
    requires Patchable(b, l, cursor)
    requires b1 == b[..cursor] + BitsOf(1, 8) + b[cursor + 8..]
    requires |b1| == |b| && b2 == b1[..cursor + 8] + BitsOf(1, 8) + b1[cursor + 16..]
    requires |b2| == |b| && b3 == b2[..cursor + 16] + BitsOf(1, 8) + b2[cursor + 24..]
    ensures LastOne(b3) == Ok(l.stop) && l.stop <= |b3|
    ensures var payload := b3[..l.stop] + [true];
            forall bytes: seq<byte> | Unpack(bytes) == Padded(payload, |payload|, BytesFor(|payload|)) ::
              ParseSps(Unpack(bytes)) == Ok(WithBt709(ParseSps(b).value))
  {
    hide ParseSps, LayoutOf, BitsOf, Padded, LastOne, WithBt709, Unpack, SignalBits;
    var format := ParseSps(b).value.vui.value.signal.value.format;
    ThreeWrites(b, cursor, BitsOf(1, 8), b1, b2, b3);
    PatchedParts(b, b3, l);
    assert b[..cursor] == b[..l.signal + 5] + [true];
    SignalGrows(b, l.signal, format);
    var payload := b3[..l.stop] + [true];
    forall bytes: seq<byte> | Unpack(bytes) == Padded(payload, |payload|, BytesFor(|payload|))
      ensures ParseSps(Unpack(bytes)) == Ok(WithBt709(ParseSps(b).value))
    {
      RewrittenExisting(b, Unpack(bytes), l, format, b[..cursor] + BitsOf(1, 8) + BitsOf(1, 8) + BitsOf(1, 8));
    }
  }

  /** A colour description is there: patch its three bytes in place. */
  method PatchColour(bits: Bits, cursor: nat, ghost l: Layout) returns (r: Result<seq<byte>, BitstreamError>)
    ensures Ended(Returned(r))
    ensures Patchable(bits.bits, l, cursor) ==> Rewritten(bits.bits, Returned(r))
  {
    hide ParseSps, LayoutOf, BitsOf, Padded, LastOne, WithBt709, Unpack, SignalBits;
    ghost var b := bits.bits;
    var patched := new Bits(bits.bits);
    var _ :- patched.WriteU8(cursor, 1);
    ghost var first := patched.bits;
    var _ :- patched.WriteU8(cursor + 8, 1);
    ghost var second := patched.bits;
    var _ :- patched.WriteU8(cursor + 16, 1);
    if Patchable(b, l, cursor) {
      PatchedIsRewritten(b, l, cursor, first, second, patched.bits);
    }
    var stop :- patched.StopBit();
    LastOneInside(patched.bits);
    var bytes := patched.FinishFrom(Some(stop));
    return Ok(bytes);
  }

  lemma LastOneInside(b: seq<bool>)
    ensures LastOne(b).Ok? ==> LastOne(b).value < |b|
  {
  }

  /** The parsed SPS has a signal type without colour description, whose flag stands at cursor. */
  ghost predicate Growable(b: seq<bool>, l: Layout, cursor: nat) {
    && Parsed(b, l) && cursor == l.signal + 5 && l.tail == l.signal + 6
    && var signal := ParseSps(b).value.vui.value.signal;
       && signal.Some? && signal.value.format < 8
       && b[l.signal + 1..l.signal + 4] == BitsOf(signal.value.format, 3)
       && b[l.signal] && !b[l.signal + 4]
  }

  /** The slice from behind a flag to the stop bit has its bounds out of order. */
  predicate StopsBehind(b: seq<bool>, flag: nat) {
    LastOne(b).Ok? && LastOne(b).value <= flag
  }

  /** A signal type without colour description: set the flag at cursor and add the description. */
  method AddColour(bits: Bits, cursor: nat, ghost l: Layout) returns (o: Outcome)
    requires cursor < |bits.bits|
    ensures Ended(o) && (o.Panicked? <==> StopsBehind(bits.bits, cursor))
    ensures Growable(bits.bits, l, cursor) ==> Rewritten(bits.bits, o)
  {
    hide ParseSps, LayoutOf, BitsOf, Padded, LastOne, WithBt709, Unpack, SignalBits;
    ghost var b := bits.bits;
    var out := bits.bits[..cursor] + [true];
    out := PushBits(out, 1, 8);
    out := PushBits(out, 1, 8);
    out := PushBits(out, 1, 8);
    var stop := bits.StopBit();
    LastOneInside(b);
    if stop.Err? {
      return Returned(Err(stop.error));
    }
    if stop.value < cursor + 1 {
      return Panicked;
    }
    var rebuilt := new Bits(out + bits.bits[cursor + 1..stop.value]);
    var bytes := rebuilt.FinishFrom(None);
    if Growable(b, l, cursor) {
      SignalGrows(b, l.signal, ParseSps(b).value.vui.value.signal.value.format);
      RewrittenExisting(b, Unpack(bytes), l, ParseSps(b).value.vui.value.signal.value.format, out);
    }
    return Returned(Ok(bytes));
  }

  /** The parsed SPS has no signal type; its flag stands at flag. */
  ghost predicate Signalless(b: seq<bool>, l: Layout, flag: nat) {
    Parsed(b, l) && flag == l.signal && l.tail == l.signal + 1 && ParseSps(b).value.vui.value.signal.None?
  }

  /** No signal type: set its flag and add the whole of it. */
  method AddSignal(bits: Bits, flag: nat, ghost l: Layout) returns (o: Outcome)
    requires flag < |bits.bits|
    ensures Ended(o) && (o.Panicked? <==> StopsBehind(bits.bits, flag))
    ensures Signalless(bits.bits, l, flag) ==> Rewritten(bits.bits, o)
  {
    hide ParseSps, LayoutOf, BitsOf, Padded, LastOne, WithBt709, Unpack, SignalBits;
    ghost var b := bits.bits;
    var out := PushVideoSignal(bits.bits[..flag] + [true]);
    var stop := bits.StopBit();
    LastOneInside(b);
    if stop.Err? {
      return Returned(Err(stop.error));
    }
    if stop.value < flag + 1 {
      return Panicked;
    }
    var rebuilt := new Bits(out + bits.bits[flag + 1..stop.value]);
    var bytes := rebuilt.FinishFrom(None);
    if Signalless(b, l, flag) {
      assert out == b[..l.signal] + ([true] + SignalBits(UNSPECIFIED_FORMAT, BT709_CODE));
      RewrittenExisting(b, Unpack(bytes), l, UNSPECIFIED_FORMAT, out);
    }
    return Returned(Ok(bytes));
  }

  /** vuiFlag is where a parsed SPS with a VUI says so. */
  ghost predicate Existing(b: seq<bool>, vuiFlag: nat) {
    ParseSps(b).Ok? && ParseSps(b).value.vui.Some? && HeaderAt(b).Ok? && vuiFlag == HeaderAt(b).value.1
  }

  /** Where the readers of the rewrite stand in a parsed SPS. */
  lemma ExistingLayout(b: seq<bool>, vuiFlag: nat)
    requires Existing(b, vuiFlag)
    ensures var l := LayoutOf(b); var vui := ParseSps(b).value.vui.value;
            && Parsed(b, l) && AspectAt(b, vuiFlag + 1).Ok?
            && OverscanAt(b, AspectAt(b, vuiFlag + 1).value.1).Ok?
            && OverscanAt(b, AspectAt(b, vuiFlag + 1).value.1).value.1 == l.signal
            && match vui.signal
               case None => !b[l.signal] && l.tail == l.signal + 1
               case Some(Signal(format, full, colour)) =>
                 && b[l.signal] && l.tail == (if colour.Some? then l.signal + 30 else l.signal + 6)
                 && b[l.signal + 1..l.signal + 4] == BitsOf(format, 3) && format < 8
                 && b[l.signal + 4] == full && b[l.signal + 5] == colour.Some?
  {
    hide ParseSps, HeaderAt, VuiStartAt, TailAt, SignalAt, AspectAt, OverscanAt, LayoutOf, BitsOf, LastOne;
    LayoutFacts(b);
    VuiStartParts(b, vuiFlag + 1);
    SignalShape(b, LayoutOf(b).signal);
  }

  /** The rewrite reaches a slice that stops behind its flag: of a colour description, or of a whole signal type. */
  predicate RewritePanics(b: seq<bool>, vuiFlag: nat) {
    && AspectEnd(b, vuiFlag + 1).Ok? && OverscanEnd(b, AspectEnd(b, vuiFlag + 1).value).Ok?
    && var q := OverscanEnd(b, AspectEnd(b, vuiFlag + 1).value).value;
       && q < |b|
       && if b[q] then q + 5 < |b| && !b[q + 4] && !b[q + 5] && StopsBehind(b, q + 5) else StopsBehind(b, q)
  }

  lemma AspectEndFollows(b: seq<bool>, cursor: nat)
    requires AspectAt(b, cursor).Ok?
    ensures AspectEnd(b, cursor) == Ok(AspectAt(b, cursor).value.1)
  {
    hide ValueOf;
  }

  lemma OverscanEndFollows(b: seq<bool>, cursor: nat)
    requires OverscanAt(b, cursor).Ok?
    ensures OverscanEnd(b, cursor) == Ok(OverscanAt(b, cursor).value.1)
  {
  }

  /** In a parsed SPS the stop bit comes after all of the VUI. */
  lemma ParsedNeverPanics(b: seq<bool>, vuiFlag: nat)
    requires Existing(b, vuiFlag)
    ensures !RewritePanics(b, vuiFlag)
  {
    hide ParseSps, HeaderAt, LayoutOf, BitsOf, LastOne, AspectAt, OverscanAt, AspectEnd, OverscanEnd;
    ExistingLayout(b, vuiFlag);
    AspectEndFollows(b, vuiFlag + 1);
    OverscanEndFollows(b, AspectAt(b, vuiFlag + 1).value.1);
  }

  /** The source's function, with its three endings above. */
  method RewriteExistingVui(bits: Bits, vuiFlag: nat) returns (o: Outcome)
    ensures Ended(o) && (o.Panicked? <==> RewritePanics(bits.bits, vuiFlag))
    ensures Existing(bits.bits, vuiFlag) ==>
              var s := ParseSps(bits.bits).value;
              if s.vui.value.signal.Some? && s.vui.value.signal.value.fullRange then o == Returned(Err(Unsupported))
              else Rewritten(bits.bits, o)
  {
    hide ParseSps, HeaderAt, AspectAt, OverscanAt, LayoutOf, BitsOf, LastOne, WithBt709, Unpack, Rewritten, Finished,
         AspectEnd, OverscanEnd, StopsBehind;
    ghost var b := bits.bits;
    ghost var l := LayoutOf(b);
    if Existing(b, vuiFlag) {
      ExistingLayout(b, vuiFlag);
    }
    var afterAspect := SkipAspectRatio(bits, vuiFlag + 1);
    if afterAspect.Err? {
      return Returned(Err(afterAspect.error));
    }
    var afterOverscan := SkipOverscan(bits, afterAspect.value);
    if afterOverscan.Err? {
      return Returned(Err(afterOverscan.error));
    }
    var videoSignalFlag := afterOverscan.value;
    var cursor := videoSignalFlag + 1;
    var present := bits.ReadAt(videoSignalFlag);
    if present.Err? {
      return Returned(Err(present.error));
    }
    if present.value {
      cursor := cursor + 3;
      var full := bits.ReadAt(cursor);
      if full.Err? {
        return Returned(Err(full.error));
      }
      if full.value {
        return Returned(Err(Unsupported));
      }
      cursor := cursor + 1;
      var described := bits.ReadAt(cursor);
      if described.Err? {
        return Returned(Err(described.error));
      }
      if described.value {
        cursor := cursor + 1;
        var patched := PatchColour(bits, cursor, l);
        o := Returned(patched);
      } else {
        o := AddColour(bits, cursor, l);
      }
    } else {
      o := AddSignal(bits, videoSignalFlag, l);
    }
  }

  /** Whatever follows the flag is dropped; in a parsed SPS that is only the trailing bits. */
  method InsertMinimalVui(bits: Bits, vuiFlag: nat) returns (bytes: seq<byte>)
    requires vuiFlag < |bits.bits|
    ensures Ended(Returned(Ok(bytes)))
    ensures ParseSps(bits.bits).Ok? && ParseSps(bits.bits).value.vui.None? && vuiFlag == HeaderAt(bits.bits).value.1 ==>
              Rewritten(bits.bits, Returned(Ok(bytes)))
  {
    hide BitsOf, LastOne, Unpack, SignalBits, WithBt709, OptionalVuiAt, HeaderAt, Inserted, Padded;
    ghost var b := bits.bits;
    var out := PushVideoSignal(bits.bits[..vuiFlag] + [true, false, false, true]);
    out := out + [false, false, false, false, false, false];
    var inserted := new Bits(out);
    bytes := inserted.FinishFrom(None);
    if ParseSps(b).Ok? && ParseSps(b).value.vui.None? && vuiFlag == HeaderAt(b).value.1 {
      FinishedIsInserted(b, Unpack(bytes), vuiFlag, out + [true]);
      InsertedKeepsSyntax(b, Unpack(bytes));
    }
  }

  lemma FinishedIsInserted(b: seq<bool>, c: seq<bool>, flag: nat, payload: seq<bool>)
    requires flag <= |b|
    requires payload == b[..flag] + [true, false, false, true] + SignalBits(UNSPECIFIED_FORMAT, BT709_CODE)
                        + [false, false, false, false, false, false] + [true]
    requires c == Padded(payload, |payload|, BytesFor(|payload|))
    ensures Inserted(b, c, flag)
  {
    hide SignalBits;
    assert c[..|payload|] == payload;
    assert c[flag + 4..flag + 33] == SignalBits(UNSPECIFIED_FORMAT, BT709_CODE);
  }

  /** The rewrite changes the colour in the facts and nothing else: the check after it can never reject. */
  lemma RewriteKeepsFacts(s: Sps)
    requires FactsOf(s).Ok?
    ensures FactsOf(WithBt709(s)) == Ok(FactsOf(s).value.(color := Some(BT709)))
  {
  }

  // ----- The adapter -----

  /** Below this size the rewritten SPS always fits the 64 KiB limit. */
  const ALWAYS_FITS: nat := 43680

  /** out is nal with limited BT.709 as its signal type, and carries no start code. */
  ghost predicate Admitted(nal: seq<byte>, out: seq<byte>)
    requires ParseAvc(nal).Ok?
  {
    && out != [] && out[0] == nal[0] && AnnexBSafe(out)
    && SyntaxOf(out) == Ok(WithBt709(SyntaxOf(nal).value))
    && ParseAvc(out) == Ok(ParseAvc(nal).value.(color := Some(BT709)))
  }

  lemma FirstByteIsProfile(rbsp: seq<byte>)
    ensures UAt(Unpack(rbsp), 0, 8).Ok? <==> rbsp != []
    ensures rbsp != [] ==> UAt(Unpack(rbsp), 0, 8).value.0 == rbsp[0]
  {
    if rbsp != [] {
      assert Pow2(8) == 256;
      ValueOfBits(rbsp[0], 8);
      assert Unpack(rbsp)[0..8] == BitsOf(rbsp[0], 8);
    }
  }

  /** The SPS announces a later profile, on which the walk is not right. */
  predicate IsLaterProfile(nal: seq<byte>) {
    nal != [] && DecodeNal(nal) != [] && LaterProfile(DecodeNal(nal)[0])
  }

  /** out presents the same source as nal, as limited BT.709, and carries no start code. */
  ghost predicate SameSource(nal: seq<byte>, out: seq<byte>) {
    && nal != [] && out != [] && out[0] == nal[0] && AnnexBSafe(out)
    && ParseAvc(nal).Ok? && ParseAvc(out) == Ok(ParseAvc(nal).value.(color := Some(BT709)))
  }

  /** The walk leads the rewrite to a slice that panics. */
  predicate Panics(nal: seq<byte>) {
    && ParseAvc(nal).Ok?
    && (ParseAvc(nal).value.color.None? || ParseAvc(nal).value.color == Some(UNSPECIFIED))
    && var b := Unpack(DecodeNal(nal));
       Walk(b).Ok? && Walk(b).value < |b| && b[Walk(b).value] && RewritePanics(b, Walk(b).value)
  }

  /** Some SPS of the profile makes the function panic. */
  ghost predicate CanPanic(profile: nat) {
    exists nal: seq<byte> :: Panics(nal) && nal != [] && DecodeNal(nal) != [] && DecodeNal(nal)[0] as nat == profile
  }

  /** A panic is possible on a profile if and only if it is a later one. */
  lemma PanicsExactly(profile: nat)
    ensures CanPanic(profile) <==> LaterProfile(profile)
  {
    if LaterProfile(profile) {
      var nal := LaterProfilePanics(profile);
    } else {
      forall nal: seq<byte> | nal != [] && DecodeNal(nal) != [] && DecodeNal(nal)[0] as nat == profile
        ensures !Panics(nal)
      {
        OtherProfilesNeverPanic(nal);
      }
    }
  }

  lemma OtherProfilesNeverPanic(nal: seq<byte>)
    requires !IsLaterProfile(nal)
    ensures !Panics(nal)
  {
    hide HeaderAt, FactsOf, Walk, Unpack, ParseSps, Walkable, RewritePanics, Unescape;
    if Panics(nal) {
      var b := Unpack(DecodeNal(nal));
      RightFlag(nal);
      ParsedNeverPanics(b, Walk(b).value);
    }
  }

  lemma LaterProfilePanics(profile: nat) returns (nal: seq<byte>)
    requires LaterProfile(profile)
    ensures Panics(nal) && nal != [] && DecodeNal(nal) != [] && DecodeNal(nal)[0] as nat == profile
  {
    hide ParseSps, Walk, HeaderAt, LaterProfileExample, Escape, Unescape, Unpack, FactsOf, RewritePanics, Walkable, UAt;
    var rbsp := LaterProfileExists(profile);
    var b := Unpack(rbsp);
    nal := [0x67] + Escape(rbsp, 0);
    assert nal[1..] == Escape(rbsp, 0);
    EncodedNal(nal, rbsp);
    EscapeGrowth(rbsp, 0);
    LaterProfileSyntax(b, profile);
    LaterProfileWalk(b, profile);
    ExamplePanics(b, profile);
    ParsedHasHeader(b);
    HeaderHasProfile(b);
    FirstByteIsProfile(rbsp);
  }

  /** Behind the stop bit the rewrite reads an empty VUI from the alignment. */
  lemma ExamplePanics(b: seq<bool>, profile: nat)
    requires LaterProfileExample(b, profile) && LastOne(b) == Ok(43)
    ensures |b| == 48 && b[43] && RewritePanics(b, 43)
  {
    hide LastOne;
  }

  /**
   * For every input, an SPS that is returned presents the same source as BT.709. On all but the later profiles nothing
   * panics, a rewrite changes no syntax element but the signal type, and besides the refusals decided by the input
   * alone there is just one more: the rewritten SPS outgrew 64 KiB. There the check at the end never rejects.
   */
  method EnsureBt709Limited(nal: seq<byte>) returns (o: Outcome)
    ensures o.Panicked? <==> Panics(nal)
    ensures match ParseAvc(nal)
            case Err(e) => o == Returned(Err(e))
            case Ok(facts) =>
              if facts.color == Some(BT709) then o == Returned(Ok(nal))
              else if facts.color.Some? && facts.color != Some(UNSPECIFIED) then o == Returned(Err(Unsupported))
              else
                && (o.Returned? && o.result.Ok? ==> SameSource(nal, o.result.value))
                && (!IsLaterProfile(nal) ==>
                      && o.Returned?
                      && if !Walkable(SyntaxOf(nal).value.header) then
                           o.result.Err? && Walk(Unpack(DecodeNal(nal))) == Err(o.result.error)
                         else if o.result.Ok? then Admitted(nal, o.result.value)
                         else o.result.error == Limit && |nal| > ALWAYS_FITS)
  {
    hide HeaderAt, FactsOf, WithBt709, Unpack, ParseSps, Walk, Escape, Unescape, AnnexBSafe, Walkable, RewritePanics;
    var parsed := ParseAvc(nal);
    if parsed.Err? {
      return Returned(Err(parsed.error));
    }
    var facts := parsed.value;
    if facts.color == Some(BT709) {
      return Returned(Ok(nal));
    }
    if facts.color.Some? && facts.color.value != UNSPECIFIED {
      return Returned(Err(Unsupported));
    }
    var header := nal[0];
    var rbsp := DecodeNal(nal);
    var bits := new Bits.FromRbsp(rbsp);
    if !IsLaterProfile(nal) {
      RightFlag(nal);
      OtherProfilesNeverPanic(nal);
    }
    var vuiFlag := SkipSpsToVuiFlag(bits);
    if vuiFlag.Err? {
      return Returned(Err(vuiFlag.error));
    }
    var present := bits.ReadAt(vuiFlag.value);
    if present.Err? {
      return Returned(Err(present.error));
    }
    var rewritten;
    if present.value {
      NotFullRange(SyntaxOf(nal).value);
      var existing := RewriteExistingVui(bits, vuiFlag.value);
      if existing.Panicked? || existing.result.Err? {
        return existing;
      }
      rewritten := existing.result.value;
    } else {
      rewritten := InsertMinimalVui(bits, vuiFlag.value);
    }
    var encoded := EncodeNal(header, rewritten);
    EncodedNal(encoded, rewritten);
    EncodedNalIsSafe(encoded, rewritten);
    RewriteKeepsFacts(SyntaxOf(nal).value);
    var admitted := ParseAvc(encoded);
    if admitted.Err? {
      UnescapeShrinks(nal[1..], 0);
      EscapeGrowth(rewritten, 0);
      return Returned(Err(admitted.error));
    }
    if admitted.value.color != Some(BT709) || admitted.value.(color := None) != facts.(color := None) {
      return Returned(Err(Malformed));
    }
    return Returned(Ok(encoded));
  }

  /** On all but the later profiles the walk of a parsed SPS finds its flag, or refuses its header. */
  lemma RightFlag(nal: seq<byte>)
    requires ParseAvc(nal).Ok? && !IsLaterProfile(nal)
    ensures var b := Unpack(DecodeNal(nal));
            && ParseSps(b).Ok? && HeaderAt(b).Ok? && HeaderAt(b).value.1 < |b|
            && HeaderAt(b).value.0 == ParseSps(b).value.header
            && (ParseSps(b).value.vui.Some? <==> b[HeaderAt(b).value.1])
            && (Walk(b).Ok? <==> Walkable(ParseSps(b).value.header))
            && (Walk(b).Ok? ==> Walk(b).value == HeaderAt(b).value.1)
  {
    hide HeaderAt, FactsOf, Walk, Unpack, ParseSps, Walkable;
    var rbsp := DecodeNal(nal);
    FirstByteIsProfile(rbsp);
    WalkFollowsSyntax(Unpack(rbsp));
    ParsedHasHeader(Unpack(rbsp));
  }

  lemma ParsedHasHeader(b: seq<bool>)
    requires ParseSps(b).Ok?
    ensures HeaderAt(b).Ok? && HeaderAt(b).value.0 == ParseSps(b).value.header
    ensures HeaderAt(b).value.1 < |b| && (ParseSps(b).value.vui.Some? <==> b[HeaderAt(b).value.1])
  {
    hide HeaderAt, VuiAt;
  }

  lemma NotFullRange(s: Sps)
    requires FactsOf(s).Ok?
    requires var color := FactsOf(s).value.color; color.Some? ==> color.value == UNSPECIFIED
    ensures s.vui.Some? && s.vui.value.signal.Some? ==> !s.vui.value.signal.value.fullRange
  {
  }

  // ----- What survives the encoder -----

  /** Any bit string, finished, escaped, unescaped and unpacked, is there up to its stop bit. */
  lemma BitsSurvive(s: seq<bool>, bytes: seq<byte>, nal: seq<byte>)
    requires Unpack(bytes) == Padded(s + [true], |s| + 1, BytesFor(|s| + 1))
    requires nal != [] && nal[1..] == Escape(bytes, 0)
    ensures var b := Unpack(DecodeNal(nal));
            LastOne(b) == Ok(|s|) && b[..|s|] == s && NoEmulation(nal[1..])
  {
    hide Unpack, Escape, LastOne;
    EncodedNal(nal, bytes);
    var b := Padded(s + [true], |s| + 1, BytesFor(|s| + 1));
    assert b[|s|];
    LastOneIs(b, |s|);
  }

  /**
   * The rewritten bits are the printed syntax of the same SPS: its header as it was, and a VUI that keeps all its
   * elements, or has none, around a limited signal type whose three codes are 1 and whose format is the old one or 5.
   */
  lemma RewriteIsPrinted(nal: seq<byte>, out: seq<byte>)
    requires ParseAvc(nal).Ok? && Admitted(nal, out)
    ensures var s, c := SyntaxOf(nal).value, Unpack(DecodeNal(out));
            exists t: Sps ::
              && t.header == s.header && t.vui.Some? && t.vui.value.signal.Some?
              && var signal := t.vui.value.signal.value;
                 && !signal.fullRange && signal.colour == Some(Colour(1, 1, 1))
                 && (if SignalOf(s).Some? then signal.format == SignalOf(s).value.format else signal.format == 5)
                 && (if s.vui.Some? then t.vui.value == s.vui.value.(signal := t.vui.value.signal)
                     else t.vui.value == Vui(None, None, t.vui.value.signal,
                                             VuiTail(None, None, None, None, None, false, None)))
                 && |SpsBits(t)| < |c| && c[..|SpsBits(t)|] == SpsBits(t) && LastOne(c) == Ok(|SpsBits(t)|)
  {
    hide ParseSps, Unpack, SpsBits, LastOne, FactsOf, WellFormed;
    var t := WithBt709(SyntaxOf(nal).value);
    ParsesExactly(Unpack(DecodeNal(out)), t);
  }

  // ----- An SPS that does not say its colour -----

  const TWIN_BYTES: nat := 200

  /** For every SPS that is admitted there is a short one of the same source that does not say its colour. */
  lemma ColourlessTwin(nal: seq<byte>) returns (twin: seq<byte>)
    requires ParseAvc(nal).Ok?
    ensures 2 <= |twin| <= TWIN_BYTES && twin[0] == nal[0] && AnnexBSafe(twin)
    ensures ParseAvc(twin) == Ok(ParseAvc(nal).value.(color := None))
  {
    hide ParseSps, Escape, Unescape, Unpack, SpsBits, Padded, FactsOf, AnnexBSafe, WellFormed;
    var b := Unpack(DecodeNal(nal));
    var s := ParseSps(b).value;
    var m := MinimalSps(GeometryOf(s));
    ParsesExactly(b, s);
    MinimalIsWellFormed(s);
    MinimalIsShort(GeometryOf(s));
    var payload := SpsBits(m) + [true];
    var c := Padded(payload, |payload|, BytesFor(|payload|));
    var bytes := PackExists(c);
    PayloadStands(SpsBits(m), c);
    ParsesExactly(c, m);
    twin := [nal[0]] + Escape(bytes, 0);
    assert twin[1..] == Escape(bytes, 0);
    EncodedNal(twin, bytes);
    LastByteIsSet(bytes, |payload| - 1);
    EncodedNalIsSafe(twin, bytes);
    EscapeGrowth(bytes, 0);
    UnescapeShrinks(twin[1..], 0);
    FactsOfMinimal(s);
  }

  lemma PayloadStands(bits: seq<bool>, c: seq<bool>)
    requires c == Padded(bits + [true], |bits| + 1, BytesFor(|bits| + 1))
    ensures |bits| < |c| && c[..|bits|] == bits && c[|bits|] && LastOne(c) == Ok(|bits|)
  {
    var n := |bits|;
    assert c[..n] == bits && c[n];
    LastOneIs(c, n);
  }

  lemma FactsOfMinimal(s: Sps)
    requires FactsOf(s).Ok?
    ensures FactsOf(MinimalSps(GeometryOf(s))) == Ok(FactsOf(s).value.(color := None))
  {
  }
}
