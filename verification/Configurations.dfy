/** Committed parameter sets against the parameter sets inside access units. */
module Configurations {
  import opened Results
  import opened Rbsp
  import opened AccessUnits
  import opened CodedPictures
  import opened AvcFraming
  import opened SpsSyntax
  import opened AvcFacts
  import opened AvcVui
  import opened Misreadings

  /** The parts of a codec configuration that alignment and validation read. */
  datatype Configuration = Configuration(
    codec: Codec, lengthSize: NalLengthSize, vps: seq<Nal>, sps: seq<Nal>, pps: seq<Nal>)
  {
    /** What parsing a record establishes: every set fits a two-byte length and has the NAL unit type of its list. */
    ghost predicate Valid() {
      && (forall s | s in sps || s in pps || s in vps :: 3 <= |s| < 0x1_0000)
      && (forall s | s in sps :: NalType(codec, s) == Ok(if codec == Avc then 7 else 33))
      && (forall s | s in pps :: NalType(codec, s) == Ok(if codec == Avc then 8 else 34))
      && (forall s | s in vps :: NalType(codec, s) == Ok(32))
      && sps != [] && pps != [] && (codec == Hevc ==> vps != [])
    }

    /** The committed sets a unit of this type must be one of. */
    function SetsFor(kind: nat): Option<seq<Nal>> {
      match codec
      case Avc => if kind == 7 then Some(sps) else if kind == 8 then Some(pps) else None
      case Hevc =>
        if kind == 33 then Some(sps) else if kind == 34 then Some(pps) else if kind == 32 then Some(vps) else None
    }

    /** n is not a parameter set, or is one of the committed ones. */
    predicate Committed(n: Nal) {
      var kind := NalType(codec, n);
      kind.Ok? && (SetsFor(kind.value).Some? ==> n in SetsFor(kind.value).value)
    }
  }

  method ValidateParameterSets(config: Configuration, picture: AccessUnit) returns (r: Result<(), BitstreamError>)
    requires forall n | n in picture.nals :: NalType(picture.codec, n).Ok?
    ensures r == if picture.codec == config.codec && forall n | n in picture.nals :: config.Committed(n) then Ok(())
                 else Err(Malformed)
  {
    if picture.codec != config.codec {
      return Err(Malformed);
    }
    for i := 0 to |picture.nals|
      invariant forall k | 0 <= k < i :: config.Committed(picture.nals[k])
    {
      var nal := picture.nals[i];
      assert nal in picture.nals;
      var expected := config.SetsFor(NalType(config.codec, nal).value);
      if expected.Some? && nal !in expected.value {
        assert !config.Committed(nal);
        return Err(Malformed);
      }
    }
    return Ok(());
  }

  // ----- Alignment -----

  function WithoutColor(f: SpsFacts): SpsFacts {
    f.(color := None)
  }

  /** May an in-band SPS be replaced: same geometry, admitted BT.709, nothing or the unspecified colour in band. */
  function AvcSpsMayAlign(incoming: Nal, admitted: Nal): Result<bool, BitstreamError> {
    var i :- ParseAvc(incoming);
    var a :- ParseAvc(admitted);
    Ok(WithoutColor(i) == WithoutColor(a) && a.color == Some(BT709) && (i.color.None? || i.color == Some(UNSPECIFIED)))
  }

  function AlignNal(config: Configuration, nal: Nal): Result<Nal, BitstreamError> {
    var kind :- NalType(config.codec, nal);
    var sets := config.SetsFor(kind);
    if sets.None? || nal in sets.value then Ok(nal)
    else if config.codec == Avc && kind == 7 && |sets.value| == 1 then
      var may :- AvcSpsMayAlign(nal, sets.value[0]);
      if may then Ok(sets.value[0]) else Err(Malformed)
    else Err(Malformed)
  }

  function AlignNals(config: Configuration, nals: seq<Nal>): (r: Result<seq<Nal>, BitstreamError>)
    ensures r.Ok? ==> |r.value| == |nals|
  {
    if nals == [] then Ok([])
    else
      var first :- AlignNal(config, nals[0]);
      var rest :- AlignNals(config, nals[1..]);
      Ok([first] + rest)
  }

  /** The framing guessed from the prefix. */
  function ChosenFormat(config: Configuration, d: seq<byte>): NalFormat {
    if StartsLikeAnnexB(d) then AnnexB else LengthPrefixed(config.lengthSize)
  }

  function Align(config: Configuration, d: seq<byte>): Result<seq<byte>, BitstreamError> {
    var format := ChosenFormat(config, d);
    var picture := Parse(config.codec, format, d);
    if picture.Err? then Ok(d)
    else
      var nals :- AlignNals(config, picture.value.nals);
      if nals == picture.value.nals then Ok(d) else Write(nals, format.AnnexB?)
  }

  method AlignAccessUnit(config: Configuration, data: seq<byte>) returns (r: Result<seq<byte>, BitstreamError>)
    ensures r == Align(config, data)
  {
    hide AvcSpsMayAlign, NalType, Parse, Written;
    var format := ChosenFormat(config, data);
    var parsed := Parse(config.codec, format, data);
    if parsed.Err? {
      return Ok(data);
    }
    var nals := parsed.value.nals;
    var aligned: seq<Nal> := [];
    var changed := false;
    assert nals[0..] == nals;
    AppendedToNothing(AlignNals(config, nals));
    for i := 0 to |nals|
      invariant |aligned| == i && (changed <==> aligned != nals[..i])
      invariant AlignNals(config, nals) == Appended(aligned, AlignNals(config, nals[i..]))
    {
      var nal := nals[i];
      ghost var was := aligned;
      assert nals[i..][0] == nal && nals[i..][1..] == nals[i + 1..];
      var kind :- NalType(config.codec, nal);
      var sets := config.SetsFor(kind);
      if sets.Some? {
        if nal in sets.value {
          aligned := aligned + [nal];
        } else if config.codec == Avc && kind == 7 && |sets.value| == 1 {
          var may :- AvcSpsMayAlign(nal, sets.value[0]);
          if !may {
            return Err(Malformed);
          }
          aligned := aligned + [sets.value[0]];
          changed := true;
        } else {
          return Err(Malformed);
        }
      } else {
        aligned := aligned + [nal];
      }
      assert AlignNal(config, nal) == Ok(aligned[i]);
      AppendedAssociates(was, aligned[i], AlignNals(config, nals[i + 1..]));
      assert aligned == was + [aligned[i]] && nals[..i + 1] == nals[..i] + [nal];
    }
    assert nals[|nals|..] == [] && nals[..|nals|] == nals && aligned + [] == aligned;
    if !changed {
      return Ok(data);
    }
    r := WriteNals(aligned, format.AnnexB?);
  }

  // ----- What alignment keeps -----

  /** n describes the same source as m, which is admitted as BT.709, but does not say its colour. */
  ghost predicate LacksColour(n: Nal, m: Nal) {
    && ParseAvc(n).Ok? && ParseAvc(m) == Ok(ParseAvc(n).value.(color := Some(BT709)))
    && (ParseAvc(n).value.color.None? || ParseAvc(n).value.color == Some(UNSPECIFIED))
  }

  /** n is an AVC SPS that only lacks the colour of the single committed SPS. */
  ghost predicate Replaceable(config: Configuration, n: Nal) {
    config.codec == Avc && |config.sps| == 1 && NalType(Avc, n) == Ok(7) && LacksColour(n, config.sps[0])
  }

  /** n became m: unchanged, or replaced by the single committed SPS whose colour it lacked. */
  ghost predicate Aligned(config: Configuration, n: Nal, m: Nal) {
    m == n || (Replaceable(config, n) && m == config.sps[0])
  }

  lemma MayAlignExactly(n: Nal, m: Nal)
    ensures AvcSpsMayAlign(n, m) == Ok(true) <==> LacksColour(n, m)
  {
    hide ParseAvc;
  }

  /** A unit is accepted exactly when it is committed as it is, or only lacks the committed colour. */
  lemma AlignNalExactly(config: Configuration, n: Nal)
    requires config.Valid()
    ensures AlignNal(config, n).Ok? <==> config.Committed(n) || Replaceable(config, n)
    ensures config.Committed(n) ==> AlignNal(config, n) == Ok(n)
    ensures !config.Committed(n) && Replaceable(config, n) ==> AlignNal(config, n) == Ok(config.sps[0])
  {
    hide NalType, AvcSpsMayAlign, LacksColour;
    if |config.sps| == 1 {
      MayAlignExactly(n, config.sps[0]);
    }
  }

  lemma AlignedNal(config: Configuration, n: Nal)
    requires config.Valid() && AlignNal(config, n).Ok?
    ensures var m := AlignNal(config, n).value;
            Aligned(config, n, m) && config.Committed(m) && AlignNal(config, m) == Ok(m)
    ensures var m := AlignNal(config, n).value;
            forall seen: Seen :: InspectOne(config.codec, m, seen) == InspectOne(config.codec, n, seen)
  {
    hide NalType, AvcSpsMayAlign, LacksColour;
    AlignNalExactly(config, n);
    var m := AlignNal(config, n).value;
    if m != n {
      assert m == config.sps[0] && m in config.sps;
    }
  }

  /** A unit is committed exactly when its header is valid and, if it is a parameter set, its list holds it. */
  lemma CommittedExactly(config: Configuration, n: Nal)
    ensures config.Committed(n) <==>
              && ValidHeader(config.codec, n)
              && match config.codec
                 case Avc =>
                   && (n[0] in {0x27, 0x47, 0x67} ==> n in config.sps)
                   && (n[0] in {0x28, 0x48, 0x68} ==> n in config.pps)
                 case Hevc =>
                   (n[0] == 64 ==> n in config.vps) && (n[0] == 66 ==> n in config.sps) && (n[0] == 68 ==> n in config.pps)
  {
    hide NalType, ValidHeader, IsVcl, SliceHeader, Shows;
    HeaderExactly(config.codec, n);
    if ValidHeader(config.codec, n) {
      if config.codec == Avc {
        AvcHeader(n);
        AvcSetHeaders(n);
      } else {
        HevcHeader(n);
      }
    }
  }

  lemma AvcSetHeaders(n: Nal)
    requires ValidHeader(Avc, n)
    ensures n[0] % 32 == 7 <==> n[0] in {0x27, 0x47, 0x67}
    ensures n[0] % 32 == 8 <==> n[0] in {0x28, 0x48, 0x68}
  {
  }

  /** An AVC SPS unit whose syntax is admitted. */
  ghost predicate AdmittedSps(n: Nal) {
    && 0 < |n| <= 65536 && n[0] in {0x27, 0x47, 0x67} && SyntaxOf(n).Ok? && AdmittedSyntax(SyntaxOf(n).value)
  }

  /** A limited-range signal with these three codes. */
  predicate LimitedColour(signal: Option<Signal>, code: nat) {
    signal.Some? && !signal.value.fullRange && signal.value.colour == Some(Colour(code, code, code))
  }

  /** No signal type, or a limited one without description or with unspecified codes. */
  predicate NoColour(signal: Option<Signal>) {
    signal.None? || (!signal.value.fullRange && signal.value.colour.None?) || LimitedColour(signal, 2)
  }

  lemma ColourAlone(signal: Option<Signal>)
    ensures ColorOf(signal) == Some(BT709) <==> LimitedColour(signal, 1)
    ensures ColorOf(signal).None? || ColorOf(signal) == Some(UNSPECIFIED) <==> NoColour(signal)
  {
  }

  lemma AdmittedExactly(n: Nal)
    requires NalType(Avc, n) == Ok(7)
    ensures ParseAvc(n).Ok? <==> AdmittedSps(n)
    ensures AdmittedSps(n) ==> FactsOf(SyntaxOf(n).value) == ParseAvc(n)
                               && ParseAvc(n).value.color == ColorOf(SignalOf(SyntaxOf(n).value))
  {
    hide FactsOf, AdmittedSyntax, Describes, SyntaxOf, ColorOf, DescribesColour;
    HeaderByte(n[0]);
    SpsTypeExactly(n);
    if ParseAvc(n).Ok? {
      ParseAvcExactly(n, ParseAvc(n).value);
      DescribedColour(ParseAvc(n).value, SyntaxOf(n).value);
    } else if AdmittedSps(n) {
      AdmittedHasFacts(SyntaxOf(n).value);
    }
  }

  lemma DescribedColour(f: SpsFacts, s: Sps)
    requires Describes(f, s)
    ensures f.color == ColorOf(SignalOf(s))
  {
    hide HasRatio, ColorOf, DescribesColour;
    ColourExactly(f.color, SignalOf(s));
  }

  lemma AdmittedHasFacts(s: Sps)
    requires AdmittedSyntax(s)
    ensures FactsOf(s).Ok?
  {
    hide AspectRatio, ColorOf;
    RatioExactly(AspectOf(s), None);
  }

  /**
   * An in-band SPS is replaced exactly by the single committed SPS of the same size, crop, sample aspect ratio and
   * chroma location, when that one says BT.709 and the other no colour.
   */
  lemma ReplaceableExactly(config: Configuration, n: Nal)
    requires config.Valid()
    ensures Replaceable(config, n) <==>
              && config.codec == Avc && |config.sps| == 1 && AdmittedSps(n) && AdmittedSps(config.sps[0])
              && var s, t := SyntaxOf(n).value, SyntaxOf(config.sps[0]).value;
                 SameGeometry(s, t) && NoColour(SignalOf(s)) && LimitedColour(SignalOf(t), 1)
  {
    hide NalType, SyntaxOf, AdmittedSyntax, SameGeometry, NoColour, LimitedColour, ParseAvc, FactsOf, ColorOf;
    if config.codec == Avc && |config.sps| == 1 {
      var m := config.sps[0];
      assert m in config.sps;
      AdmittedExactly(m);
      SpsTypeExactly(n);
      if NalType(Avc, n) == Ok(7) && ParseAvc(m).Ok? {
        AdmittedExactly(n);
        if ParseAvc(n).Ok? {
          var s, t := SyntaxOf(n).value, SyntaxOf(m).value;
          ColourAloneExactly(s, t, ParseAvc(n).value, ParseAvc(m).value);
          ColourAlone(SignalOf(s));
          ColourAlone(SignalOf(t));
        }
      }
    }
  }

  lemma SpsTypeExactly(n: Nal)
    ensures NalType(Avc, n) == Ok(7) <==> n != [] && n[0] in {0x27, 0x47, 0x67}
  {
  }

  /** Alignment accepts exactly the pictures all of whose units it accepts. */
  lemma {:induction false} AlignNalsExactly(config: Configuration, ns: seq<Nal>)
    requires config.Valid()
    ensures AlignNals(config, ns).Ok? <==> forall n | n in ns :: config.Committed(n) || Replaceable(config, n)
  {
    hide AlignNal, Replaceable;
    if ns != [] {
      AlignNalExactly(config, ns[0]);
      AlignNalsExactly(config, ns[1..]);
      assert forall n | n in ns :: n == ns[0] || n in ns[1..];
    }
  }

  /** The picture is the same, every unit is committed, and a second alignment changes nothing. */
  lemma {:induction false} AlignedNals(config: Configuration, ns: seq<Nal>, seen: Seen)
    requires config.Valid() && AlignNals(config, ns).Ok?
    ensures var ms := AlignNals(config, ns).value;
            && Inspect(config.codec, ms, seen) == Inspect(config.codec, ns, seen)
            && AlignNals(config, ms) == Ok(ms)
            && (forall m | m in ms :: config.Committed(m))
            && (forall i | 0 <= i < |ns| :: Aligned(config, ns[i], ms[i]))
    decreases |ns|
  {
    hide AlignNal, InspectOne, Aligned;
    if ns != [] {
      var n, m := ns[0], AlignNal(config, ns[0]).value;
      var ms := AlignNals(config, ns).value;
      AlignedNal(config, n);
      assert ms[0] == m && ms[1..] == AlignNals(config, ns[1..]).value;
      var step := InspectOne(config.codec, n, seen);
      AlignedNals(config, ns[1..], if step.Ok? then step.value else seen);
      assert [m] + ms[1..] == ms;
      forall i | 0 <= i < |ns|
        ensures Aligned(config, ns[i], ms[i])
      {
        assert i > 0 ==> ns[i] == ns[1..][i - 1] && ms[i] == ms[1..][i - 1];
      }
    }
  }

  /** A picture is left as it is exactly where every parameter set in it is committed. */
  lemma {:induction false} UnchangedExactly(config: Configuration, ns: seq<Nal>)
    requires config.Valid()
    ensures AlignNals(config, ns) == Ok(ns) <==> forall n | n in ns :: config.Committed(n)
  {
    hide AlignNal, Replaceable, Aligned;
    if ns != [] {
      AlignNalExactly(config, ns[0]);
      if AlignNal(config, ns[0]).Ok? {
        AlignedNal(config, ns[0]);
      }
      UnchangedExactly(config, ns[1..]);
      assert ns == [ns[0]] + ns[1..];
      assert forall n | n in ns :: n == ns[0] || n in ns[1..];
    }
  }

  /**
   * What is aligned at all: an input that is no picture, as it is; a picture whose units are all committed, as it is;
   * and one whose other units can be replaced, when the result stays within 2 MiB.
   */
  lemma AlignsExactly(config: Configuration, d: seq<byte>)
    requires config.Valid()
    ensures var picture := Parse(config.codec, ChosenFormat(config, d), d);
            && (picture.Err? ==> Align(config, d) == Ok(d))
            && (picture.Ok? ==>
                  var ns := picture.value.nals;
                  var aligned := AlignNals(config, ns);
                  && (aligned.Ok? <==> forall n | n in ns :: config.Committed(n) || Replaceable(config, n))
                  && if forall n | n in ns :: config.Committed(n) then Align(config, d) == Ok(d)
                     else
                       Align(config, d).Ok? <==>
                         aligned.Ok? && |Written(aligned.value, ChosenFormat(config, d).AnnexB?)| <= 0x20_0000)
  {
    hide Parse, Written, Replaceable, ChosenFormat, AlignNals, NalType;
    var picture := Parse(config.codec, ChosenFormat(config, d), d);
    if picture.Ok? {
      UnchangedExactly(config, picture.value.nals);
      AlignNalsExactly(config, picture.value.nals);
    }
  }

  // ----- Which results can be read again -----

  /**
   * Nothing is replaced in d, or what is written can be read as what was read: its four-byte lengths where the record
   * says four bytes, its start codes where the committed SPS is safe between them.
   */
  ghost predicate KeepsFraming(config: Configuration, d: seq<byte>) {
    var picture := Parse(config.codec, ChosenFormat(config, d), d);
    || picture.Err?
    || (forall n | n in picture.value.nals :: config.Committed(n))
    || match ChosenFormat(config, d)
       case LengthPrefixed(size) => size == Four
       case AnnexB => forall s | s in config.sps :: AnnexBSafe(s)
  }

  /** The same picture and number of units, only SPS units aligned, and every parameter set committed. */
  ghost predicate Kept(config: Configuration, before: AccessUnit, after: Result<AccessUnit, BitstreamError>) {
    && after.Ok? && after.value.codec == before.codec && after.value.picture == before.picture
    && |after.value.nals| == |before.nals|
    && (forall i | 0 <= i < |before.nals| :: Aligned(config, before.nals[i], after.value.nals[i]))
    && (forall n | n in after.value.nals :: config.Committed(n))
  }

  /** Where the framing is kept, the result parses to the aligned units. */
  lemma AlignmentReparses(config: Configuration, d: seq<byte>)
    requires config.Valid() && Parse(config.codec, ChosenFormat(config, d), d).Ok?
    requires Align(config, d).Ok? && KeepsFraming(config, d)
    ensures var format := ChosenFormat(config, d);
            var before := Parse(config.codec, format, d).value;
            var out := Align(config, d).value;
            var after := Parse(config.codec, format, out);
            && after.Ok? && after.value.codec == before.codec && after.value.picture == before.picture
            && AlignNals(config, before.nals) == Ok(after.value.nals) && after.value.nals != []
            && (out == d || out == Written(after.value.nals, format.AnnexB?))
            && (after.value.nals == before.nals ==> out == d)
            && (ChosenFormat(config, out) == format ==> Align(config, out) == Ok(out))
  {
    hide Aligned;
    var format := ChosenFormat(config, d);
    var before := Parse(config.codec, format, d).value;
    var ns := before.nals;
    var ms := AlignNals(config, ns).value;
    var out := Align(config, d).value;
    AlignedNals(config, ns, None);
    UnchangedExactly(config, ns);
    SomeUnits(config, format, d);
    if ms != ns {
      AlignedSplits(config, format, d, ns, ms);
    }
    assert Split(format, out) == Ok(ms);
    assert Parse(config.codec, format, out) == Ok(AccessUnit(config.codec, ms, before.picture));
  }

  lemma AlignedSplits(config: Configuration, format: NalFormat, d: seq<byte>, ns: seq<Nal>, ms: seq<Nal>)
    requires config.Valid() && Split(format, d) == Ok(ns) && ns != []
    requires AlignNals(config, ns) == Ok(ms) && Write(ms, format.AnnexB?).Ok?
    requires if format == AnnexB then forall s | s in config.sps :: AnnexBSafe(s) else format == LengthPrefixed(Four)
    ensures Split(format, Write(ms, format.AnnexB?).value) == Ok(ms)
  {
    hide AlignNals, Split, Written, AnnexBSafe;
    AlignedNals(config, ns, None);
    SplitBounds(format, d);
    if format == AnnexB {
      AnnexBSplitsExactly(d, ns);
      forall m | m in ms
        ensures AnnexBSafe(m)
      {
        var i :| 0 <= i < |ms| && ms[i] == m;
        assert Aligned(config, ns[i], m) && ns[i] in ns;
      }
      AnnexBRoundTrip(ms);
    } else {
      forall m | m in ms
        ensures m != []
      {
        assert config.Committed(m);
      }
      PrefixedRoundTrip(ms);
    }
  }

  lemma SomeUnits(config: Configuration, format: NalFormat, d: seq<byte>)
    requires Parse(config.codec, format, d).Ok?
    ensures Split(format, d).Ok? && Split(format, d).value != []
  {
  }

  lemma ShortLength(s: seq<byte>)
    requires |s| <= 2
    ensures BigEndian(s) < 0x1_0000
  {
    if s != [] {
      assert BigEndian(s[..|s| - 1]) < 256;
    }
  }

  lemma {:induction false} ShortLengths(size: nat, d: seq<byte>, count: nat)
    requires 0 < size <= 2 && PrefixedFrom(size, d, count).Ok?
    ensures forall n | n in PrefixedFrom(size, d, count).value :: |n| < 0x1_0000
    decreases |d|
  {
    hide BigEndian;
    if d != [] {
      ShortLength(d[..size]);
      ShortLengths(size, d[size + BigEndian(d[..size])..], count + 1);
    }
  }

  /** The first four-byte length of a short unit reads as an empty unit behind one or two bytes. */
  lemma NotReadShort(size: nat, ms: seq<Nal>)
    requires 0 < size <= 2 && ms != [] && |ms[0]| < 0x1_0000
    ensures PrefixedFrom(size, Written(ms, false), 0).Err?
  {
    var d, n := Written(ms, false), |ms[0]|;
    WrittenFirst(ms);
    assert n / 0x100_0000 == 0 && n / 0x1_0000 == 0;
    assert d[0] == 0 && d[1] == 0;
    if size == 1 {
      assert d[..1] == [0] && [0][..0] == [];
    } else {
      assert d[..2] == [0, 0] && [0, 0][..1] == [0] && [0][..0] == [];
    }
    assert BigEndian(d[..size]) == 0;
  }

  lemma SplitOfParse(codec: Codec, format: NalFormat, d: seq<byte>)
    requires Parse(codec, format, d).Ok?
    ensures Split(format, d) == Ok(Parse(codec, format, d).value.nals)
  {
  }

  lemma WrittenFirst(ms: seq<Nal>)
    requires ms != []
    ensures Written(ms, false) == Be32(|ms[0]|) + ms[0] + Written(ms[1..], false)
  {
  }

  /** Where the framing is not kept, lengths do not parse, and start codes do not give the aligned units. */
  lemma LostFraming(config: Configuration, d: seq<byte>)
    requires config.Valid() && Parse(config.codec, ChosenFormat(config, d), d).Ok?
    requires Align(config, d).Ok? && !KeepsFraming(config, d)
    ensures var format := ChosenFormat(config, d);
            var after := Parse(config.codec, format, Align(config, d).value);
            && (format != AnnexB ==> after.Err?)
            && !Kept(config, Parse(config.codec, format, d).value, after)
  {
    hide AlignNals, Written, Split, Inspect, AnnexBSafe, Replaceable;
    var format, out := ChosenFormat(config, d), Align(config, d).value;
    var before := Parse(config.codec, format, d).value;
    var ns := before.nals;
    var ms := AlignNals(config, ns).value;
    SplitOfParse(config.codec, format, d);
    UnchangedExactly(config, ns);
    AlignedNals(config, ns, None);
    SomeUnits(config, format, d);
    assert out == Written(ms, format.AnnexB?);
    if format != AnnexB {
      assert Aligned(config, ns[0], ms[0]) && ns[0] in ns;
      FirstIsShort(format.size, d, ns);
      LostLengths(config, format.size, ms);
    } else if Parse(config.codec, format, out).Ok? {
      SplitOfParse(config.codec, format, out);
      SplitUnitsAreSafe(out);
      UnsafeNotKept(config, before, Parse(config.codec, format, out));
    }
  }

  lemma FirstIsShort(size: NalLengthSize, d: seq<byte>, ns: seq<Nal>)
    requires Split(LengthPrefixed(size), d) == Ok(ns) && ns != [] && size != Four
    ensures |ns[0]| < 0x1_0000
  {
    ShortLengths(size.Bytes(), d, 0);
    assert ns[0] in ns;
  }

  lemma LostLengths(config: Configuration, size: NalLengthSize, ms: seq<Nal>)
    requires size != Four && ms != [] && |ms[0]| < 0x1_0000
    ensures Parse(config.codec, LengthPrefixed(size), Written(ms, false)).Err?
  {
    hide Written;
    NotReadShort(size.Bytes(), ms);
  }

  lemma SplitUnitsAreSafe(d: seq<byte>)
    requires Split(AnnexB, d).Ok?
    ensures forall n | n in Split(AnnexB, d).value :: AnnexBSafe(n)
  {
    hide AnnexBSafe;
    SplitIsByteStream(d);
  }

  lemma UnsafeNotKept(config: Configuration, before: AccessUnit, after: Result<AccessUnit, BitstreamError>)
    requires after.Ok? && forall n | n in after.value.nals :: AnnexBSafe(n)
    requires exists n | n in before.nals :: !config.Committed(n)
    requires exists s | s in config.sps :: !AnnexBSafe(s)
    ensures !Kept(config, before, after)
  {
    hide AnnexBSafe, LacksColour, NalType;
  }

  /**
   * The result parses under the same framing to the same picture and number of units, differing only in aligned SPS
   * units, with all its parameter sets committed, exactly where the framing is kept; lengths that are not kept do not
   * parse at all. Aligning a result that is kept changes nothing, unless the committed SPS can be misread, which
   * StableExactly shows to be the exact condition.
   */
  lemma AlignmentKeepsThePicture(config: Configuration, d: seq<byte>)
    requires config.Valid() && Parse(config.codec, ChosenFormat(config, d), d).Ok? && Align(config, d).Ok?
    ensures var format := ChosenFormat(config, d);
            var before := Parse(config.codec, format, d).value;
            var out := Align(config, d).value;
            var after := Parse(config.codec, format, out);
            && (Kept(config, before, after) <==> KeepsFraming(config, d))
            && (format != AnnexB ==> (after.Ok? <==> KeepsFraming(config, d)))
            && (KeepsFraming(config, d) && !Misreadable(config) ==> Align(config, out) == Ok(out))
  {
    hide Align, Aligned, Misreadable, KeepsFraming;
    if KeepsFraming(config, d) {
      AlignmentReparses(config, d);
      AlignedNals(config, Parse(config.codec, ChosenFormat(config, d), d).value.nals, None);
      if !Misreadable(config) {
        StableUnlessMisread(config, d);
      }
    } else {
      LostFraming(config, d);
    }
  }

  /** The only configurations that replace anything: AVC with a single SPS, and that says BT.709. */
  predicate Replacing(config: Configuration) {
    && config.codec == Avc && |config.sps| == 1
    && ParseAvc(config.sps[0]).Ok? && ParseAvc(config.sps[0]).value.color == Some(BT709)
  }

  /** Every picture that is aligned can be read again. */
  ghost predicate AlwaysKept(config: Configuration) {
    forall d: seq<byte> | Parse(config.codec, ChosenFormat(config, d), d).Ok? && Align(config, d).Ok? ::
      Kept(config, Parse(config.codec, ChosenFormat(config, d), d).value,
           Parse(config.codec, ChosenFormat(config, d), Align(config, d).value))
  }

  /** The results can be read again exactly where nothing is replaced, or lengths have four bytes and the SPS is safe. */
  lemma KeptExactly(config: Configuration)
    requires config.Valid()
    ensures AlwaysKept(config)
            <==> !Replacing(config) || (config.lengthSize == Four && forall s | s in config.sps :: AnnexBSafe(s))
  {
    hide Kept, Align, KeepsFraming, Replacing, AnnexBSafe, Misreadable;
    if Replacing(config) && !(config.lengthSize == Four && forall s | s in config.sps :: AnnexBSafe(s)) {
      var d := LosingInput(config);
      AlignmentKeepsThePicture(config, d);
    } else {
      forall d: seq<byte> | Parse(config.codec, ChosenFormat(config, d), d).Ok? && Align(config, d).Ok?
        ensures Kept(config, Parse(config.codec, ChosenFormat(config, d), d).value,
                     Parse(config.codec, ChosenFormat(config, d), Align(config, d).value))
      {
        NothingLost(config, d);
        AlignmentKeepsThePicture(config, d);
      }
    }
  }

  lemma NothingLost(config: Configuration, d: seq<byte>)
    requires config.Valid() && Parse(config.codec, ChosenFormat(config, d), d).Ok? && Align(config, d).Ok?
    requires !Replacing(config) || (config.lengthSize == Four && forall s | s in config.sps :: AnnexBSafe(s))
    ensures KeepsFraming(config, d)
  {
    hide AnnexBSafe, ParseAvc, AlignNals, Parse;
    var ns := Parse(config.codec, ChosenFormat(config, d), d).value.nals;
    AlignNalsExactly(config, ns);
    if n :| n in ns && !config.Committed(n) {
      assert Replaceable(config, n);
    }
  }

  // ----- Inputs in which a unit is replaced -----

  /** An IDR slice, the first of its picture. */
  const SLICE: Nal := [0x65, 0x80]

  lemma PlainUnit(config: Configuration, n: Nal)
    requires config.codec == Avc && n != [] && (n[0] == 1 || n[0] == 6 || n[0] == 0x65)
    ensures NalType(Avc, n) == Ok(n[0] % 32) && config.Committed(n)
  {
  }

  /** A unit that only lacks the colour of the single committed SPS, and survives either framing. */
  lemma TwinOf(config: Configuration) returns (twin: Nal)
    requires config.Valid() && Replacing(config)
    ensures 2 <= |twin| <= TWIN_BYTES && AnnexBSafe(twin) && NalType(Avc, twin) == Ok(7)
    ensures Replaceable(config, twin) && !config.Committed(twin)
  {
    hide ParseAvc, AnnexBSafe;
    var s := config.sps[0];
    assert s in config.sps;
    twin := ColourlessTwin(s);
    assert forall n | n in config.sps :: n == s;
  }

  /** Before units that are committed the twin is replaced. */
  lemma TwinIsReplaced(config: Configuration, twin: Nal, vs: seq<Nal>)
    requires config.Valid() && Replaceable(config, twin) && !config.Committed(twin)
    requires forall v | v in vs :: config.Committed(v)
    ensures AlignNals(config, [twin] + vs) == Ok([config.sps[0]] + vs)
  {
    hide AlignNal, Replaceable;
    AlignNalExactly(config, twin);
    UnchangedExactly(config, vs);
    assert ([twin] + vs)[1..] == vs;
  }

  lemma SpsThen(n: Nal, vs: seq<Nal>)
    requires NalType(Avc, n) == Ok(7)
    ensures Inspect(Avc, [n] + vs, None) == Inspect(Avc, vs, None)
  {
    hide NalType;
    InspectMore(n, vs, None);
  }

  lemma SliceIsAPicture()
    ensures Inspect(Avc, [SLICE], None).Ok?
  {
    assert [SLICE][1..] == [];
  }

  /** A picture of the twin and a slice is aligned, under the framing it is in. */
  lemma TwinAligns(config: Configuration, d: seq<byte>, twin: Nal, vs: seq<Nal>)
    requires config.Valid() && Replaceable(config, twin) && !config.Committed(twin)
    requires Split(ChosenFormat(config, d), d) == Ok([twin] + vs)
    requires (forall v | v in vs :: config.Committed(v)) && Inspect(Avc, vs, None).Ok?
    requires |Written([config.sps[0]] + vs, ChosenFormat(config, d).AnnexB?)| <= MAX_ACCESS_UNIT_BYTES
    ensures Parse(config.codec, ChosenFormat(config, d), d).Ok?
    ensures Parse(config.codec, ChosenFormat(config, d), d).value.nals == [twin] + vs
    ensures Align(config, d) == Ok(Written([config.sps[0]] + vs, ChosenFormat(config, d).AnnexB?))
  {
    hide Split, Written, Inspect, LacksColour, NalType, AlignNals;
    SpsThen(twin, vs);
    TwinIsReplaced(config, twin, vs);
    assert config.sps[0] in config.sps && twin != config.sps[0];
    assert ([config.sps[0]] + vs)[0] != ([twin] + vs)[0];
  }

  lemma WrittenPair(a: Nal, b: Nal, annexB: bool)
    ensures |Written([a, b], annexB)| == 8 + |a| + |b|
  {
    var one: seq<Nal>, two: seq<Nal> := [b], [a, b];
    assert two[1..] == one && one[1..] == [];
    assert |Written(one[1..], annexB)| == 0;
    assert |Written(one, annexB)| == 4 + |b|;
  }

  /** The big-endian length of one or two bytes. */
  function ShortHead(size: NalLengthSize, n: nat): (s: seq<byte>)
    requires size != Four && n < 256
    ensures |s| == size.Bytes()
  {
    if size == One then [n] else [0, n]
  }

  lemma ShortHeadReads(size: NalLengthSize, n: nat)
    requires size != Four && n < 256
    ensures BigEndian(ShortHead(size, n)) == n
  {
    var s := ShortHead(size, n);
    assert s[..|s| - 1] == if size == One then [] else [0];
    assert [0][..0] == [];
  }

  /** Where results cannot always be read again, an input whose result cannot. */
  lemma LosingInput(config: Configuration) returns (d: seq<byte>)
    requires config.Valid() && Replacing(config)
    requires config.lengthSize != Four || exists s | s in config.sps :: !AnnexBSafe(s)
    ensures Parse(config.codec, ChosenFormat(config, d), d).Ok? && Align(config, d).Ok? && !KeepsFraming(config, d)
  {
    hide Written, Inspect, Split, Replaceable, AnnexBSafe, NalType, Align;
    var twin := TwinOf(config);
    PlainUnit(config, SLICE);
    SliceIsAPicture();
    if config.lengthSize != Four {
      d := ShortPicture(config.lengthSize, twin);
    } else {
      d := AnnexBPicture(twin);
    }
    assert [twin] + [SLICE] == [twin, SLICE] && [config.sps[0]] + [SLICE] == [config.sps[0], SLICE];
    assert config.sps[0] in config.sps by { OneSps(config); }
    WrittenPair(config.sps[0], SLICE, ChosenFormat(config, d).AnnexB?);
    TwinAligns(config, d, twin, [SLICE]);
    assert twin in [twin, SLICE];
  }

  lemma ShortPicture(size: NalLengthSize, twin: Nal) returns (d: seq<byte>)
    requires size != Four && 2 <= |twin| <= TWIN_BYTES
    ensures Split(LengthPrefixed(size), d) == Ok([twin, SLICE]) && !StartsLikeAnnexB(d)
  {
    hide BigEndian;
    ShortHeadReads(size, |twin|);
    ShortHeadReads(size, 2);
    var rest := ShortHead(size, 2) + SLICE + [];
    PrefixedStep(size.Bytes(), ShortHead(size, 2), SLICE, [], 1);
    d := ShortHead(size, |twin|) + twin + rest;
    PrefixedStep(size.Bytes(), ShortHead(size, |twin|), twin, rest, 0);
    assert [twin] + ([SLICE] + []) == [twin, SLICE];
  }

  lemma AnnexBPicture(twin: Nal) returns (d: seq<byte>)
    requires AnnexBSafe(twin) && |twin| <= TWIN_BYTES
    ensures Split(AnnexB, d) == Ok([twin, SLICE]) && StartsLikeAnnexB(d)
  {
    hide Split;
    d := Written([twin, SLICE], true);
    assert d[..4] == [0, 0, 0, 1];
    assert d[0] == d[..4][0] && d[1] == d[..4][1] && d[2] == d[..4][2] && d[3] == d[..4][3];
    hide Written, AnnexBSafe;
    WrittenPair(twin, SLICE, true);
    assert AnnexBSafe(SLICE) by { SliceIsSafe(); }
    AnnexBRoundTrip([twin, SLICE]);
  }

  lemma SliceIsSafe()
    ensures AnnexBSafe(SLICE)
  {
  }

  lemma OneSps(config: Configuration)
    requires Replacing(config)
    ensures |config.sps| == 1 && config.sps[0] in config.sps
  {
  }

  // ----- When alignment is stable -----

  /**
   * The single committed SPS can pass for Annex-B when it is written with a four-byte length: the length ends in
   * 00 00 01 x, and x followed by the SPS opens a picture.
   */
  predicate Misreadable(config: Configuration) {
    && Replacing(config) && config.lengthSize == Four && 256 <= |config.sps[0]| < 512
    && var x: byte := |config.sps[0]| - 256;
       Opening([x] + config.sps[0], 0, None).Ok?
  }

  /** A length whose four bytes read as a start code and the header of a unit that is not a slice. */
  predicate MisreadLength(n: nat) {
    256 <= n < 512 && NalType(Avc, [n - 256]).Ok? && !IsVcl(Avc, NalType(Avc, [n - 256]).value)
  }

  /** For an SPS without start codes, as section 7.4.1 of ITU-T H.264 demands, the length alone decides. */
  lemma MisreadableByLength(config: Configuration)
    requires config.Valid() && Replacing(config) && CodeFree(config.sps[0])
    ensures Misreadable(config) <==> config.lengthSize == Four && MisreadLength(|config.sps[0]|)
  {
    hide ParseAvc, Opening;
    var s := config.sps[0];
    assert s in config.sps;
    if 256 <= |s| < 512 {
      forall j {:trigger CodeAt(s, j)} | 0 <= j < |s|
        ensures !CodeAt(s, j)
      {
      }
      CodeFreeOpening(|s| - 256, s);
    }
  }

  /** Aligning any result that keeps its framing again changes nothing. */
  ghost predicate Stable(config: Configuration) {
    forall d: seq<byte> | KeepsFraming(config, d) && Align(config, d).Ok? ::
      Align(config, Align(config, d).value) == Align(config, d)
  }

  /** Where the committed SPS cannot be misread, alignment is stable. */
  lemma StableUnlessMisread(config: Configuration, d: seq<byte>)
    requires config.Valid() && KeepsFraming(config, d) && Align(config, d).Ok? && !Misreadable(config)
    ensures Align(config, Align(config, d).value) == Align(config, d)
  {
    hide AlignNals, Written, Parse, Misreadable, Be32, KeepsFraming;
    var format, out := ChosenFormat(config, d), Align(config, d).value;
    if Parse(config.codec, format, d).Ok? && out != d {
      AlignmentReparses(config, d);
      ReplacedFraming(config, d);
      var ns, ms := Parse(config.codec, format, d).value.nals, Parse(config.codec, format, out).value.nals;
      SplitOfParse(config.codec, format, d);
      SplitOfParse(config.codec, format, out);
      if format == AnnexB || !AmbiguousLength(|ms[0]|) {
        SameFormat(config, d, out, ms);
      } else {
        ReplacedFirst(config, d, ns, ms);
        PictureOfParse(config.codec, format, out);
        RefusedAsAnnexB(config, ms);
      }
    }
  }

  lemma PictureOfParse(codec: Codec, format: NalFormat, d: seq<byte>)
    requires Parse(codec, format, d).Ok?
    ensures Inspect(codec, Parse(codec, format, d).value.nals, None).Ok? && |d| <= MAX_ACCESS_UNIT_BYTES
  {
  }

  /** A result that differs from its input and keeps its framing. */
  lemma ReplacedFraming(config: Configuration, d: seq<byte>)
    requires config.Valid() && KeepsFraming(config, d) && Align(config, d).Ok? && Align(config, d).value != d
    ensures Parse(config.codec, ChosenFormat(config, d), d).Ok?
    ensures ChosenFormat(config, d) == AnnexB || ChosenFormat(config, d) == LengthPrefixed(Four)
  {
    hide Parse, AlignNals, Written;
    UnchangedExactly(config, Parse(config.codec, ChosenFormat(config, d), d).value.nals);
  }

  /** An ambiguous first unit can only be the committed SPS in the place of one it replaced. */
  lemma ReplacedFirst(config: Configuration, d: seq<byte>, ns: seq<Nal>, ms: seq<Nal>)
    requires config.Valid() && ChosenFormat(config, d) == LengthPrefixed(Four)
    requires Split(LengthPrefixed(Four), d) == Ok(ns) && AlignNals(config, ns) == Ok(ms) && ms != []
    requires AmbiguousLength(|ms[0]|)
    ensures Replacing(config) && config.lengthSize == Four && ms[0] == config.sps[0] && 256 <= |ms[0]| < 512
  {
    hide AlignNals, Written, ParseAvc, Be32, PrefixedFrom;
    PrefixedSplitsExactly(d, ns, 0);
    AlignedNals(config, ns, None);
    assert ns[0] in ns;
    AmbiguousExactly(ns);
    assert Aligned(config, ns[0], ms[0]);
    assert ms[0] in config.sps;
  }

  lemma SameFormat(config: Configuration, d: seq<byte>, out: seq<byte>, ms: seq<Nal>)
    requires Split(ChosenFormat(config, d), out) == Ok(ms) && ms != []
    requires ChosenFormat(config, d) == AnnexB || ChosenFormat(config, d) == LengthPrefixed(Four)
    requires out == Written(ms, ChosenFormat(config, d).AnnexB?)
    requires ChosenFormat(config, d) == AnnexB || !AmbiguousLength(|ms[0]|)
    ensures ChosenFormat(config, out) == ChosenFormat(config, d)
  {
    if ChosenFormat(config, d) == AnnexB {
      assert out[..4] == [0, 0, 0, 1];
      assert out[0] == out[..4][0] && out[1] == out[..4][1] && out[2] == out[..4][2] && out[3] == out[..4][3];
    } else {
      PrefixedSplitsExactly(out, ms, 0);
      assert ms[0] in ms;
      AmbiguousExactly(ms);
    }
  }

  /** What the four bytes of a length of 256 to 511 make of the unit behind them. */
  lemma MisreadStream(ms: seq<Nal>)
    requires ms != [] && 256 <= |ms[0]| < 512
    ensures var x: byte := |ms[0]| - 256;
            Written(ms, false) == Stream([x] + ms[0], Written(ms[1..], false))
  {
    WrittenFirst(ms);
    hide Written;
    var x: byte := |ms[0]| - 256;
    assert Be32(|ms[0]|) == [0, 0, 1] + [x];
    assert [0, 0, 1] + [x] + ms[0] + Written(ms[1..], false) == [0, 0, 1] + ([x] + ms[0]) + Written(ms[1..], false);
  }

  /** A result whose first length reads as a start code is no Annex-B picture unless the SPS can be misread. */
  lemma RefusedAsAnnexB(config: Configuration, ms: seq<Nal>)
    requires config.Valid() && Replacing(config) && config.lengthSize == Four && !Misreadable(config)
    requires ms != [] && ms[0] == config.sps[0] && 256 <= |ms[0]| < 512
    requires Inspect(Avc, ms, None).Ok? && |Written(ms, false)| <= MAX_ACCESS_UNIT_BYTES
    ensures Align(config, Written(ms, false)) == Ok(Written(ms, false))
  {
    hide Written, ParseAvc, Inspect, AnnexBFrom, Stream, Opening;
    var out, t := Written(ms, false), Written(ms[1..], false);
    var x: byte := |ms[0]| - 256;
    var y := [x] + ms[0];
    assert ms[0] in config.sps;
    MisreadStream(ms);
    SpsIsNotAll(ms);
    TailBeginsWithZero(ms);
    StreamBegins(y, t);
    if AnnexBFrom(Stream(y, t), 3, 0).Ok? {
      OpeningRefused(y, t, 0, None, 0);
    }
  }

  lemma SpsIsNotAll(ms: seq<Nal>)
    requires ms != [] && NalType(Avc, ms[0]) == Ok(7) && Inspect(Avc, ms, None).Ok?
    ensures |ms| >= 2
  {
    hide NalType;
  }

  lemma ShortLengthBegins(n: nat)
    requires n < 0x100_0000
    ensures Be32(n)[0] == 0
  {
    assert n / 0x100_0000 == 0;
  }

  lemma TailBeginsWithZero(ms: seq<Nal>)
    requires |ms| >= 2 && |Written(ms, false)| <= MAX_ACCESS_UNIT_BYTES
    ensures Written(ms[1..], false) != [] && Written(ms[1..], false)[0] == 0
  {
    WrittenFirst(ms);
    WrittenFirst(ms[1..]);
    hide Written, Be32;
    var n := |ms[1..][0]|;
    assert n < 0x100_0000;
    ShortLengthBegins(n);
  }

  lemma StreamBegins(y: seq<byte>, t: seq<byte>)
    requires y != []
    ensures StartsLikeAnnexB(Stream(y, t))
    ensures AnnexBUnits(Stream(y, t)) == AnnexBFrom(Stream(y, t), 3, 0)
  {
    var d := Stream(y, t);
    assert CodeAt(d, 0) && FirstCode(d, 0) == 0;
    assert d[..0] == [];
  }

  // ----- Inputs for which it is not -----

  function Filler(b: byte, n: nat): (s: seq<byte>)
    ensures |s| == n && forall i | 0 <= i < n :: s[i] == b
  {
    seq(n, _ => b)
  }

  /** The first slice of a picture that is no reference. */
  const LONE_SLICE: Nal := [1, 0x80]

  /** The first slice of an IDR picture. */
  function HiddenSlice(): (n: Nal)
    ensures |n| == 0xffff
  {
    SLICE + Filler(0x55, 0xfffd)
  }

  /** A further slice of the picture LONE_SLICE begins, whose length and header read as a start code. */
  function CoverSlice(): (n: Nal)
    ensures |n| == 0x1_0000
  {
    [1] + HiddenSlice()
  }

  /** Supplemental information, the length of which reads as a start code and the header of an SPS. */
  function ShortSei(): (n: Nal)
    ensures |n| == 0x167
  {
    Filler(6, 0x167)
  }

  function LongSei(): (n: Nal)
    ensures |n| == 0x1_0101
  {
    Filler(6, 0x1_0101)
  }

  /** What that SPS is read as: longer than any that is committed or parsed. */
  function HiddenSps(): (n: Nal)
    ensures |n| > 0x1_0000 && n[0] == 0x67
  {
    [0x67] + ShortSei() + ([0, 1, 1, 1] + LongSei())
  }

  /** The units behind the SPS, by what the misread SPS has shown of a picture. */
  function Behind(seen: Seen): seq<Nal> {
    if seen.None? then [LONE_SLICE, CoverSlice(), ShortSei(), LongSei()] else [SLICE, ShortSei(), LongSei()]
  }

  /** The bytes of theirs that go on with the last unit read from the SPS. */
  function Between(seen: Seen): seq<byte> {
    if seen.None? then [0, 0, 0, 2] + LONE_SLICE + [0, 1] else [0, 0, 0, 2] + SLICE
  }

  /** The units read from the rest. */
  function Hidden(seen: Seen): seq<Nal> {
    if seen.None? then [HiddenSlice(), HiddenSps()] else [HiddenSps()]
  }

  function HiddenBytes(seen: Seen): seq<byte> {
    if seen.None? then Units(Hidden(seen), [0, 0]) else Units(Hidden(seen), [0])
  }

  lemma SeiBytes()
    ensures Written([ShortSei(), LongSei()], false) == [0, 0, 1] + HiddenSps()
  {
    var a, b := ShortSei(), LongSei();
    hide ShortSei, LongSei;
    WrittenFirst([a, b]);
    WrittenFirst([b]);
    assert [a, b][1..] == [b] && Written([b][1..], false) == [];
    hide Written;
    assert Be32(0x167) == [0, 0, 1] + [0x67] && Be32(0x1_0101) == [0, 1, 1, 1];
    assert [0, 0, 1] + [0x67] + a + ([0, 1, 1, 1] + b + []) == [0, 0, 1] + ([0x67] + a + ([0, 1, 1, 1] + b));
  }

  lemma LoneUnits(n: Nal)
    ensures Units([n], [0]) == n
  {
    assert n + ZeroBytes(0) + [] == n;
  }

  lemma TwoUnits(n: Nal, m: Nal)
    ensures Units([n, m], [0, 0]) == n + ([0, 0, 1] + m)
  {
    LoneUnits(m);
    assert [n, m][1..] == [m] && [0, 0][1..] == [0];
    assert n + ZeroBytes(0) == n;
  }

  /** The units behind the SPS as an Annex-B reader meets them. */
  lemma BehindBytes(seen: Seen)
    ensures Written(Behind(seen), false) == Between(seen) + ([0, 0, 1] + HiddenBytes(seen))
  {
    hide HiddenSps, HiddenSlice, ShortSei, LongSei, Written, Units;
    SeiBytes();
    LoneUnits(HiddenSps());
    assert Be32(2) == [0, 0, 0, 2];
    var rest := [0, 0, 1] + HiddenSps();
    if seen.None? {
      TwoUnits(HiddenSlice(), HiddenSps());
      BehindCover(rest);
    } else {
      var us := Behind(seen);
      WrittenFirst(us);
      assert us[1..] == [ShortSei(), LongSei()];
    }
  }

  lemma BehindCover(rest: seq<byte>)
    requires Written([ShortSei(), LongSei()], false) == rest
    ensures Written([LONE_SLICE, CoverSlice(), ShortSei(), LongSei()], false)
            == [0, 0, 0, 2] + LONE_SLICE + [0, 1] + ([0, 0, 1] + (HiddenSlice() + rest))
  {
    var us := [LONE_SLICE, CoverSlice(), ShortSei(), LongSei()];
    WrittenFirst(us);
    WrittenFirst(us[1..]);
    assert us[1..][1..] == [ShortSei(), LongSei()];
    assert Be32(2) == [0, 0, 0, 2] && Be32(0x1_0000) == [0, 1, 0, 0];
    hide Written, HiddenSlice, ShortSei, LongSei, Be32;
    assert [0, 1, 0, 0] + ([1] + HiddenSlice()) + rest == [0, 1] + ([0, 0, 1] + (HiddenSlice() + rest));
  }

  lemma BehindIsShort(seen: Seen)
    ensures |Written(Behind(seen), false)| <= 0x4_0000
  {
    BehindBytes(seen);
    LoneUnits(HiddenSps());
    TwoUnits(HiddenSlice(), HiddenSps());
    hide Written, Units;
  }

  lemma BetweenIsQuiet(seen: Seen)
    ensures Quiet(Between(seen))
  {
    var z := Between(seen);
    var w := z + [0, 0, 1];
    assert w == if seen.None? then [0, 0, 0, 2, 1, 0x80, 0, 1, 0, 0, 1] else [0, 0, 0, 2, 0x65, 0x80, 0, 0, 1];
  }

  lemma HiddenIsSafe(seen: Seen)
    ensures forall n | n in Hidden(seen) :: AnnexBSafe(n)
  {
    var n := HiddenSps();
    forall i {:trigger n[i]} | 0 <= i < |n| - 2
      ensures !(n[i] == 0 && n[i + 1] == 0 && n[i + 2] == 1)
    {
      assert i < 0x168 ==> n[i] != 0;
      assert n[0x168] == 0 && n[0x169] == 1;
    }
  }

  lemma HiddenPicture(seen: Seen)
    ensures Inspect(Avc, Hidden(seen), seen).Ok?
  {
    SpsAdds(HiddenSps());
    if seen.None? {
      var n := HiddenSlice();
      assert n[0] == 0x65 && n[1] == 0x80;
      InspectMore(n, [HiddenSps()], None);
      assert [n] + [HiddenSps()] == Hidden(seen);
    }
  }

  lemma SpsAdds(n: Nal)
    requires n != [] && n[0] == 0x67
    ensures forall seen: Seen | seen.Some? :: Inspect(Avc, [n], seen).Ok?
  {
    assert [n][1..] == [];
  }

  lemma BehindPicture(config: Configuration, seen: Seen)
    requires config.codec == Avc
    ensures Inspect(Avc, Behind(seen), None).Ok? && forall v | v in Behind(seen) :: config.Committed(v)
  {
    var a, b := ShortSei(), LongSei();
    PlainUnit(config, SLICE);
    PlainUnit(config, LONE_SLICE);
    PlainUnit(config, CoverSlice());
    PlainUnit(config, a);
    PlainUnit(config, b);
    SeiAdd(a, b);
    var vs := [a, b];
    assert [SLICE] + vs == [SLICE, a, b];
    InspectMore(SLICE, vs, None);
    CoverAdds(vs);
    assert [LONE_SLICE] + ([CoverSlice()] + vs) == [LONE_SLICE, CoverSlice(), a, b];
  }

  lemma SeiAdd(a: Nal, b: Nal)
    requires a != [] && b != [] && a[0] == 6 && b[0] == 6
    ensures forall seen: Seen | seen.Some? :: Inspect(Avc, [a, b], seen).Ok?
  {
    forall seen: Seen | seen.Some?
      ensures Inspect(Avc, [a, b], seen).Ok?
    {
      var one: seq<Nal>, two: seq<Nal> := [b], [a, b];
      assert two[1..] == one && one[1..] == [];
      assert InspectOne(Avc, a, seen) == Ok(seen) == InspectOne(Avc, b, seen);
      assert Inspect(Avc, one, seen).Ok?;
    }
  }

  lemma CoverAdds(vs: seq<Nal>)
    requires forall seen: Seen | seen.Some? :: Inspect(Avc, vs, seen).Ok?
    ensures Inspect(Avc, [LONE_SLICE] + ([CoverSlice()] + vs), None).Ok?
  {
    var c := CoverSlice();
    assert c[0] == 1 && c[1] == 0x65;
    var seen: Seen := Some((PictureInfo(Trailing, true), 1));
    InspectMore(c, vs, seen);
    InspectMore(LONE_SLICE, [c] + vs, None);
    assert InspectOne(Avc, LONE_SLICE, None) == Ok(seen);
  }

  /** An SPS that long is neither committed nor admitted. */
  lemma HiddenSpsIsRefused(config: Configuration, us: seq<Nal>)
    requires config.Valid() && config.codec == Avc && HiddenSps() in us
    ensures AlignNals(config, us).Err?
  {
    var n := HiddenSps();
    hide HiddenSps, AlignNals;
    AlignNalsExactly(config, us);
    assert NalType(Avc, n) == Ok(7);
    assert ParseAvc(n).Err?;
  }

  /** The Annex-B reading of a misreadable SPS and the units behind it is a picture that alignment refuses. */
  lemma MisreadIsRefused(config: Configuration, seen: Seen)
    requires config.Valid() && Misreadable(config)
    requires var x: byte := |config.sps[0]| - 256; seen == Opening([x] + config.sps[0], 0, None).value
    requires |Written([config.sps[0]] + Behind(seen), false)| <= MAX_ACCESS_UNIT_BYTES
    ensures Align(config, Written([config.sps[0]] + Behind(seen), false)).Err?
  {
    hide Written, ParseAvc, Inspect, AnnexBFrom, Stream, Opening, Behind, Between, Hidden, HiddenBytes, Quiet, HiddenSps;
    var s := config.sps[0];
    var x: byte := |s| - 256;
    var y := [x] + s;
    var ms := [s] + Behind(seen);
    assert ms[1..] == Behind(seen);
    MisreadStream(ms);
    BehindBytes(seen);
    BetweenIsQuiet(seen);
    var z, r := Between(seen), HiddenBytes(seen);
    var d := Stream(y, z + ([0, 0, 1] + r));
    StreamBegins(y, z + ([0, 0, 1] + r));
    FewPieces(y, 0, None);
    HiddenSplits(y, seen, Pieces(y, 0));
    var us := OpeningReadsOn(y, z, r, 0, None, 0, Hidden(seen));
    HiddenPicture(seen);
    HiddenEnds(seen);
    HiddenSpsIsRefused(config, us);
    assert Parse(Avc, AnnexB, d).Ok? && Parse(Avc, AnnexB, d).value.nals == us;
  }

  lemma HiddenEnds(seen: Seen)
    ensures HiddenSps() in Hidden(seen)
  {
    hide HiddenSps, HiddenSlice;
  }

  lemma HiddenSplits(y: seq<byte>, seen: Seen, count: nat)
    requires count + 2 <= MAX_NALS
    ensures var d := Stream(y, Between(seen) + ([0, 0, 1] + HiddenBytes(seen)));
            && 6 + |y| + |Between(seen)| <= |d|
            && AnnexBFrom(d, 6 + |y| + |Between(seen)|, count) == Ok(Hidden(seen))
  {
    hide HiddenSps, HiddenSlice, AnnexBSafe, Between, Units, AnnexBFrom;
    var z, r := Between(seen), HiddenBytes(seen);
    var d := Stream(y, z + ([0, 0, 1] + r));
    assert d == ([0, 0, 1] + y + z + [0, 0, 1]) + r;
    assert d[6 + |y| + |z|..] == r;
    HiddenIsSafe(seen);
    FramedUnitsSplit(d, 6 + |y| + |z|, Hidden(seen), if seen.None? then [0, 0] else [0], count);
  }

  /** For every misreadable configuration there is an input whose alignment, aligned again, is refused. */
  lemma MisreadWitness(config: Configuration) returns (d: seq<byte>)
    requires config.Valid() && Misreadable(config)
    ensures KeepsFraming(config, d) && Align(config, d).Ok? && Align(config, Align(config, d).value).Err?
  {
    hide ParseAvc, Written, Opening, Behind, Inspect, NalType, Replaceable, AnnexBSafe, Split, Align;
    var s := config.sps[0];
    var x: byte := |s| - 256;
    var seen := Opening([x] + s, 0, None).value;
    var twin := TwinOf(config);
    var vs := Behind(seen);
    d := Written([twin] + vs, false);
    BehindPicture(config, seen);
    BehindIsShort(seen);
    FewBehind(seen);
    WrittenThen(twin, vs);
    WrittenThen(s, vs);
    PrefixedPicture(twin, vs);
    TwinAligns(config, d, twin, vs);
    MisreadIsRefused(config, seen);
  }

  lemma FewBehind(seen: Seen)
    ensures |Behind(seen)| <= 4 && forall v | v in Behind(seen) :: v != []
  {
    hide ShortSei, LongSei, CoverSlice;
  }

  lemma WrittenThen(n: Nal, vs: seq<Nal>)
    ensures |Written([n] + vs, false)| == 4 + |n| + |Written(vs, false)|
  {
    WrittenFirst([n] + vs);
    assert ([n] + vs)[1..] == vs;
  }

  lemma PrefixedPicture(twin: Nal, vs: seq<Nal>)
    requires 2 <= |twin| <= TWIN_BYTES && |vs| <= 4 && (forall v | v in vs :: v != [])
    requires |Written([twin] + vs, false)| <= MAX_ACCESS_UNIT_BYTES
    ensures Split(LengthPrefixed(Four), Written([twin] + vs, false)) == Ok([twin] + vs)
    ensures !StartsLikeAnnexB(Written([twin] + vs, false))
  {
    hide Written, Split;
    PrefixedRoundTrip([twin] + vs);
    AmbiguousExactly([twin] + vs);
  }

  /** Alignment is stable exactly where the committed SPS cannot be misread. */
  lemma StableExactly(config: Configuration)
    requires config.Valid()
    ensures Stable(config) <==> !Misreadable(config)
  {
    hide KeepsFraming, Align, Misreadable;
    if Misreadable(config) {
      var d := MisreadWitness(config);
      assert Align(config, Align(config, d).value) != Align(config, d);
    } else {
      forall d: seq<byte> | KeepsFraming(config, d) && Align(config, d).Ok?
        ensures Align(config, Align(config, d).value) == Align(config, d)
      {
        StableUnlessMisread(config, d);
      }
    }
  }

  /**
   * The two halves of the adapter fit: an SPS and its BT.709 rewrite are alignable, so a configuration committed with
   * the rewrite accepts access units that still carry the original, in either framing.
   */
  lemma RewriteIsAlignable(config: Configuration, nal: Nal, out: Nal)
    requires ParseAvc(nal).Ok? && NalType(Avc, nal) == Ok(7) && Admitted(nal, out)
    requires ParseAvc(nal).value.color.None? || ParseAvc(nal).value.color == Some(UNSPECIFIED)
    requires config.codec == Avc && config.sps == [out]
    ensures AlignNal(config, nal) == Ok(out) && AnnexBSafe(out) && NalType(Avc, out) == Ok(7)
  {
    hide ParseAvc, AnnexBSafe, SyntaxOf;
    assert ParseAvc(out) == Ok(ParseAvc(nal).value.(color := Some(BT709)));
    assert AvcSpsMayAlign(nal, out) == Ok(true);
  }
}
