/** The verdict on one coded picture, in the bytes of its NAL units. */
module CodedPictures {
  import opened Results
  import opened AccessUnits

  /** forbidden_zero_bit 0, a type of 1 or 5 to 12, and nal_ref_idc not 0 where types 5, 7 and 8 demand it. */
  const AVC_HEADERS: set<byte> :=
    {0x01, 0x21, 0x41, 0x61, 0x25, 0x45, 0x65, 0x06, 0x26, 0x46, 0x66, 0x27, 0x47, 0x67, 0x28, 0x48, 0x68,
     0x09, 0x29, 0x49, 0x69, 0x0a, 0x2a, 0x4a, 0x6a, 0x0b, 0x2b, 0x4b, 0x6b, 0x0c, 0x2c, 0x4c, 0x6c}

  /** Types 0 to 9, 19 to 21 and 32 to 40 of layer 0: twice the type. */
  const HEVC_HEADERS: set<byte> :=
    {0, 2, 4, 6, 8, 10, 12, 14, 16, 18, 38, 40, 42, 64, 66, 68, 70, 72, 74, 76, 78, 80}

  /** IDR, CRA, VPS, SPS, end of sequence and end of bitstream belong to the lowest temporal layer. */
  const LOWEST_LAYER: set<byte> := {38, 40, 42, 64, 66, 72, 74}

  /** TSA and STSA pictures belong to a higher one. */
  const HIGHER_LAYER: set<byte> := {4, 6, 8, 10}

  predicate ValidHeader(codec: Codec, n: Nal) {
    match codec
    case Avc => n != [] && n[0] in AVC_HEADERS
    case Hevc =>
      && |n| >= 2 && n[0] in HEVC_HEADERS && 1 <= n[1] <= 7
      && (n[0] in LOWEST_LAYER ==> n[1] == 1) && (n[0] in HIGHER_LAYER ==> n[1] != 1)
  }

  predicate SliceHeader(codec: Codec, n: Nal) {
    match codec
    case Avc => n != [] && n[0] in {0x01, 0x21, 0x41, 0x61, 0x25, 0x45, 0x65}
    case Hevc => n != [] && n[0] < 64
  }

  /** The bit that marks the first slice of a picture is there, and has this value. */
  predicate Marked(codec: Codec, n: Nal, first: bool) {
    match codec
    case Avc => |n| >= 2 && (n[1] >= 128 <==> first)
    case Hevc => |n| >= 3 && (n[2] >= 128 <==> first)
  }

  predicate IdrSlice(n: Nal) {
    n != [] && n[0] in {0x25, 0x45, 0x65}
  }

  /** What the header of a slice shows. */
  predicate Shows(codec: Codec, n: Nal, p: PictureInfo) {
    match codec
    case Avc =>
      n != [] && p.kind == (if IdrSlice(n) then AvcIdr else Trailing) && (p.discardable <==> n[0] == 0x01)
    case Hevc =>
      && n != []
      && p.kind == (if n[0] == 38 || n[0] == 40 then HevcIdr
                    else if n[0] == 42 then HevcCra
                    else if n[0] == 16 || n[0] == 18 then HevcRasl
                    else if n[0] == 12 || n[0] == 14 then HevcRadl
                    else Trailing)
      && (p.discardable <==> n[0] in {0, 4, 8, 12, 16})
  }

  predicate SameType(codec: Codec, n: Nal, m: Nal) {
    match codec
    case Avc => IdrSlice(n) <==> IdrSlice(m)
    case Hevc => n != [] && m != [] && n[0] == m[0]
  }

  /** n is a slice that goes on with the picture p that m began. */
  predicate GoesOn(codec: Codec, n: Nal, m: Nal, p: PictureInfo) {
    Marked(codec, n, false) && SameType(codec, n, m) && Shows(codec, n, p)
  }

  /** One picture: the j-th unit is its first slice, and later slices go on with it. */
  ghost predicate PictureFrom(codec: Codec, nals: seq<Nal>, p: PictureInfo, j: nat)
    requires j < |nals|
  {
    && SliceHeader(codec, nals[j]) && Marked(codec, nals[j], true) && Shows(codec, nals[j], p)
    && (forall i | 0 <= i < j :: !SliceHeader(codec, nals[i]))
    && forall i | j < i < |nals| && SliceHeader(codec, nals[i]) :: GoesOn(codec, nals[i], nals[j], p)
  }

  ghost predicate PictureIn(codec: Codec, nals: seq<Nal>, p: PictureInfo) {
    && (forall n | n in nals :: ValidHeader(codec, n))
    && exists j | 0 <= j < |nals| :: PictureFrom(codec, nals, p, j)
  }

  lemma AvcHeader(n: Nal)
    ensures NalType(Avc, n).Ok? <==> ValidHeader(Avc, n)
    ensures ValidHeader(Avc, n) ==>
              && (IsVcl(Avc, NalType(Avc, n).value) <==> SliceHeader(Avc, n))
              && NalType(Avc, n) == Ok(n[0] % 32)
    ensures ValidHeader(Avc, n) && SliceHeader(Avc, n) ==>
              && NalType(Avc, n).value == (if IdrSlice(n) then 5 else 1)
              && Shows(Avc, n, PictureOf(Avc, NalType(Avc, n).value, n))
  {
  }

  lemma HevcTypes(x: byte)
    requires x % 2 == 0
    ensures var kind: nat := x / 2 % 64;
            && (x < 128 && (kind <= 9 || 19 <= kind <= 21 || 32 <= kind <= 40) <==> x in HEVC_HEADERS)
            && (x in HEVC_HEADERS ==>
                  && x < 128 && 2 * kind == x as int
                  && (16 <= kind <= 23 || kind in {32, 33, 36, 37} <==> x in LOWEST_LAYER)
                  && (2 <= kind <= 5 <==> x in HIGHER_LAYER))
  {
  }

  lemma HevcHeader(n: Nal)
    ensures NalType(Hevc, n).Ok? <==> ValidHeader(Hevc, n)
    ensures ValidHeader(Hevc, n) ==>
              && (IsVcl(Hevc, NalType(Hevc, n).value) <==> SliceHeader(Hevc, n))
              && 2 * NalType(Hevc, n).value == n[0] as int
              && Shows(Hevc, n, PictureOf(Hevc, NalType(Hevc, n).value, n))
  {
    if n != [] && n[0] % 2 == 0 {
      HevcTypes(n[0]);
    }
  }

  lemma OnlyPicture(codec: Codec, n: Nal, p: PictureInfo, q: PictureInfo)
    requires Shows(codec, n, p)
    ensures Shows(codec, n, q) <==> p == q
  {
  }

  /** One unit of the inspection, in bytes. */
  lemma HeaderExactly(codec: Codec, n: Nal)
    ensures NalType(codec, n).Ok? <==> ValidHeader(codec, n)
    ensures ValidHeader(codec, n) ==> (IsVcl(codec, NalType(codec, n).value) <==> SliceHeader(codec, n))
    ensures ValidHeader(codec, n) && SliceHeader(codec, n) ==>
              forall p :: PictureOfValid(codec, n) == p <==> Shows(codec, n, p)
    ensures ValidHeader(codec, n) ==> forall first :: FirstSlice(codec, n) == Ok(first) <==> Marked(codec, n, first)
  {
    hide NalType, PictureOf, Shows;
    if codec == Avc {
      AvcHeader(n);
    } else {
      HevcHeader(n);
    }
    if ValidHeader(codec, n) && SliceHeader(codec, n) {
      forall p
        ensures PictureOfValid(codec, n) == p <==> Shows(codec, n, p)
      {
        OnlyPicture(codec, n, PictureOfValid(codec, n), p);
      }
    }
  }

  lemma TypesExactly(codec: Codec, n: Nal, m: Nal)
    requires ValidHeader(codec, n) && ValidHeader(codec, m) && SliceHeader(codec, n) && SliceHeader(codec, m)
    ensures NalType(codec, n) == NalType(codec, m) <==> SameType(codec, n, m)
  {
    hide NalType, IsVcl;
    if codec == Avc {
      AvcHeader(n);
      AvcHeader(m);
    } else {
      HevcHeader(n);
      HevcHeader(m);
    }
  }

  /** A slice continues a picture that m began exactly when it goes on with it. */
  lemma ContinuesExactly(codec: Codec, n: Nal, m: Nal, p: PictureInfo)
    requires ValidHeader(codec, n) && ValidHeader(codec, m) && SliceHeader(codec, n) && SliceHeader(codec, m)
    ensures NalType(codec, m).Ok?
    ensures Continues(codec, n, NalType(codec, m).value, p) <==> GoesOn(codec, n, m, p)
  {
    hide NalType, PictureOf, Shows, Marked, SameType, FirstSlice, SliceHeader, ValidHeader, IsVcl;
    HeaderExactly(codec, n);
    HeaderExactly(codec, m);
    TypesExactly(codec, n, m);
  }

  lemma {:induction false} VclUnitsAre(codec: Codec, nals: seq<Nal>)
    ensures forall n :: n in VclUnits(codec, nals) <==>
              n in nals && NalType(codec, n).Ok? && IsVcl(codec, NalType(codec, n).value)
  {
    hide NalType, IsVcl;
    if nals != [] {
      VclUnitsAre(codec, nals[1..]);
    }
  }

  /** The units after a first slice m. */
  lemma RestExactly(codec: Codec, nals: seq<Nal>, m: Nal, p: PictureInfo)
    requires ValidHeader(codec, m) && SliceHeader(codec, m)
    ensures NalType(codec, m).Ok?
    ensures Inspect(codec, nals, Some((p, NalType(codec, m).value))).Ok? <==>
            forall n | n in nals :: ValidHeader(codec, n) && (SliceHeader(codec, n) ==> GoesOn(codec, n, m, p))
    ensures var r := Inspect(codec, nals, Some((p, NalType(codec, m).value))); r.Ok? ==> r.value == p
  {
    hide NalType, Inspect, ValidHeader, SliceHeader, GoesOn, Continues, IsVcl;
    HeaderExactly(codec, m);
    var kind := NalType(codec, m).value;
    InspectRest(codec, nals, kind, p);
    VclUnitsAre(codec, nals);
    forall n | n in nals
      ensures NalType(codec, n).Ok? <==> ValidHeader(codec, n)
      ensures ValidHeader(codec, n) ==> (n in VclUnits(codec, nals) <==> SliceHeader(codec, n))
      ensures ValidHeader(codec, n) && SliceHeader(codec, n) ==>
                (Continues(codec, n, kind, p) <==> GoesOn(codec, n, m, p))
    {
      HeaderExactly(codec, n);
      if ValidHeader(codec, n) && SliceHeader(codec, n) {
        ContinuesExactly(codec, n, m, p);
      }
    }
  }

  lemma LaterPicture(codec: Codec, nals: seq<Nal>, p: PictureInfo)
    requires nals != [] && ValidHeader(codec, nals[0]) && !SliceHeader(codec, nals[0])
    ensures PictureIn(codec, nals, p) <==> PictureIn(codec, nals[1..], p)
  {
    hide ValidHeader, SliceHeader, PictureFrom;
    var n, rest := nals[0], nals[1..];
    assert nals == [n] + rest;
    if PictureIn(codec, nals, p) {
      var j :| 0 <= j < |nals| && PictureFrom(codec, nals, p, j);
      if j > 0 {
        PictureShifts(codec, n, rest, p, j - 1);
      } else {
        NotFrom(codec, nals, p);
      }
    }
    if PictureIn(codec, rest, p) {
      var j :| 0 <= j < |rest| && PictureFrom(codec, rest, p, j);
      PictureShifts(codec, n, rest, p, j);
    }
  }

  lemma NotFrom(codec: Codec, nals: seq<Nal>, p: PictureInfo)
    requires nals != [] && !SliceHeader(codec, nals[0])
    ensures !PictureFrom(codec, nals, p, 0)
  {
  }

  lemma PictureShifts(codec: Codec, n: Nal, rest: seq<Nal>, p: PictureInfo, j: nat)
    requires !SliceHeader(codec, n) && j < |rest|
    ensures PictureFrom(codec, [n] + rest, p, j + 1) <==> PictureFrom(codec, rest, p, j)
  {
    hide SliceHeader, Marked, Shows, GoesOn;
    var nals := [n] + rest;
    assert forall i | 0 <= i < |rest| :: rest[i] == nals[i + 1];
    if PictureFrom(codec, rest, p, j) {
      assert forall i | 0 < i < |nals| :: nals[i] == rest[i - 1];
    }
  }

  lemma FirstPicture(codec: Codec, nals: seq<Nal>, p: PictureInfo)
    requires nals != [] && ValidHeader(codec, nals[0]) && SliceHeader(codec, nals[0])
    ensures PictureIn(codec, nals, p) <==>
              && Marked(codec, nals[0], true) && Shows(codec, nals[0], p)
              && forall n | n in nals[1..] ::
                   ValidHeader(codec, n) && (SliceHeader(codec, n) ==> GoesOn(codec, n, nals[0], p))
  {
    hide ValidHeader, SliceHeader, Marked, Shows, GoesOn;
    var rest := nals[1..];
    assert nals == [nals[0]] + rest;
    if PictureIn(codec, nals, p) {
      assert PictureFrom(codec, nals, p, 0);
      forall n | n in rest
        ensures ValidHeader(codec, n) && (SliceHeader(codec, n) ==> GoesOn(codec, n, nals[0], p))
      {
        var i :| 0 <= i < |rest| && rest[i] == n;
        assert nals[i + 1] == n && n in nals;
      }
    }
    if Marked(codec, nals[0], true) && Shows(codec, nals[0], p)
       && forall n | n in rest :: ValidHeader(codec, n) && (SliceHeader(codec, n) ==> GoesOn(codec, n, nals[0], p)) {
      assert PictureFrom(codec, nals, p, 0);
    }
  }

  /** The inspection accepts exactly the unit lists whose bytes carry one picture, and reports what its slices show. */
  lemma {:induction false} InspectExactly(codec: Codec, nals: seq<Nal>, p: PictureInfo)
    ensures Inspect(codec, nals, None) == Ok(p) <==> PictureIn(codec, nals, p)
    decreases |nals|
  {
    hide NalType, IsVcl, ValidHeader, SliceHeader, Marked, Shows, GoesOn, PictureOf, FirstSlice;
    if nals != [] {
      var n := nals[0];
      HeaderExactly(codec, n);
      if ValidHeader(codec, n) && !SliceHeader(codec, n) {
        hide PictureIn;
        LaterPicture(codec, nals, p);
        InspectExactly(codec, nals[1..], p);
      } else if ValidHeader(codec, n) {
        hide PictureIn;
        FirstPicture(codec, nals, p);
        FirstUnit(codec, nals);
        RestExactly(codec, nals[1..], n, PictureOfValid(codec, n));
      }
    }
  }

  lemma FirstUnit(codec: Codec, nals: seq<Nal>)
    requires nals != [] && NalType(codec, nals[0]).Ok? && IsVcl(codec, NalType(codec, nals[0]).value)
    ensures var kind := NalType(codec, nals[0]).value;
            Inspect(codec, nals, None).Ok? ==>
              FirstSlice(codec, nals[0]) == Ok(true)
    ensures var kind := NalType(codec, nals[0]).value;
            FirstSlice(codec, nals[0]) == Ok(true) ==>
              Inspect(codec, nals, None) == Inspect(codec, nals[1..], Some((PictureOfValid(codec, nals[0]), kind)))
  {
    hide NalType, IsVcl, PictureOf, FirstSlice;
  }
}
