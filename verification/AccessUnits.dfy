/** Framing and bounded inspection of one coded picture. */
module AccessUnits {
  import opened Results
  import opened Rbsp

  const MAX_ACCESS_UNIT_BYTES: nat := 2 * 1024 * 1024
  const MAX_NALS: nat := 256

  datatype Codec = Avc | Hevc

  datatype NalLengthSize = One | Two | Four {
    function Bytes(): nat {
      match this
      case One => 1
      case Two => 2
      case Four => 4
    }
  }

  datatype NalFormat = AnnexB | LengthPrefixed(size: NalLengthSize)

  type Nal = seq<byte>

  // ----- Annex-B framing, section B.1.1 of ITU-T H.264 -----

  function ZeroBytes(n: nat): (s: seq<byte>)
    ensures |s| == n && forall i | 0 <= i < n :: s[i] == 0
  {
    seq(n, _ => 0)
  }

  /** NAL units after a first start code prefix: n 0* (00 00 01 n 0*)*, with zs the numbers of trailing zeros. */
  function Units(ns: seq<Nal>, zs: seq<nat>): seq<byte>
    requires |ns| == |zs| > 0
  {
    ns[0] + ZeroBytes(zs[0]) + if |ns| == 1 then [] else [0, 0, 1] + Units(ns[1..], zs[1..])
  }

  /** d is 0* (00 00 01 n 0*)+ with the units ns. */
  ghost predicate IsByteStream(d: seq<byte>, ns: seq<Nal>) {
    && ns != [] && (forall n | n in ns :: AnnexBSafe(n))
    && exists z: nat, zs: seq<nat> | |zs| == |ns| :: d == ZeroBytes(z) + ([0, 0, 1] + Units(ns, zs))
  }

  predicate CodeAt(d: seq<byte>, i: nat) {
    i + 3 <= |d| && d[i] == 0 && d[i + 1] == 0 && d[i + 2] == 1
  }

  /** Index of the first start code prefix at or after p, or the end of d. */
  function FirstCode(d: seq<byte>, p: nat): (i: nat)
    requires p <= |d|
    ensures p <= i <= |d|
    ensures i < |d| ==> CodeAt(d, i)
    ensures forall j {:trigger CodeAt(d, j)} | p <= j < i :: !CodeAt(d, j)
    decreases |d| - p
  {
    if p == |d| || CodeAt(d, p) then p else FirstCode(d, p + 1)
  }

  /** The next start code at or after from, with the zero_byte before it if there is one: its start and its end. */
  function StartCode(d: seq<byte>, from: nat): (code: Option<(nat, nat)>)
    requires from <= |d|
    ensures code.Some? ==> from <= code.value.0 < code.value.1 <= |d|
  {
    var i := FirstCode(d, from);
    if i == |d| then None
    else Some((if i > from && d[i - 1] == 0 then i - 1 else i, i + 3))
  }

  function Trim(s: seq<byte>): seq<byte> {
    if s != [] && s[|s| - 1] == 0 then Trim(s[..|s| - 1]) else s
  }

  predicate AllZero(s: seq<byte>) {
    forall i | 0 <= i < |s| :: s[i] == 0
  }

  /** The NAL units whose first payload starts at p, when count have been split off already. */
  function AnnexBFrom(d: seq<byte>, p: nat, count: nat): Result<seq<Nal>, BitstreamError>
    requires p <= |d|
    decreases |d| - p
  {
    var next := StartCode(d, p);
    var nal := Trim(d[p..if next.Some? then next.value.0 else |d|]);
    if nal == [] then Err(Malformed)
    else if count == MAX_NALS then Err(Limit)
    else if next.None? then Ok([nal])
    else
      var rest :- AnnexBFrom(d, next.value.1, count + 1);
      Ok([nal] + rest)
  }

  // ----- Length-prefixed framing -----

  /** A big-endian unsigned integer. */
  function BigEndian(s: seq<byte>): nat {
    if s == [] then 0 else 256 * BigEndian(s[..|s| - 1]) + s[|s| - 1]
  }

  /** The four big-endian bytes of a 32-bit length. */
  function Be32(n: nat): (s: seq<byte>)
    ensures |s| == 4
  {
    [n / 0x100_0000 % 256, n / 0x1_0000 % 256, n / 0x100 % 256, n % 256]
  }

  function PrefixedFrom(size: nat, rest: seq<byte>, count: nat): Result<seq<Nal>, BitstreamError>
    requires size > 0
    decreases |rest|
  {
    if rest == [] then Ok([])
    else if |rest| < size || |rest| - size < BigEndian(rest[..size]) then Err(Truncated)
    else
      var end := size + BigEndian(rest[..size]);
      if end == size then Err(Malformed)
      else if count == MAX_NALS then Err(Limit)
      else
        var others :- PrefixedFrom(size, rest[end..], count + 1);
        Ok([rest[size..end]] + others)
  }

  // ----- The splitter -----

  function AnnexBUnits(d: seq<byte>): Result<seq<Nal>, BitstreamError> {
    var first := StartCode(d, 0);
    if first.None? || !AllZero(d[..first.value.0]) then Err(Malformed)
    else AnnexBFrom(d, first.value.1, 0)
  }

  function Split(format: NalFormat, d: seq<byte>): Result<seq<Nal>, BitstreamError> {
    if d == [] then Err(Malformed)
    else if |d| > MAX_ACCESS_UNIT_BYTES then Err(Limit)
    else
      match format
      case LengthPrefixed(size) => PrefixedFrom(size.Bytes(), d, 0)
      case AnnexB => AnnexBUnits(d)
  }

  method PushNal(nals: seq<Nal>, nal: Nal) returns (r: Result<seq<Nal>, BitstreamError>)
    ensures r == if nal == [] then Err(Malformed) else if |nals| == MAX_NALS then Err(Limit) else Ok(nals + [nal])
  {
    if nal == [] {
      return Err(Malformed);
    }
    if |nals| == MAX_NALS {
      return Err(Limit);
    }
    return Ok(nals + [nal]);
  }

  /** done, followed by what a splitter yields. */
  function Appended(done: seq<Nal>, r: Result<seq<Nal>, BitstreamError>): Result<seq<Nal>, BitstreamError> {
    if r.Ok? then Ok(done + r.value) else r
  }

  lemma AppendedAssociates(done: seq<Nal>, nal: Nal, r: Result<seq<Nal>, BitstreamError>)
    ensures r.Ok? ==> Appended(done, Ok([nal] + r.value)) == Appended(done + [nal], r)
  {
    if r.Ok? {
      assert done + ([nal] + r.value) == done + [nal] + r.value;
    }
  }

  lemma AppendedToNothing(r: Result<seq<Nal>, BitstreamError>)
    ensures Appended([], r) == r
  {
    if r.Ok? {
      assert [] + r.value == r.value;
    }
  }

  method SplitPrefixed(size: NalLengthSize, data: seq<byte>) returns (r: Result<seq<Nal>, BitstreamError>)
    ensures r == PrefixedFrom(size.Bytes(), data, 0)
  {
    hide BigEndian;
    var nals: seq<Nal> := [];
    var remaining := data;
    AppendedToNothing(PrefixedFrom(size.Bytes(), data, 0));
    while remaining != []
      invariant PrefixedFrom(size.Bytes(), data, 0) ==
                Appended(nals, PrefixedFrom(size.Bytes(), remaining, |nals|))
      decreases |remaining|
    {
      ghost var was, done := remaining, nals;
      if |remaining| < size.Bytes() {
        return Err(Truncated);
      }
      var length := BigEndian(remaining[..size.Bytes()]);
      remaining := remaining[size.Bytes()..];
      if |remaining| < length {
        return Err(Truncated);
      }
      var nal := remaining[..length];
      nals :- PushNal(nals, nal);
      remaining := remaining[length..];
      assert nal == was[size.Bytes()..size.Bytes() + length] && remaining == was[size.Bytes() + length..];
      AppendedAssociates(done, nal, PrefixedFrom(size.Bytes(), remaining, |nals|));
    }
    assert nals + [] == nals;
    return Ok(nals);
  }

  method SplitAnnexB(data: seq<byte>) returns (r: Result<seq<Nal>, BitstreamError>)
    ensures r == AnnexBUnits(data)
  {
    hide StartCode, AllZero;
    var first := StartCode(data, 0);
    if first.None? || !AllZero(data[..first.value.0]) {
      return Err(Malformed);
    }
    var nals: seq<Nal> := [];
    var payload := first.value.1;
    AppendedToNothing(AnnexBFrom(data, payload, 0));
    while true
      invariant payload <= |data|
      invariant AnnexBUnits(data) == Appended(nals, AnnexBFrom(data, payload, |nals|))
      decreases |data| - payload
    {
      var next := StartCode(data, payload);
      var nal := data[payload..if next.Some? then next.value.0 else |data|];
      ghost var trimmed := Trim(nal);
      while nal != [] && nal[|nal| - 1] == 0
        invariant Trim(nal) == trimmed
      {
        nal := nal[..|nal| - 1];
      }
      ghost var done := nals;
      nals :- PushNal(nals, nal);
      if next.None? {
        return Ok(nals);
      }
      payload := next.value.1;
      AppendedAssociates(done, nal, AnnexBFrom(data, payload, |nals|));
    }
  }

  method SplitNals(format: NalFormat, data: seq<byte>) returns (r: Result<seq<Nal>, BitstreamError>)
    ensures r == Split(format, data)
  {
    if data == [] {
      return Err(Malformed);
    }
    if |data| > MAX_ACCESS_UNIT_BYTES {
      return Err(Limit);
    }
    match format
    case LengthPrefixed(size) => r := SplitPrefixed(size, data);
    case AnnexB => r := SplitAnnexB(data);
  }

  // ----- What the Annex-B splitter accepts -----

  lemma {:induction false} TrimKeeps(s: seq<byte>)
    ensures var t := Trim(s);
            && |t| <= |s| && s == t + ZeroBytes(|s| - |t|) && (t != [] ==> t[|t| - 1] != 0)
  {
    if s != [] && s[|s| - 1] == 0 {
      TrimKeeps(s[..|s| - 1]);
    }
  }

  lemma {:induction false} TrimDropsZeros(s: seq<byte>, z: nat)
    requires s != [] && s[|s| - 1] != 0
    ensures Trim(s + ZeroBytes(z)) == s
  {
    if z > 0 {
      var t := s + ZeroBytes(z);
      TrimDropsZeros(s, z - 1);
      assert t[..|t| - 1] == s + ZeroBytes(z - 1);
    } else {
      assert s + ZeroBytes(0) == s;
    }
  }

  /** The zero_byte of a start code is trimmed off with the trailing zeros before it. */
  lemma TrimAtStart(d: seq<byte>, p: nat)
    requires p <= |d|
    ensures var next := StartCode(d, p); var i := FirstCode(d, p);
            Trim(d[p..if next.Some? then next.value.0 else |d|]) == Trim(d[p..i])
  {
    var next, i := StartCode(d, p), FirstCode(d, p);
    if next.Some? && next.value.0 < i {
      assert d[p..i][..i - p - 1] == d[p..i - 1];
    }
  }

  lemma FirstCodeIs(d: seq<byte>, p: nat, i: nat)
    requires p <= i <= |d| && (i < |d| ==> CodeAt(d, i))
    requires forall j {:trigger CodeAt(d, j)} | p <= j < i :: !CodeAt(d, j)
    ensures FirstCode(d, p) == i
  {
  }

  /** No start code begins inside a safe unit or the zeros after it. */
  lemma SafeUnitHoldsNoCode(d: seq<byte>, p: nat, n: Nal, z: nat, i: nat)
    requires AnnexBSafe(n) && i == p + |n| + z <= |d| && d[p..i] == n + ZeroBytes(z)
    requires i == |d| || CodeAt(d, i)
    ensures FirstCode(d, p) == i
  {
    forall j {:trigger CodeAt(d, j)} | p <= j < i
      ensures !CodeAt(d, j)
    {
      if j + 2 < i {
        assert d[j] == d[p..i][j - p] && d[j + 1] == d[p..i][j + 1 - p] && d[j + 2] == d[p..i][j + 2 - p];
        assert j + 2 - p < |n| ==> !(n[j - p] == 0 && n[j + 1 - p] == 0 && n[j + 2 - p] == 1);
      }
    }
    FirstCodeIs(d, p, i);
  }

  /** Where the first of some framed units stands, and what follows it. */
  lemma UnitsLayout(d: seq<byte>, p: nat, ns: seq<Nal>, zs: seq<nat>)
    requires p <= |d| && |ns| == |zs| > 0 && d[p..] == Units(ns, zs)
    ensures var i := p + |ns[0]| + zs[0];
            && i <= |d| && d[p..i] == ns[0] + ZeroBytes(zs[0])
            && if |ns| == 1 then i == |d| else CodeAt(d, i) && d[i + 3..] == Units(ns[1..], zs[1..])
  {
    var head := ns[0] + ZeroBytes(zs[0]);
    var i := p + |head|;
    UnitsUnfold(ns, zs);
    hide Units, ZeroBytes, CodeAt;
    if |ns| == 1 {
      Joined(d, p, head, []);
    } else {
      var rest := Units(ns[1..], zs[1..]);
      Joined(d, p, head, [0, 0, 1] + rest);
      Joined(d, i, [0, 0, 1], rest);
      CodeStandsAt(d, i);
    }
  }

  lemma CodeStandsAt(d: seq<byte>, i: nat)
    requires i + 3 <= |d| && d[i..i + 3] == [0, 0, 1]
    ensures CodeAt(d, i)
  {
    assert d[i] == d[i..i + 3][0] && d[i + 1] == d[i..i + 3][1] && d[i + 2] == d[i..i + 3][2];
  }

  lemma UnitsUnfold(ns: seq<Nal>, zs: seq<nat>)
    requires |ns| == |zs| > 0
    ensures Units(ns, zs) == (ns[0] + ZeroBytes(zs[0])) + if |ns| == 1 then [] else [0, 0, 1] + Units(ns[1..], zs[1..])
  {
    if |ns| > 1 {
      assert Units(ns, zs) == ns[0] + ZeroBytes(zs[0]) + ([0, 0, 1] + Units(ns[1..], zs[1..]));
    }
  }

  lemma Joined(d: seq<byte>, p: nat, x: seq<byte>, y: seq<byte>)
    requires p <= |d| && d[p..] == x + y
    ensures p + |x| <= |d| && d[p..p + |x|] == x && d[p + |x|..] == y
  {
    assert d[p..p + |x|] == d[p..][..|x|];
    assert d[p + |x|..] == d[p..][|x|..];
  }

  /** Completeness: framed safe units are split back, up to the count limit. */
  lemma {:induction false} FramedUnitsSplit(d: seq<byte>, p: nat, ns: seq<Nal>, zs: seq<nat>, count: nat)
    requires p <= |d| && |ns| == |zs| > 0 && d[p..] == Units(ns, zs)
    requires forall n | n in ns :: AnnexBSafe(n)
    requires count + |ns| <= MAX_NALS
    ensures AnnexBFrom(d, p, count) == Ok(ns)
    decreases |ns|
  {
    hide Trim, AnnexBSafe, Units, FirstCode;
    var n, z := ns[0], zs[0];
    var i := p + |n| + z;
    UnitsLayout(d, p, ns, zs);
    SafeUnitHoldsNoCode(d, p, n, z, i);
    TrimAtStart(d, p);
    SafeEnds(n);
    TrimDropsZeros(n, z);
    assert ns == [n] + ns[1..];
    if |ns| > 1 {
      FramedUnitsSplit(d, i + 3, ns[1..], zs[1..], count + 1);
      var next := StartCode(d, p);
      assert next.Some? && next.value.1 == i + 3;
      assert Trim(d[p..next.value.0]) == n;
      assert AnnexBFrom(d, next.value.1, count + 1) == Ok(ns[1..]);
    } else {
      assert StartCode(d, p).None? && Trim(d[p..|d|]) == n && ns == [n];
    }
  }

  lemma SafeEnds(n: Nal)
    requires AnnexBSafe(n)
    ensures n != [] && n[|n| - 1] != 0
  {
  }

  /** Soundness: what is split off was framed, and every unit is safe. */
  lemma {:induction false} SplitUnitsAreFramed(d: seq<byte>, p: nat, count: nat) returns (zs: seq<nat>)
    requires p <= |d| && AnnexBFrom(d, p, count).Ok? && count <= MAX_NALS
    ensures var ns := AnnexBFrom(d, p, count).value;
            && |ns| == |zs| > 0 && count + |ns| <= MAX_NALS
            && d[p..] == Units(ns, zs)
            && forall n | n in ns :: AnnexBSafe(n)
    decreases |d| - p
  {
    hide Trim, AnnexBSafe, Units, FirstCode;
    var i := FirstCode(d, p);
    var s := d[p..i];
    var n := Trim(s);
    TrimAtStart(d, p);
    TrimKeeps(s);
    TrimmedIsSafe(d, p);
    var z := |s| - |n|;
    var ns := AnnexBFrom(d, p, count).value;
    if i == |d| {
      zs := [z];
      UnitsUnfold(ns, zs);
      assert d[p..] == s;
    } else {
      var rest := SplitUnitsAreFramed(d, i + 3, count + 1);
      zs := [z] + rest;
      assert ns[1..] == AnnexBFrom(d, i + 3, count + 1).value && zs[1..] == rest;
      UnitsUnfold(ns, zs);
      AroundCode(d, p, i);
    }
  }

  lemma AroundCode(d: seq<byte>, p: nat, i: nat)
    requires p <= i && CodeAt(d, i)
    ensures d[p..] == d[p..i] + ([0, 0, 1] + d[i + 3..])
  {
    assert d[i..i + 3] == [0, 0, 1];
    assert d[p..] == d[p..i] + (d[i..i + 3] + d[i + 3..]);
  }

  lemma TrimmedIsSafe(d: seq<byte>, p: nat)
    requires p <= |d| && Trim(d[p..FirstCode(d, p)]) != []
    ensures AnnexBSafe(Trim(d[p..FirstCode(d, p)]))
  {
    var i := FirstCode(d, p);
    var n := Trim(d[p..i]);
    hide Trim, FirstCode;
    TrimKeeps(d[p..i]);
    forall k | 0 <= k < |n| - 2
      ensures !(n[k] == 0 && n[k + 1] == 0 && n[k + 2] == 1)
    {
      assert n[k] == d[p + k] && n[k + 1] == d[p + k + 1] && n[k + 2] == d[p + k + 2];
      assert !CodeAt(d, p + k);
    }
  }

  /**
   * The splitter accepts exactly the byte streams of section B.1.1 whose units are non-empty, free of start codes
   * and do not end in zero, within the two limits, and yields their units.
   */
  lemma AnnexBSplitsExactly(d: seq<byte>, ns: seq<Nal>)
    ensures Split(AnnexB, d) == Ok(ns)
            <==> |d| <= MAX_ACCESS_UNIT_BYTES && |ns| <= MAX_NALS && IsByteStream(d, ns)
  {
    if Split(AnnexB, d) == Ok(ns) {
      SplitIsByteStream(d);
    }
    if |d| <= MAX_ACCESS_UNIT_BYTES && |ns| <= MAX_NALS && IsByteStream(d, ns) {
      ByteStreamSplits(d, ns);
    }
  }

  lemma SplitIsByteStream(d: seq<byte>)
    requires AnnexBUnits(d).Ok?
    ensures |AnnexBUnits(d).value| <= MAX_NALS && IsByteStream(d, AnnexBUnits(d).value)
  {
    hide AnnexBSafe, Units, FirstCode, AnnexBFrom;
    var ns := AnnexBUnits(d).value;
    var i := FirstCode(d, 0);
    var zs := SplitUnitsAreFramed(d, i + 3, 0);
    var start := StartCode(d, 0).value.0;
    forall k | 0 <= k < i
      ensures d[k] == 0
    {
      assert k < start ==> d[k] == d[..start][k];
    }
    JoinAtCode(d, i);
    assert d == ZeroBytes(i) + ([0, 0, 1] + Units(ns, zs));
  }

  lemma JoinAtCode(d: seq<byte>, i: nat)
    requires i < |d| && CodeAt(d, i) && forall k | 0 <= k < i :: d[k] == 0
    ensures d == ZeroBytes(i) + ([0, 0, 1] + d[i + 3..])
  {
    assert d[..i] == ZeroBytes(i) && d[i..i + 3] == [0, 0, 1];
    assert d == d[..i] + (d[i..i + 3] + d[i + 3..]);
  }

  lemma LeadingZeros(d: seq<byte>, z: nat, rest: seq<byte>)
    requires d == ZeroBytes(z) + ([0, 0, 1] + rest)
    ensures FirstCode(d, 0) == z && d[z + 3..] == rest && forall k | 0 <= k < z :: d[k] == 0
  {
    assert d[z] == 0 && d[z + 1] == 0 && d[z + 2] == 1;
    forall j {:trigger CodeAt(d, j)} | 0 <= j < z
      ensures !CodeAt(d, j)
    {
      assert j + 2 < z ==> d[j + 2] == 0;
    }
    FirstCodeIs(d, 0, z);
  }

  lemma ByteStreamSplits(d: seq<byte>, ns: seq<Nal>)
    requires IsByteStream(d, ns) && |ns| <= MAX_NALS
    ensures AnnexBUnits(d) == Ok(ns) && d != []
  {
    hide AnnexBSafe, Units, FirstCode, ZeroBytes, AnnexBFrom;
    var z: nat, zs: seq<nat> :| |zs| == |ns| && d == ZeroBytes(z) + ([0, 0, 1] + Units(ns, zs));
    LeadingZeros(d, z, Units(ns, zs));
    var start := StartCode(d, 0).value.0;
    forall k | 0 <= k < start
      ensures d[..start][k] == 0
    {
    }
    FramedUnitsSplit(d, z + 3, ns, zs, 0);
  }

  /** A byte stream has only one reading. */
  lemma {:induction false} UnitsAreUnique(d: seq<byte>, p: nat, ns: seq<Nal>, zs: seq<nat>, ms: seq<Nal>, ys: seq<nat>)
    requires p <= |d| && |ns| == |zs| > 0 && |ms| == |ys| > 0
    requires (forall n | n in ns :: AnnexBSafe(n)) && (forall m | m in ms :: AnnexBSafe(m))
    requires d[p..] == Units(ns, zs) == Units(ms, ys)
    ensures ns == ms
    decreases |ns|
  {
    hide Trim, AnnexBSafe, Units, FirstCode;
    var i, k := p + |ns[0]| + zs[0], p + |ms[0]| + ys[0];
    UnitsLayout(d, p, ns, zs);
    UnitsLayout(d, p, ms, ys);
    SafeUnitHoldsNoCode(d, p, ns[0], zs[0], i);
    SafeUnitHoldsNoCode(d, p, ms[0], ys[0], k);
    SafeEnds(ns[0]);
    SafeEnds(ms[0]);
    TrimDropsZeros(ns[0], zs[0]);
    TrimDropsZeros(ms[0], ys[0]);
    assert ns[0] == ms[0] && ns == [ns[0]] + ns[1..] && ms == [ms[0]] + ms[1..];
    if |ns| > 1 && |ms| > 1 {
      UnitsAreUnique(d, i + 3, ns[1..], zs[1..], ms[1..], ys[1..]);
    }
  }

  lemma ByteStreamIsUnique(d: seq<byte>, ns: seq<Nal>, ms: seq<Nal>)
    requires IsByteStream(d, ns) && IsByteStream(d, ms)
    ensures ns == ms
  {
    hide AnnexBSafe, Units;
    var z: nat, zs: seq<nat> :| |zs| == |ns| && d == ZeroBytes(z) + ([0, 0, 1] + Units(ns, zs));
    var y: nat, ys: seq<nat> :| |ys| == |ms| && d == ZeroBytes(y) + ([0, 0, 1] + Units(ms, ys));
    assert d[z + 2] == 1 && d[y + 2] == 1;
    assert z == y;
    assert d[z + 3..] == Units(ns, zs) == Units(ms, ys);
    UnitsAreUnique(d, z + 3, ns, zs, ms, ys);
  }

  // ----- The writer -----

  function Written(ns: seq<Nal>, annexB: bool): seq<byte> {
    if ns == [] then []
    else (if annexB then [0, 0, 0, 1] else Be32(|ns[0]|)) + ns[0] + Written(ns[1..], annexB)
  }

  function Write(ns: seq<Nal>, annexB: bool): Result<seq<byte>, BitstreamError> {
    if |Written(ns, annexB)| > MAX_ACCESS_UNIT_BYTES then Err(Limit) else Ok(Written(ns, annexB))
  }

  lemma {:induction false} WrittenMore(ns: seq<Nal>, n: Nal, annexB: bool)
    ensures Written(ns + [n], annexB) ==
            Written(ns, annexB) + ((if annexB then [0, 0, 0, 1] else Be32(|n|)) + n)
  {
    hide Be32;
    if ns == [] {
      assert ns + [n] == [n] && [n][1..] == [];
    } else {
      WrittenMore(ns[1..], n, annexB);
      assert (ns + [n])[1..] == ns[1..] + [n];
    }
  }

  method WriteNals(nals: seq<Nal>, annexB: bool) returns (r: Result<seq<byte>, BitstreamError>)
    ensures r == Write(nals, annexB)
  {
    var length := 0;
    for i := 0 to |nals|
      invariant length == |Written(nals[..i], annexB)|
    {
      assert nals[..i + 1] == nals[..i] + [nals[i]];
      WrittenMore(nals[..i], nals[i], annexB);
      length := length + 4 + |nals[i]|;
    }
    assert nals[..|nals|] == nals;
    if length > MAX_ACCESS_UNIT_BYTES {
      return Err(Limit);
    }
    var out := [];
    for i := 0 to |nals|
      invariant out == Written(nals[..i], annexB)
    {
      assert nals[..i + 1] == nals[..i] + [nals[i]];
      WrittenMore(nals[..i], nals[i], annexB);
      out := out + ((if annexB then [0, 0, 0, 1] else Be32(|nals[i]|)) + nals[i]);
    }
    return Ok(out);
  }

  // ----- Round trips -----

  /** The writer's Annex-B form: one zero_byte before every start code. */
  lemma {:induction false} WrittenUnits(ns: seq<Nal>) returns (zs: seq<nat>)
    requires ns != []
    ensures |zs| == |ns| && Written(ns, true) == [0, 0, 0, 1] + Units(ns, zs)
  {
    if |ns| == 1 {
      zs := [0];
      assert ns[1..] == [];
    } else {
      var rest := WrittenUnits(ns[1..]);
      zs := [1] + rest;
      assert zs[1..] == rest && ZeroBytes(1) == [0];
      assert [0] + ([0, 0, 1] + Units(ns[1..], rest)) == [0, 0, 0, 1] + Units(ns[1..], rest);
    }
  }

  lemma WrittenIsByteStream(ns: seq<Nal>)
    requires ns != [] && forall n | n in ns :: AnnexBSafe(n)
    ensures IsByteStream(Written(ns, true), ns)
  {
    hide AnnexBSafe, Units;
    var zs := WrittenUnits(ns);
    assert Written(ns, true) == ZeroBytes(1) + ([0, 0, 1] + Units(ns, zs));
  }

  /** Writing safe units in Annex-B form and splitting gives them back, limits permitting. */
  lemma AnnexBRoundTrip(ns: seq<Nal>)
    requires 0 < |ns| <= MAX_NALS && (forall n | n in ns :: AnnexBSafe(n)) && Write(ns, true).Ok?
    ensures Split(AnnexB, Write(ns, true).value) == Ok(ns)
  {
    WrittenIsByteStream(ns);
    AnnexBSplitsExactly(Write(ns, true).value, ns);
  }

  lemma FourBytes(s: seq<byte>)
    requires |s| == 4
    ensures BigEndian(s) == 0x100_0000 * (s[0] as int) + 0x1_0000 * (s[1] as int) + 0x100 * (s[2] as int) + s[3] as int
  {
    assert s[..3][..2] == s[..2] && s[..2][..1] == s[..1] && s[..1][..0] == [];
    assert BigEndian(s[..1]) == s[0] as int;
    assert BigEndian(s[..2]) == 0x100 * (s[0] as int) + s[1] as int;
  }

  lemma Be32Inverts(n: nat)
    requires n < 0x1_0000_0000
    ensures BigEndian(Be32(n)) == n
  {
    hide BigEndian;
    FourBytes(Be32(n));
    FourDigits(n);
  }

  lemma FourDigits(n: nat)
    requires n < 0x1_0000_0000
    ensures n == 0x100_0000 * (n / 0x100_0000 % 256) + 0x1_0000 * (n / 0x1_0000 % 256) + 0x100 * (n / 0x100 % 256) + n % 256
  {
    var a := n / 0x100;
    var b := a / 0x100;
    var c := b / 0x100;
    assert n / 0x1_0000 == b && n / 0x100_0000 == c;
    assert n == 0x100 * a + n % 256 && a == 0x100 * b + a % 256 && b == 0x100 * c + b % 256 && c < 256;
  }

  lemma BigEndianInverts(s: seq<byte>)
    requires |s| == 4
    ensures BigEndian(s) < 0x1_0000_0000 && Be32(BigEndian(s)) == s
  {
    hide BigEndian;
    FourBytes(s);
    Digits(s[0] as int, s[1] as int, s[2] as int, s[3] as int);
  }

  lemma Digits(a: int, b: int, c: int, d: int)
    requires 0 <= a < 256 && 0 <= b < 256 && 0 <= c < 256 && 0 <= d < 256
    ensures var n := 0x100_0000 * a + 0x1_0000 * b + 0x100 * c + d;
            && n / 0x100_0000 % 256 == a && n / 0x1_0000 % 256 == b && n / 0x100 % 256 == c && n % 256 == d
  {
    var n := 0x100_0000 * a + 0x1_0000 * b + 0x100 * c + d;
    assert n / 0x100 == 0x1_0000 * a + 0x100 * b + c;
    assert n / 0x1_0000 == 0x100 * a + b;
    assert n / 0x100_0000 == a;
  }

  /** The four-byte form has exactly one spelling: splitting and writing are inverse, limits permitting. */
  lemma {:induction false} PrefixedSplitsExactly(d: seq<byte>, ns: seq<Nal>, count: nat)
    requires count <= MAX_NALS
    ensures PrefixedFrom(4, d, count) == Ok(ns)
            <==> && d == Written(ns, false) && count + |ns| <= MAX_NALS
                 && forall n | n in ns :: n != [] && |n| < 0x1_0000_0000
    decreases |d|
  {
    if PrefixedFrom(4, d, count).Ok? {
      PrefixedIsWritten(d, count);
    }
    if d == Written(ns, false) && count + |ns| <= MAX_NALS && forall n | n in ns :: n != [] && |n| < 0x1_0000_0000 {
      WrittenSplits(ns, count);
    }
  }

  lemma {:induction false} PrefixedIsWritten(d: seq<byte>, count: nat)
    requires count <= MAX_NALS && PrefixedFrom(4, d, count).Ok?
    ensures var ns := PrefixedFrom(4, d, count).value;
            && d == Written(ns, false) && count + |ns| <= MAX_NALS
            && forall n | n in ns :: n != [] && |n| < 0x1_0000_0000
    decreases |d|
  {
    hide BigEndian, Be32;
    if d != [] {
      var end := 4 + BigEndian(d[..4]);
      PrefixedIsWritten(d[end..], count + 1);
      BigEndianInverts(d[..4]);
      var ns := PrefixedFrom(4, d, count).value;
      assert ns[0] == d[4..end] && ns[1..] == PrefixedFrom(4, d[end..], count + 1).value;
      assert d == d[..4] + d[4..end] + d[end..];
    }
  }

  lemma {:induction false} WrittenSplits(ns: seq<Nal>, count: nat)
    requires count + |ns| <= MAX_NALS && forall n | n in ns :: n != [] && |n| < 0x1_0000_0000
    ensures PrefixedFrom(4, Written(ns, false), count) == Ok(ns)
    decreases |ns|
  {
    hide BigEndian, Be32;
    if ns != [] {
      var d, n := Written(ns, false), ns[0];
      var end := 4 + |n|;
      Be32Inverts(|n|);
      assert n in ns;
      assert d == Be32(|n|) + n + Written(ns[1..], false);
      assert d[..4] == Be32(|n|) && d[4..end] == n && d[end..] == Written(ns[1..], false);
      WrittenSplits(ns[1..], count + 1);
      assert ns == [n] + ns[1..];
    }
  }

  /** The big-endian bytes of a length. */
  function LengthBytes(size: nat, n: nat): (s: seq<byte>)
    ensures |s| == size
  {
    if size == 0 then [] else LengthBytes(size - 1, n / 256) + [n % 256]
  }

  function LengthLimit(size: nat): nat {
    if size == 0 then 1 else 256 * LengthLimit(size - 1)
  }

  /** Units behind lengths of this many bytes. */
  function WrittenWith(size: nat, ns: seq<Nal>): seq<byte> {
    if ns == [] then [] else LengthBytes(size, |ns[0]|) + ns[0] + WrittenWith(size, ns[1..])
  }

  lemma {:induction false} LengthIsRead(size: nat, n: nat)
    requires n < LengthLimit(size)
    ensures BigEndian(LengthBytes(size, n)) == n
  {
    if size > 0 {
      LengthIsRead(size - 1, n / 256);
      assert LengthBytes(size, n)[..size - 1] == LengthBytes(size - 1, n / 256);
    }
  }

  lemma {:induction false} ReadIsLength(s: seq<byte>)
    ensures BigEndian(s) < LengthLimit(|s|) && LengthBytes(|s|, BigEndian(s)) == s
  {
    if s != [] {
      ReadIsLength(s[..|s| - 1]);
      assert BigEndian(s) / 256 == BigEndian(s[..|s| - 1]) && BigEndian(s) % 256 == s[|s| - 1] as int;
    }
  }

  /** Whatever the size of the lengths, splitting succeeds exactly on units written with them, within the count. */
  lemma {:induction false} SizedSplitsExactly(size: nat, d: seq<byte>, ns: seq<Nal>, count: nat)
    requires size > 0 && count <= MAX_NALS
    ensures PrefixedFrom(size, d, count) == Ok(ns)
            <==> && d == WrittenWith(size, ns) && count + |ns| <= 256
                 && forall n | n in ns :: 0 < |n| < LengthLimit(size)
    decreases |d| + |ns|
  {
    if PrefixedFrom(size, d, count) == Ok(ns) {
      SizedIsWritten(size, d, count);
    }
    if d == WrittenWith(size, ns) && count + |ns| <= 256 && forall n | n in ns :: 0 < |n| < LengthLimit(size) {
      WrittenIsSplit(size, ns, count);
    }
  }

  lemma {:induction false} SizedIsWritten(size: nat, d: seq<byte>, count: nat)
    requires size > 0 && count <= MAX_NALS && PrefixedFrom(size, d, count).Ok?
    ensures var ns := PrefixedFrom(size, d, count).value;
            && d == WrittenWith(size, ns) && count + |ns| <= MAX_NALS
            && forall n | n in ns :: 0 < |n| < LengthLimit(size)
    decreases |d|
  {
    hide BigEndian, LengthBytes, LengthLimit;
    if d != [] {
      var end := size + BigEndian(d[..size]);
      SizedIsWritten(size, d[end..], count + 1);
      ReadIsLength(d[..size]);
      var ns := PrefixedFrom(size, d, count).value;
      assert ns[0] == d[size..end] && ns[1..] == PrefixedFrom(size, d[end..], count + 1).value;
      assert d == d[..size] + d[size..end] + d[end..];
    }
  }

  /** One unit read from behind its length. */
  lemma PrefixedStep(size: nat, head: seq<byte>, n: Nal, rest: seq<byte>, count: nat)
    requires |head| == size > 0 && BigEndian(head) == |n| > 0
    ensures var others := PrefixedFrom(size, rest, count + 1);
            PrefixedFrom(size, head + n + rest, count) ==
              if count == MAX_NALS then Err(Limit) else if others.Err? then others else Ok([n] + others.value)
  {
    hide BigEndian;
    var d := head + n + rest;
    assert d[..size] == head && d[size..size + |n|] == n && d[size + |n|..] == rest;
  }

  lemma {:induction false} WrittenIsSplit(size: nat, ns: seq<Nal>, count: nat)
    requires size > 0 && count + |ns| <= MAX_NALS && forall n | n in ns :: 0 < |n| < LengthLimit(size)
    ensures PrefixedFrom(size, WrittenWith(size, ns), count) == Ok(ns)
    decreases |ns|
  {
    hide BigEndian, LengthBytes, LengthLimit, PrefixedFrom;
    if ns == [] {
      NothingIsSplit(size, count);
    } else {
      assert ns[0] in ns;
      LengthIsRead(size, |ns[0]|);
      PrefixedStep(size, LengthBytes(size, |ns[0]|), ns[0], WrittenWith(size, ns[1..]), count);
      WrittenIsSplit(size, ns[1..], count + 1);
      assert ns == [ns[0]] + ns[1..];
    }
  }

  lemma NothingIsSplit(size: nat, count: nat)
    requires size > 0
    ensures PrefixedFrom(size, [], count) == Ok([])
  {
  }

  /** Units written with lengths beyond the count are refused by the limit. */
  lemma {:induction false} TooManyLengths(size: nat, ns: seq<Nal>, count: nat)
    requires size > 0 && count <= 256 < count + |ns| && forall n | n in ns :: 0 < |n| < LengthLimit(size)
    ensures PrefixedFrom(size, WrittenWith(size, ns), count) == Err(Limit)
    decreases |ns|
  {
    hide BigEndian, LengthBytes, LengthLimit, PrefixedFrom;
    assert ns[0] in ns;
    LengthIsRead(size, |ns[0]|);
    PrefixedStep(size, LengthBytes(size, |ns[0]|), ns[0], WrittenWith(size, ns[1..]), count);
    if count < 256 {
      TooManyLengths(size, ns[1..], count + 1);
    }
  }

  /** Why units are refused here: cut short, of length 0, or one too many. */
  function RefusalAt(size: nat, rest: seq<byte>): BitstreamError
    requires size > 0
  {
    if |rest| < size || size + BigEndian(rest[..size]) > |rest| then Truncated
    else if BigEndian(rest[..size]) == 0 then Malformed
    else Limit
  }

  /** d is some written units and, where the rest begins, a refusal; only a 257th unit is refused by the limit. */
  ghost predicate RefusedBehind(size: nat, d: seq<byte>, count: nat, ns: seq<Nal>, rest: seq<byte>, error: BitstreamError)
    requires size > 0
  {
    && d == WrittenWith(size, ns) + rest && rest != [] && count + |ns| <= 256
    && (forall n | n in ns :: 0 < |n| < LengthLimit(size))
    && error == RefusalAt(size, rest) && (error == Limit ==> count + |ns| == 256)
  }

  lemma RefusedMore(size: nat, n: Nal, tail: seq<byte>, count: nat, more: seq<Nal>, rest: seq<byte>, error: BitstreamError)
    requires size > 0 && 0 < |n| < LengthLimit(size) && RefusedBehind(size, tail, count + 1, more, rest, error)
    ensures RefusedBehind(size, LengthBytes(size, |n|) + n + tail, count, [n] + more, rest, error)
  {
    hide BigEndian, LengthBytes, LengthLimit, WrittenWith, RefusalAt;
    WrittenWithMore(size, n, more);
    assert LengthBytes(size, |n|) + n + tail == LengthBytes(size, |n|) + n + WrittenWith(size, more) + rest;
  }

  lemma RefusedHere(size: nat, d: seq<byte>, count: nat)
    requires size > 0 && count <= 256 && PrefixedFrom(size, d, count).Err?
    requires |d| < size || size + BigEndian(d[..size]) > |d| || BigEndian(d[..size]) == 0 || count == 256
    ensures RefusedBehind(size, d, count, [], d, PrefixedFrom(size, d, count).error)
  {
    hide BigEndian;
    assert [] + d == d;
  }

  lemma FirstSized(size: nat, d: seq<byte>, count: nat)
    requires size > 0 && count < 256 && |d| >= size && 0 < BigEndian(d[..size]) <= |d| - size
    ensures var end := size + BigEndian(d[..size]);
            && PrefixedFrom(size, d, count).Err? ==> PrefixedFrom(size, d, count) == PrefixedFrom(size, d[end..], count + 1)
    ensures var end := size + BigEndian(d[..size]); var n := d[size..end];
            0 < |n| < LengthLimit(size) && d == LengthBytes(size, |n|) + n + d[end..]
  {
    hide BigEndian, LengthBytes, LengthLimit;
    ReadIsLength(d[..size]);
    var end := size + BigEndian(d[..size]);
    assert d == d[..size] + d[size..end] + d[end..];
  }

  /** Whatever lengths are refused, some units were read before. */
  lemma {:induction false} PrefixedRefused(size: nat, d: seq<byte>, count: nat) returns (ns: seq<Nal>, rest: seq<byte>)
    requires size > 0 && count <= 256 && PrefixedFrom(size, d, count).Err?
    ensures RefusedBehind(size, d, count, ns, rest, PrefixedFrom(size, d, count).error)
    decreases |d|
  {
    hide BigEndian, LengthBytes, LengthLimit, PrefixedFrom, RefusedBehind;
    if |d| >= size && |d| - size >= BigEndian(d[..size]) > 0 && count < 256 {
      FirstSized(size, d, count);
      var end := size + BigEndian(d[..size]);
      var n := d[size..end];
      var more;
      more, rest := PrefixedRefused(size, d[end..], count + 1);
      ns := [n] + more;
      RefusedMore(size, n, d[end..], count, more, rest, PrefixedFrom(size, d, count).error);
    } else {
      ns, rest := [], d;
      RefusedHere(size, d, count);
    }
  }

  lemma WrittenWithMore(size: nat, n: Nal, more: seq<Nal>)
    ensures WrittenWith(size, [n] + more) == LengthBytes(size, |n|) + n + WrittenWith(size, more)
  {
    assert ([n] + more)[1..] == more;
  }

  /** Framed units beyond the count are refused by the limit. */
  lemma {:induction false} TooManyUnits(d: seq<byte>, p: nat, ns: seq<Nal>, zs: seq<nat>, count: nat)
    requires p <= |d| && |ns| == |zs| > 0 && d[p..] == Units(ns, zs)
    requires forall n | n in ns :: AnnexBSafe(n)
    requires count <= 256 < count + |ns|
    ensures AnnexBFrom(d, p, count) == Err(Limit)
    decreases |ns|
  {
    hide Trim, AnnexBSafe, Units, FirstCode;
    var n, z := ns[0], zs[0];
    UnitsLayout(d, p, ns, zs);
    SafeUnitHoldsNoCode(d, p, n, z, p + |n| + z);
    TrimAtStart(d, p);
    SafeEnds(n);
    TrimDropsZeros(n, z);
    if count < 256 {
      TooManyUnits(d, p + |n| + z + 3, ns[1..], zs[1..], count + 1);
    }
  }

  /** Writing non-empty units with four-byte lengths and splitting gives them back, limits permitting. */
  lemma PrefixedRoundTrip(ns: seq<Nal>)
    requires 0 < |ns| <= MAX_NALS && (forall n | n in ns :: n != []) && Write(ns, false).Ok?
    ensures Split(LengthPrefixed(Four), Write(ns, false).value) == Ok(ns)
  {
    forall n | n in ns
      ensures |n| <= |Written(ns, false)|
    {
      UnitFits(ns, n);
    }
    PrefixedSplitsExactly(Written(ns, false), ns, 0);
  }

  lemma {:induction false} UnitFits(ns: seq<Nal>, n: Nal)
    requires n in ns
    ensures |n| <= |Written(ns, false)|
  {
    if n != ns[0] {
      UnitFits(ns[1..], n);
    }
  }

  // ----- Pictures -----

  datatype PictureKind = AvcIdr | HevcIdr | HevcCra | Trailing | HevcRasl | HevcRadl

  datatype PictureInfo = PictureInfo(kind: PictureKind, discardable: bool)

  /** Fixed header validation for the single-layer AVC and HEVC contract. */
  function NalType(codec: Codec, nal: Nal): Result<nat, BitstreamError> {
    if nal == [] then Err(Truncated)
    else if nal[0] >= 128 then Err(Malformed)
    else
      match codec
      case Avc =>
        var kind: nat := nal[0] % 32;
        if !(kind == 1 || 5 <= kind <= 12) then Err(Unsupported)
        else if kind in {5, 7, 8} && nal[0] / 32 % 4 == 0 then Err(Malformed)
        else Ok(kind)
      case Hevc =>
        if |nal| < 2 then Err(Truncated)
        else
          var kind: nat := nal[0] / 2 % 64;
          var temporal: nat := nal[1] % 8;
          if nal[0] % 2 != 0 || nal[1] / 8 != 0 then Err(Unsupported)
          else if temporal == 0 || ((16 <= kind <= 23 || kind in {32, 33, 36, 37}) && temporal != 1) then Err(Malformed)
          else if 2 <= kind <= 5 && temporal == 1 then Err(Malformed)
          else if !(kind <= 9 || 19 <= kind <= 21 || 32 <= kind <= 40) then Err(Unsupported)
          else Ok(kind)
  }

  predicate IsVcl(codec: Codec, kind: nat) {
    match codec
    case Avc => kind == 1 || kind == 5
    case Hevc => kind <= 31
  }

  /** The bit that marks the first slice segment of a picture. */
  function FirstSlice(codec: Codec, nal: Nal): Result<bool, BitstreamError> {
    var i := if codec == Avc then 1 else 2;
    if i < |nal| then Ok(nal[i] >= 128) else Err(Truncated)
  }

  function PictureOf(codec: Codec, kind: nat, nal: Nal): PictureInfo
    requires nal != []
  {
    match codec
    case Avc => PictureInfo(if kind == 5 then AvcIdr else Trailing, nal[0] / 32 % 4 == 0)
    case Hevc =>
      PictureInfo(
        if kind == 19 || kind == 20 then HevcIdr
        else if kind == 21 then HevcCra
        else if kind == 8 || kind == 9 then HevcRasl
        else if kind == 6 || kind == 7 then HevcRadl
        else Trailing,
        kind <= 9 && kind % 2 == 0)
  }

  /** What the inspection has seen so far: the picture and its VCL type. */
  type Seen = Option<(PictureInfo, nat)>

  /** One NAL unit of the inspection. */
  function InspectOne(codec: Codec, nal: Nal, seen: Seen): Result<Seen, BitstreamError> {
    var kind :- NalType(codec, nal);
    if !IsVcl(codec, kind) then Ok(seen)
    else
      var first :- FirstSlice(codec, nal);
      if first && seen.Some? then Err(Unsupported)
      else if !first && seen.None? then Err(Malformed)
      else if seen.Some? && seen.value.1 != kind then Err(Unsupported)
      else
        var current := PictureOf(codec, kind, nal);
        if seen.Some? && seen.value.0 != current then Err(Unsupported) else Ok(Some((current, kind)))
  }

  function Inspect(codec: Codec, nals: seq<Nal>, seen: Seen): Result<PictureInfo, BitstreamError> {
    if nals == [] then if seen.Some? then Ok(seen.value.0) else Err(Malformed)
    else
      var next :- InspectOne(codec, nals[0], seen);
      Inspect(codec, nals[1..], next)
  }

  method InspectPicture(codec: Codec, nals: seq<Nal>) returns (r: Result<PictureInfo, BitstreamError>)
    ensures r == Inspect(codec, nals, None)
  {
    var picture: Option<PictureInfo> := None;
    var vclType: Option<nat> := None;
    assert nals[0..] == nals;
    for i := 0 to |nals|
      invariant picture.Some? <==> vclType.Some?
      invariant Inspect(codec, nals, None) ==
                Inspect(codec, nals[i..], if picture.Some? then Some((picture.value, vclType.value)) else None)
    {
      var nal := nals[i];
      assert nals[i..][0] == nal && nals[i..][1..] == nals[i + 1..];
      var kind :- NalType(codec, nal);
      if IsVcl(codec, kind) {
        var firstSlice :- FirstSlice(codec, nal);
        if firstSlice && picture.Some? {
          return Err(Unsupported);
        }
        if !firstSlice && picture.None? {
          return Err(Malformed);
        }
        if vclType.Some? && vclType.value != kind {
          return Err(Unsupported);
        }
        vclType := Some(kind);
        var current := PictureOf(codec, kind, nal);
        if picture.Some? && picture.value != current {
          return Err(Unsupported);
        }
        picture := Some(current);
      }
    }
    assert nals[|nals|..] == [];
    return if picture.Some? then Ok(picture.value) else Err(Malformed);
  }

  /** The VCL units among valid NAL units, in order. */
  function VclUnits(codec: Codec, nals: seq<Nal>): seq<Nal> {
    if nals == [] then []
    else
      var kind := NalType(codec, nals[0]);
      (if kind.Ok? && IsVcl(codec, kind.value) then [nals[0]] else []) + VclUnits(codec, nals[1..])
  }

  /** n continues a picture that began with a unit of type kind and picture p. */
  predicate Continues(codec: Codec, n: Nal, kind: nat, p: PictureInfo) {
    NalType(codec, n) == Ok(kind) && FirstSlice(codec, n) == Ok(false) && PictureOf(codec, kind, n) == p
  }

  /** The headers of one picture: all valid; its slices of one kind, the first and only the first marked as first. */
  ghost predicate OnePicture(codec: Codec, nals: seq<Nal>, p: PictureInfo) {
    var vcl := VclUnits(codec, nals);
    && (forall n | n in nals :: NalType(codec, n).Ok?)
    && vcl != [] && FirstSlice(codec, vcl[0]) == Ok(true)
    && NalType(codec, vcl[0]).Ok? && PictureOf(codec, NalType(codec, vcl[0]).value, vcl[0]) == p
    && forall n | n in vcl[1..] :: Continues(codec, n, NalType(codec, vcl[0]).value, p)
  }

  lemma {:induction false} InspectRest(codec: Codec, nals: seq<Nal>, kind: nat, p: PictureInfo)
    ensures Inspect(codec, nals, Some((p, kind))).Ok? <==>
            && (forall n | n in nals :: NalType(codec, n).Ok?)
            && forall n | n in VclUnits(codec, nals) :: Continues(codec, n, kind, p)
    ensures Inspect(codec, nals, Some((p, kind))).Ok? ==> Inspect(codec, nals, Some((p, kind))).value == p
    decreases |nals|
  {
    hide NalType, FirstSlice, PictureOf, IsVcl;
    if nals != [] {
      var n, rest := nals[0], nals[1..];
      InspectRest(codec, rest, kind, p);
      assert nals == [n] + rest;
      assert forall m :: m in nals <==> m == n || m in rest;
      var own := if NalType(codec, n).Ok? && IsVcl(codec, NalType(codec, n).value) then [n] else [];
      assert VclUnits(codec, nals) == own + VclUnits(codec, rest);
      assert forall m :: m in own + VclUnits(codec, rest) <==> m in own || m in VclUnits(codec, rest);
      OneStep(codec, n, kind, p);
    }
  }

  lemma OneStep(codec: Codec, n: Nal, kind: nat, p: PictureInfo)
    ensures var step := InspectOne(codec, n, Some((p, kind)));
            && (step.Ok? <==> NalType(codec, n).Ok?
                              && (IsVcl(codec, NalType(codec, n).value) ==> Continues(codec, n, kind, p)))
            && (step.Ok? ==> step.value == Some((p, kind)))
  {
  }

  /** The inspection accepts exactly the unit lists that carry one picture, and reports that picture. */
  lemma {:induction false} InspectAcceptsOnePicture(codec: Codec, nals: seq<Nal>, p: PictureInfo)
    ensures Inspect(codec, nals, None) == Ok(p) <==> OnePicture(codec, nals, p)
    decreases |nals|
  {
    hide NalType, FirstSlice, PictureOf, IsVcl;
    if nals != [] {
      var n, rest := nals[0], nals[1..];
      assert nals == [n] + rest;
      assert forall m :: m in nals <==> m == n || m in rest;
      var kind := NalType(codec, n);
      var own := if kind.Ok? && IsVcl(codec, kind.value) then [n] else [];
      assert VclUnits(codec, nals) == own + VclUnits(codec, rest);
      if own == [] {
        assert VclUnits(codec, nals) == VclUnits(codec, rest);
        InspectAcceptsOnePicture(codec, rest, p);
      } else {
        InspectRest(codec, rest, kind.value, PictureOfValid(codec, n));
        assert VclUnits(codec, nals)[1..] == VclUnits(codec, rest);
      }
    }
  }

  function PictureOfValid(codec: Codec, n: Nal): PictureInfo
    requires NalType(codec, n).Ok?
  {
    PictureOf(codec, NalType(codec, n).value, n)
  }

  // ----- Access units -----

  datatype AccessUnit = AccessUnit(codec: Codec, nals: seq<Nal>, picture: PictureInfo)

  function Parse(codec: Codec, format: NalFormat, d: seq<byte>): Result<AccessUnit, BitstreamError> {
    var nals :- Split(format, d);
    var picture :- Inspect(codec, nals, None);
    Ok(AccessUnit(codec, nals, picture))
  }

  lemma {:induction false} PrefixedBounds(size: nat, d: seq<byte>, count: nat)
    requires size > 0 && count <= MAX_NALS && PrefixedFrom(size, d, count).Ok?
    ensures var ns := PrefixedFrom(size, d, count).value;
            count + |ns| <= MAX_NALS && forall n | n in ns :: n != []
    decreases |d|
  {
    hide BigEndian;
    if d != [] {
      PrefixedBounds(size, d[size + BigEndian(d[..size])..], count + 1);
    }
  }

  lemma SplitBounds(format: NalFormat, d: seq<byte>)
    requires Split(format, d).Ok?
    ensures var ns := Split(format, d).value;
            |ns| <= MAX_NALS && forall n | n in ns :: n != []
  {
    match format
    case AnnexB => SplitIsByteStream(d);
    case LengthPrefixed(size) => PrefixedBounds(size.Bytes(), d, 0);
  }

  /** A parsed access unit written with four-byte lengths parses to itself. */
  lemma ReparsesWithLengths(codec: Codec, format: NalFormat, d: seq<byte>)
    requires Parse(codec, format, d).Ok? && Write(Parse(codec, format, d).value.nals, false).Ok?
    ensures Parse(codec, LengthPrefixed(Four), Write(Parse(codec, format, d).value.nals, false).value)
            == Parse(codec, format, d)
  {
    SplitBounds(format, d);
    PrefixedRoundTrip(Split(format, d).value);
  }

  /** Read from Annex-B, it also survives being written back to Annex-B. */
  lemma ReparsesAsAnnexB(codec: Codec, d: seq<byte>)
    requires Parse(codec, AnnexB, d).Ok? && Write(Parse(codec, AnnexB, d).value.nals, true).Ok?
    ensures Parse(codec, AnnexB, Write(Parse(codec, AnnexB, d).value.nals, true).value) == Parse(codec, AnnexB, d)
  {
    SplitIsByteStream(d);
    AnnexBRoundTrip(Split(AnnexB, d).value);
  }
}

/** The canonical wire form of one coded picture. */
module Wire {
  import opened Results
  import opened AccessUnits

  function CanonicalAccessUnit(codec: Codec, format: NalFormat, d: seq<byte>): Result<seq<byte>, BitstreamError> {
    var picture :- Parse(codec, format, d);
    if format == LengthPrefixed(Four) then Ok(d) else Write(picture.nals, false)
  }

  /** A picture has a wire form exactly when it parses and, written with lengths, stays within 2 MiB. */
  lemma CanonicalExactly(codec: Codec, format: NalFormat, d: seq<byte>)
    ensures CanonicalAccessUnit(codec, format, d).Ok? <==>
              Parse(codec, format, d).Ok? && |Written(Parse(codec, format, d).value.nals, false)| <= 0x20_0000
  {
    hide Written, Inspect;
    if Parse(codec, format, d).Ok? && format == LengthPrefixed(Four) {
      PrefixedSplitsExactly(d, Split(format, d).value, 0);
    }
  }

  /** The wire form carries the same picture, and taking it again changes nothing. */
  lemma CanonicalIsIdempotent(codec: Codec, format: NalFormat, d: seq<byte>)
    requires CanonicalAccessUnit(codec, format, d).Ok?
    ensures var w := CanonicalAccessUnit(codec, format, d).value;
            && Parse(codec, LengthPrefixed(Four), w) == Parse(codec, format, d)
            && CanonicalAccessUnit(codec, LengthPrefixed(Four), w) == Ok(w)
            && w == Written(Parse(codec, format, d).value.nals, false)
  {
    if format == LengthPrefixed(Four) {
      PrefixedSplitsExactly(d, Split(format, d).value, 0);
    } else {
      ReparsesWithLengths(codec, format, d);
    }
  }
}
