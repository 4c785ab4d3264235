/** The older AVC framing helpers, held to the bounded splitter. */
module AvcFraming {
  import opened Results
  import opened Rbsp
  import opened AccessUnits

  // ----- The start code finder and the second splitter -----

  /** The hand-written scan finds what the window search of the bounded splitter finds. */
  method FindStart(data: seq<byte>, from: nat) returns (r: Option<(nat, nat)>)
    requires from <= |data|
    ensures r == StartCode(data, from)
  {
    var i := from;
    while i + 3 <= |data|
      invariant from <= i <= |data|
      invariant forall j {:trigger CodeAt(data, j)} | from <= j < i :: !CodeAt(data, j)
      invariant i > from && i < |data| && CodeAt(data, i) ==> data[i - 1] != 0
    {
      if i + 4 <= |data| && data[i] == 0 && data[i + 1] == 0 && data[i + 2] == 0 && data[i + 3] == 1 {
        FirstCodeIs(data, from, i + 1);
        return Some((i, i + 4));
      }
      if data[i] == 0 && data[i + 1] == 0 && data[i + 2] == 1 {
        FirstCodeIs(data, from, i);
        return Some((i, i + 3));
      }
      i := i + 1;
    }
    FirstCodeIs(data, from, |data|);
    return None;
  }

  /** The units between start codes, trailing zeros included. */
  function RawUnits(d: seq<byte>, from: nat): seq<Nal>
    requires from <= |d|
    decreases |d| - from
  {
    var start := StartCode(d, from);
    if start.None? then []
    else
      var payload := start.value.1;
      var following := StartCode(d, payload);
      var next := if following.Some? then following.value.0 else |d|;
      (if next > payload then [d[payload..next]] else []) + RawUnits(d, next)
  }

  lemma RawUnfolds(d: seq<byte>, from: nat)
    requires from <= |d|
    ensures var start := StartCode(d, from);
            if start.None? then RawUnits(d, from) == []
            else
              var payload := start.value.1;
              var following := StartCode(d, payload);
              var next := if following.Some? then following.value.0 else |d|;
              RawUnits(d, from) == (if next > payload then [d[payload..next]] else []) + RawUnits(d, next)
  {
    hide StartCode;
  }

  method SplitAnnexBNals(data: seq<byte>) returns (nals: seq<Nal>)
    ensures nals == RawUnits(data, 0)
  {
    hide StartCode, RawUnits;
    nals := [];
    var from := 0;
    var start := FindStart(data, from);
    while start.Some?
      invariant from <= |data| && start == StartCode(data, from)
      invariant RawUnits(data, 0) == nals + RawUnits(data, from)
      decreases |data| - from
    {
      var payload := start.value.1;
      var following := FindStart(data, payload);
      var next := if following.Some? then following.value.0 else |data|;
      ghost var done, unit := nals, if next > payload then [data[payload..next]] else [];
      if next > payload {
        nals := nals + [data[payload..next]];
      }
      RawUnfolds(data, from);
      assert nals == done + unit;
      from := next;
      start := FindStart(data, from);
    }
    RawUnfolds(data, from);
  }

  lemma StartCodeAgain(d: seq<byte>, p: nat)
    requires p <= |d| && StartCode(d, p).Some?
    ensures StartCode(d, StartCode(d, p).value.0) == StartCode(d, p)
  {
    FirstCodeIs(d, StartCode(d, p).value.0, FirstCode(d, p));
  }

  function TrimAll(ns: seq<Nal>): seq<Nal> {
    if ns == [] then [] else [Trim(ns[0])] + TrimAll(ns[1..])
  }

  lemma {:induction false} SplittersAgreeFrom(d: seq<byte>, from: nat, count: nat)
    requires from <= |d| && StartCode(d, from).Some?
    requires AnnexBFrom(d, StartCode(d, from).value.1, count).Ok?
    ensures TrimAll(RawUnits(d, from)) == AnnexBFrom(d, StartCode(d, from).value.1, count).value
    decreases |d| - from
  {
    hide StartCode, Trim;
    var payload := StartCode(d, from).value.1;
    var following := StartCode(d, payload);
    var next := if following.Some? then following.value.0 else |d|;
    var unit := d[payload..next];
    TrimOfNothing();
    var rest := RawUnits(d, next);
    assert unit != [] by { assert Trim(unit) != []; }
    assert RawUnits(d, from) == [unit] + rest;
    assert ([unit] + rest)[0] == unit && ([unit] + rest)[1..] == rest;
    if following.Some? {
      StartCodeAgain(d, payload);
      SplittersAgreeFrom(d, next, count + 1);
    } else {
      NothingAtEnd(d);
    }
  }

  lemma TrimOfNothing()
    ensures Trim([]) == []
  {
  }

  lemma NothingAtEnd(d: seq<byte>)
    ensures RawUnits(d, |d|) == []
  {
  }

  /** Whenever the bounded splitter succeeds, the other one yields the same units up to trailing zeros. */
  lemma SplittersAgree(d: seq<byte>)
    requires Split(AnnexB, d).Ok?
    ensures TrimAll(RawUnits(d, 0)) == Split(AnnexB, d).value
  {
    SplittersAgreeFrom(d, 0, 0);
  }

  // ----- What the second splitter makes of any bytes -----

  /** A start code, with or without its zero_byte, and the payload behind it. */
  datatype Piece = Piece(long: bool, payload: Nal)

  function Code(long: bool): (s: seq<byte>)
    ensures |s| == if long then 4 else 3
  {
    if long then [0, 0, 0, 1] else [0, 0, 1]
  }

  function Coded(ps: seq<Piece>): seq<byte> {
    if ps == [] then [] else Code(ps[0].long) + (ps[0].payload + Coded(ps[1..]))
  }

  /** No start code inside, and no zero at the end that would belong to the code of the first piece. */
  ghost predicate EndsBefore(n: seq<byte>, ps: seq<Piece>) {
    && (forall i {:trigger n[i]} | 0 <= i < |n| - 2 :: !(n[i] == 0 && n[i + 1] == 0 && n[i + 2] == 1))
    && (n != [] && n[|n| - 1] == 0 && ps != [] ==> ps[0].long)
  }

  ghost predicate Laid(ps: seq<Piece>) {
    ps != [] ==> EndsBefore(ps[0].payload, ps[1..]) && Laid(ps[1..])
  }

  /** The payloads that are not empty. */
  function Payloads(ps: seq<Piece>): seq<Nal> {
    if ps == [] then [] else (if ps[0].payload != [] then [ps[0].payload] else []) + Payloads(ps[1..])
  }

  lemma CodeStands(d: seq<byte>, at: nat, long: bool, rest: seq<byte>)
    requires at <= |d| && d[at..] == Code(long) + rest
    ensures var i := if long then at + 1 else at;
            i + 3 <= |d| && CodeAt(d, i) && (long ==> d[at] == 0)
  {
    var code := Code(long);
    assert forall k | 0 <= k < |code| :: d[at + k] == d[at..][k] == code[k];
  }

  /** Where a code behind n is found, when n ends before it. */
  lemma CodeIsFound(d: seq<byte>, from: nat, n: seq<byte>, ps: seq<Piece>, i: nat)
    requires EndsBefore(n, ps) && from + |n| <= i <= |d| && d[from..from + |n|] == n
    requires i == |d| || CodeAt(d, i)
    requires i == from + |n| || (i == from + |n| + 1 && i < |d| && d[i - 1] == 0)
    ensures FirstCode(d, from) == i
  {
    assert forall k {:trigger n[k]} | 0 <= k < |n| :: d[from + k] == n[k];
    forall j {:trigger CodeAt(d, j)} | from <= j < i
      ensures !CodeAt(d, j)
    {
      if j + 2 < from + |n| {
        assert n[j - from] == d[j] && n[j + 1 - from] == d[j + 1] && n[j + 2 - from] == d[j + 2];
      }
    }
    FirstCodeIs(d, from, i);
  }

  /** Where the first code of some pieces behind n is found. */
  lemma CodeBehind(d: seq<byte>, from: nat, n: seq<byte>, ps: seq<Piece>)
    requires from <= |d| && d[from..] == n + Coded(ps) && EndsBefore(n, ps)
    ensures from + |n| <= |d| && d[from..from + |n|] == n && d[from + |n|..] == Coded(ps)
    ensures StartCode(d, from) ==
              if ps == [] then None else Some((from + |n|, from + |n| + if ps[0].long then 4 else 3))
  {
    hide FirstCode, Code, CodeAt;
    Joined(d, from, n, Coded(ps));
    var at := from + |n|;
    if ps == [] {
      CodeIsFound(d, from, n, ps, |d|);
    } else {
      CodeStands(d, at, ps[0].long, ps[0].payload + Coded(ps[1..]));
      CodeIsFound(d, from, n, ps, if ps[0].long then at + 1 else at);
      if n != [] {
        LastOf(d, from, n);
      }
    }
  }

  lemma LastOf(d: seq<byte>, from: nat, n: seq<byte>)
    requires from + |n| <= |d| && d[from..from + |n|] == n && n != []
    ensures d[from + |n| - 1] == n[|n| - 1]
  {
    assert d[from..from + |n|][|n| - 1] == d[from + |n| - 1];
  }

  lemma CodedStep(d: seq<byte>, at: nat, ps: seq<Piece>)
    requires ps != [] && at <= |d| && d[at..] == Coded(ps)
    ensures var payload := at + if ps[0].long then 4 else 3; var next := payload + |ps[0].payload|;
            && payload <= next <= |d| && d[payload..next] == ps[0].payload && d[next..] == Coded(ps[1..])
            && d[payload..] == ps[0].payload + Coded(ps[1..])
  {
    hide Code;
    var n, rest := ps[0].payload, Coded(ps[1..]);
    Joined(d, at, Code(ps[0].long), n + rest);
    Joined(d, at + |Code(ps[0].long)|, n, rest);
  }

  lemma {:induction false} LaidIsRead(d: seq<byte>, from: nat, g: seq<byte>, ps: seq<Piece>)
    requires from <= |d| && d[from..] == g + Coded(ps) && EndsBefore(g, ps) && Laid(ps)
    ensures RawUnits(d, from) == Payloads(ps)
    decreases |ps|
  {
    hide StartCode, Coded, EndsBefore, RawUnits;
    CodeBehind(d, from, g, ps);
    RawUnfolds(d, from);
    if ps != [] {
      var at := from + |g|;
      CodedStep(d, at, ps);
      var payload := at + if ps[0].long then 4 else 3;
      var next := payload + |ps[0].payload|;
      CodeBehind(d, payload, ps[0].payload, ps[1..]);
      EmptyEnds(ps[1..]);
      assert [] + Coded(ps[1..]) == Coded(ps[1..]);
      LaidIsRead(d, next, [], ps[1..]);
      NoPieces(d, next, ps[1..]);
    }
  }

  lemma EmptyEnds(ps: seq<Piece>)
    ensures EndsBefore([], ps)
  {
  }

  lemma NoPieces(d: seq<byte>, next: nat, ps: seq<Piece>)
    requires next <= |d| && d[next..] == Coded(ps)
    ensures ps == [] ==> next == |d|
  {
  }

  /** ps are pieces whose first code is the one found from a place on. */
  predicate FirstIs(code: Option<(nat, nat)>, ps: seq<Piece>) {
    && (code.None? <==> ps == [])
    && (code.Some? && ps != [] ==> (ps[0].long <==> code.value.1 == code.value.0 + 4))
  }

  /** What stands between two codes ends before the second. */
  lemma BetweenCodes(d: seq<byte>, from: nat, ps: seq<Piece>)
    requires from <= |d| && FirstIs(StartCode(d, from), ps)
    ensures var code := StartCode(d, from); EndsBefore(d[from..if code.Some? then code.value.0 else |d|], ps)
  {
    var code := StartCode(d, from);
    var n := d[from..if code.Some? then code.value.0 else |d|];
    forall i {:trigger n[i]} | 0 <= i < |n| - 2
      ensures !(n[i] == 0 && n[i + 1] == 0 && n[i + 2] == 1)
    {
      assert n[i] == d[from + i] && n[i + 1] == d[from + i + 1] && n[i + 2] == d[from + i + 2];
      assert !CodeAt(d, from + i);
    }
  }

  lemma CodeBytes(d: seq<byte>, from: nat)
    requires from <= |d| && StartCode(d, from).Some?
    ensures var (at, payload) := StartCode(d, from).value; d[at..payload] == Code(payload == at + 4)
  {
  }

  lemma PieceMore(long: bool, n: Nal, rest: seq<Piece>)
    ensures var ps := [Piece(long, n)] + rest;
            && ps[1..] == rest && Coded(ps) == Code(long) + (n + Coded(rest))
            && (Laid(ps) <==> EndsBefore(n, rest) && Laid(rest))
            && Payloads(ps) == (if n != [] then [n] else []) + Payloads(rest)
  {
    assert ([Piece(long, n)] + rest)[1..] == rest;
  }

  lemma NoPiecesLaid()
    ensures Laid([]) && Coded([]) == [] && Payloads([]) == []
  {
  }

  lemma FourParts(d: seq<byte>, from: nat, at: nat, payload: nat, next: nat)
    requires from <= at <= payload <= next <= |d|
    ensures d[from..] == d[from..at] + (d[at..payload] + (d[payload..next] + d[next..]))
  {
  }

  lemma {:induction false} RawIsLaid(d: seq<byte>, from: nat) returns (ps: seq<Piece>)
    requires from <= |d|
    ensures FirstIs(StartCode(d, from), ps) && Laid(ps) && RawUnits(d, from) == Payloads(ps)
    ensures var code := StartCode(d, from); d[if code.Some? then code.value.0 else |d|..] == Coded(ps)
    decreases |d| - from
  {
    hide StartCode, Coded, Laid, Payloads, RawUnits, Code, EndsBefore;
    var code := StartCode(d, from);
    NoPiecesLaid();
    RawUnfolds(d, from);
    if code.None? {
      ps := [];
    } else {
      var (at, payload) := code.value;
      var following := StartCode(d, payload);
      var next := if following.Some? then following.value.0 else |d|;
      var rest := RawIsLaid(d, next);
      if following.Some? {
        StartCodeAgain(d, payload);
      } else {
        NoneAtEnd(d);
      }
      BetweenCodes(d, payload, rest);
      var n := d[payload..next];
      PieceMore(payload == at + 4, n, rest);
      CodeBytes(d, from);
      FourParts(d, at, at, payload, next);
      assert d[at..at] == [];
      ps := [Piece(payload == at + 4, n)] + rest;
    }
  }

  lemma NoneAtEnd(d: seq<byte>)
    ensures StartCode(d, |d|).None?
  {
  }

  /**
   * Of any bytes the second splitter yields the payloads that are not empty, where the bytes are anything without a
   * start code, then codes of three or four bytes with payloads without start codes; a zero before a code is its own.
   */
  lemma RawUnitsExactly(d: seq<byte>, us: seq<Nal>)
    ensures RawUnits(d, 0) == us <==>
              exists g: seq<byte>, ps: seq<Piece> ::
                EndsBefore(g, ps) && Laid(ps) && d == g + Coded(ps) && us == Payloads(ps)
  {
    hide RawUnits, Coded, EndsBefore, Laid, Payloads, StartCode;
    assert d[0..] == d;
    if RawUnits(d, 0) == us {
      var ps := RawIsLaid(d, 0);
      BetweenCodes(d, 0, ps);
      var at := if StartCode(d, 0).Some? then StartCode(d, 0).value.0 else |d|;
      assert d == d[0..at] + d[at..];
      assert EndsBefore(d[0..at], ps);
    }
    if g: seq<byte>, ps: seq<Piece> :| EndsBefore(g, ps) && Laid(ps) && d == g + Coded(ps) && us == Payloads(ps) {
      LaidIsRead(d, 0, g, ps);
    }
  }

  // ----- Recognising length prefixes -----

  predicate StartsLikeAnnexB(d: seq<byte>) {
    || (|d| >= 4 && d[0] == 0 && d[1] == 0 && d[2] == 0 && d[3] == 1)
    || (|d| >= 3 && d[0] == 0 && d[1] == 0 && d[2] == 1)
  }

  /** First lengths whose four bytes read as a start code. */
  predicate AmbiguousLength(n: nat) {
    n == 1 || 256 <= n < 512
  }

  lemma AmbiguousExactly(ns: seq<Nal>)
    requires ns != [] && |ns[0]| < 0x1_0000_0000
    ensures StartsLikeAnnexB(Written(ns, false)) <==> AmbiguousLength(|ns[0]|)
  {
    hide Be32;
    var n, d := |ns[0]|, Written(ns, false);
    assert d[..4] == Be32(n);
    assert d[0] == d[..4][0] && d[1] == d[..4][1] && d[2] == d[..4][2] && d[3] == d[..4][3];
    Be32OfSmall(n);
  }

  lemma Be32OfSmall(n: nat)
    requires n < 0x1_0000_0000
    ensures var s := Be32(n);
            s[0] == 0 && s[1] == 0 && ((s[2] == 0 && s[3] == 1) || s[2] == 1) <==> AmbiguousLength(n)
  {
    assert n == 0x100 * (n / 0x100) + n % 0x100;
    assert n / 0x1_0000 == n / 0x100 / 0x100 && n / 0x100_0000 == n / 0x100 / 0x100 / 0x100;
  }

  /** A NAL unit type the elementary AVC stream may carry. */
  predicate PlausibleUnit(n: Nal) {
    n != [] && 1 <= n[0] % 32 <= 12
  }

  /** The first unit of a four-byte length-prefixed string and what follows it. */
  function FirstUnit(d: seq<byte>): (r: Option<(Nal, seq<byte>)>)
    ensures r.Some? ==> |r.value.1| < |d|
  {
    if |d| < 4 then None
    else
      var end := 4 + BigEndian(d[..4]);
      if end == 4 || end > |d| || !PlausibleUnit(d[4..end]) then None else Some((d[4..end], d[end..]))
  }

  /** The units of a complete four-byte length-prefixed string, if it is one. */
  function LengthUnits(d: seq<byte>): Option<seq<Nal>>
    decreases |d|
  {
    if d == [] then Some([])
    else
      var first := FirstUnit(d);
      if first.None? then None
      else
        var rest := LengthUnits(first.value.1);
        if rest.None? then None else Some([first.value.0] + rest.value)
  }

  predicate Recognised(d: seq<byte>) {
    |d| >= 5 && !StartsLikeAnnexB(d) && LengthUnits(d).Some?
  }

  /** The first unit of data[i..], by positions in data. */
  lemma SameBytes(data: seq<byte>, i: nat)
    requires i + 4 <= |data|
    ensures var end := i + 4 + BigEndian(data[i..i + 4]);
            FirstUnit(data[i..]) ==
            if end == i + 4 || end > |data| || !PlausibleUnit(data[i + 4..end]) then None
            else Some((data[i + 4..end], data[end..]))
  {
    hide BigEndian, PlausibleUnit;
    var rest := data[i..];
    assert rest[..4] == data[i..i + 4];
    var len := BigEndian(rest[..4]);
    if i + 4 + len <= |data| {
      assert rest[4..4 + len] == data[i + 4..i + 4 + len] && rest[4 + len..] == data[i + 4 + len..];
    }
  }

  lemma NoShortRest(rest: seq<byte>)
    requires |rest| < 4
    ensures LengthUnits(rest) == if rest == [] then Some([]) else None
  {
  }

  method IsLengthPrefixedAccessUnit(data: seq<byte>) returns (r: bool)
    ensures r == Recognised(data)
  {
    hide BigEndian, FirstUnit;
    if |data| < 5 {
      return false;
    }
    if StartsLikeAnnexB(data) {
      return false;
    }
    var i := 0;
    var nalCount := 0;
    assert data[0..] == data;
    while i + 4 <= |data|
      invariant i <= |data| && (nalCount == 0 ==> i == 0) && nalCount >= 0
      invariant LengthUnits(data).Some? <==> LengthUnits(data[i..]).Some?
      decreases |data| - i
    {
      ghost var rest := data[i..];
      SameBytes(data, i);
      var len := BigEndian(data[i..i + 4]);
      if len == 0 || i + 4 + len > |data| {
        return false;
      }
      var nalType := data[i + 4] % 32;
      if nalType == 0 || nalType > 12 {
        return false;
      }
      i := i + 4 + len;
      nalCount := nalCount + 1;
    }
    NoShortRest(data[i..]);
    return nalCount >= 1 && i == |data|;
  }

  lemma LengthUnitsExactly(d: seq<byte>, ns: seq<Nal>)
    ensures LengthUnits(d) == Some(ns)
            <==> d == Written(ns, false) && forall n | n in ns :: PlausibleUnit(n) && |n| < 0x1_0000_0000
  {
    hide LengthUnits;
    if LengthUnits(d).Some? {
      LengthUnitsAreWritten(d);
    }
    if forall n | n in ns :: PlausibleUnit(n) && |n| < 0x1_0000_0000 {
      WrittenLengthUnits(ns);
    }
  }

  lemma FirstUnitExactly(d: seq<byte>, n: Nal, rest: seq<byte>)
    ensures FirstUnit(d) == Some((n, rest))
            <==> d == Be32(|n|) + n + rest && PlausibleUnit(n) && |n| < 0x1_0000_0000
  {
    hide BigEndian, Be32, PlausibleUnit;
    if FirstUnit(d) == Some((n, rest)) {
      BigEndianInverts(d[..4]);
      assert d == d[..4] + n + rest;
    }
    if d == Be32(|n|) + n + rest && PlausibleUnit(n) && |n| < 0x1_0000_0000 {
      Be32Inverts(|n|);
      PlausibleNotEmpty(n);
      assert d[..4] == Be32(|n|) && d[4..4 + |n|] == n && d[4 + |n|..] == rest;
    }
  }

  lemma {:induction false} LengthUnitsAreWritten(d: seq<byte>)
    requires LengthUnits(d).Some?
    ensures var ns := LengthUnits(d).value;
            d == Written(ns, false) && forall n | n in ns :: PlausibleUnit(n) && |n| < 0x1_0000_0000
    decreases |d|
  {
    hide FirstUnit, Be32, PlausibleUnit;
    if d != [] {
      var (n, rest) := FirstUnit(d).value;
      FirstUnitExactly(d, n, rest);
      LengthUnitsAreWritten(rest);
      var ns := LengthUnits(d).value;
      assert ns[0] == n && ns[1..] == LengthUnits(rest).value;
    }
  }

  lemma {:induction false} WrittenLengthUnits(ns: seq<Nal>)
    requires forall n | n in ns :: PlausibleUnit(n) && |n| < 0x1_0000_0000
    ensures LengthUnits(Written(ns, false)) == Some(ns)
    decreases |ns|
  {
    hide FirstUnit, Be32, PlausibleUnit, LengthUnits;
    if ns == [] {
      NoLengthUnits();
    } else {
      assert ns[0] in ns;
      FirstUnitExactly(Written(ns, false), ns[0], Written(ns[1..], false));
      WrittenLengthUnits(ns[1..]);
      LengthUnitsStep(Written(ns, false), ns[0], Written(ns[1..], false));
      assert ns == [ns[0]] + ns[1..];
    }
  }

  lemma NoLengthUnits()
    ensures LengthUnits([]) == Some([])
  {
  }

  lemma LengthUnitsStep(d: seq<byte>, n: Nal, rest: seq<byte>)
    requires d != [] && FirstUnit(d) == Some((n, rest)) && LengthUnits(rest).Some?
    ensures LengthUnits(d) == Some([n] + LengthUnits(rest).value)
  {
    hide FirstUnit;
  }

  lemma PlausibleNotEmpty(n: Nal)
    requires PlausibleUnit(n)
    ensures n != []
  {
  }

  /**
   * The four-byte form of units of types 1 to 12 is recognised exactly when its first length cannot be taken for a
   * start code; and nothing else is recognised.
   */
  lemma RecognisedExactly(ns: seq<Nal>)
    requires ns != [] && forall n | n in ns :: PlausibleUnit(n) && |n| < 0x1_0000_0000
    ensures Recognised(Written(ns, false)) <==> !AmbiguousLength(|ns[0]|)
  {
    LengthUnitsExactly(Written(ns, false), ns);
    AmbiguousExactly(ns);
    assert ns[0] in ns;
  }

  lemma OnlyWrittenIsRecognised(d: seq<byte>)
    requires Recognised(d)
    ensures var ns := LengthUnits(d).value;
            && ns != [] && d == Written(ns, false) && !AmbiguousLength(|ns[0]|)
            && forall n | n in ns :: PlausibleUnit(n) && |n| < 0x1_0000_0000
  {
    var ns := LengthUnits(d).value;
    LengthUnitsExactly(d, ns);
    assert ns[0] in ns;
    AmbiguousExactly(ns);
  }

  /** Units of types 1 to 12, the first not of length 1 or 256 to 511. */
  ghost predicate Recognisable(ns: seq<Nal>) {
    && ns != [] && |ns[0]| != 1 && !(256 <= |ns[0]| <= 511)
    && forall n | n in ns :: n != [] && 1 <= n[0] % 32 <= 12 && |n| < 0x1_0000_0000
  }

  lemma RecognisableExactly(ns: seq<Nal>)
    ensures Recognisable(ns) <==>
              ns != [] && !AmbiguousLength(|ns[0]|) && forall n | n in ns :: PlausibleUnit(n) && |n| < 0x1_0000_0000
  {
  }

  /** Recognised is exactly what writes such units with four-byte lengths. */
  lemma RecognisedStrings(d: seq<byte>)
    ensures Recognised(d) <==> exists ns: seq<Nal> :: Recognisable(ns) && d == Written(ns, false)
  {
    hide LengthUnits, StartsLikeAnnexB, Written, Recognisable, PlausibleUnit, AmbiguousLength;
    if Recognised(d) {
      OnlyWrittenIsRecognised(d);
      RecognisableExactly(LengthUnits(d).value);
    }
    if ns: seq<Nal> :| Recognisable(ns) && d == Written(ns, false) {
      RecognisableExactly(ns);
      RecognisedExactly(ns);
    }
  }

  // ----- The converters -----

  lemma WrittenCons(n: Nal, ns: seq<Nal>)
    ensures Written([n] + ns, true) == ([0, 0, 0, 1] + n) + Written(ns, true)
  {
    assert ([n] + ns)[1..] == ns;
  }

  lemma NextUnit(rest: seq<byte>)
    requires LengthUnits(rest).Some? && rest != []
    ensures FirstUnit(rest).Some? && LengthUnits(FirstUnit(rest).value.1).Some?
    ensures var (n, others) := FirstUnit(rest).value;
            Written(LengthUnits(rest).value, true) == ([0, 0, 0, 1] + n) + Written(LengthUnits(others).value, true)
  {
    hide FirstUnit, Written;
    var (n, others) := FirstUnit(rest).value;
    WrittenCons(n, LengthUnits(others).value);
  }

  lemma EmptyIsWritten()
    ensures Written([], true) == []
  {
  }

  method LengthPrefixedToAnnexB(data: seq<byte>) returns (r: Option<seq<byte>>)
    ensures r == if Recognised(data) then Some(Written(LengthUnits(data).value, true)) else None
  {
    hide BigEndian, StartsLikeAnnexB, LengthUnits, Written, PlausibleUnit;
    var recognised := IsLengthPrefixedAccessUnit(data);
    if !recognised {
      return None;
    }
    var out := [];
    var i := 0;
    assert data[0..] == data;
    while i + 4 <= |data|
      invariant i <= |data| && LengthUnits(data[i..]).Some?
      invariant Written(LengthUnits(data).value, true) == out + Written(LengthUnits(data[i..]).value, true)
      decreases |data| - i
    {
      ghost var done := out;
      NextUnit(data[i..]);
      SameBytes(data, i);
      var len := BigEndian(data[i..i + 4]);
      i := i + 4;
      out := out + [0, 0, 0, 1];
      out := out + data[i..i + len];
      assert out == done + ([0, 0, 0, 1] + data[i..i + len]);
      i := i + len;
    }
    NoShortRest(data[i..]);
    EmptyIsWritten();
    assert out + [] == out;
    return Some(out);
  }

  method AnnexBToLengthPrefixed(data: seq<byte>) returns (r: Option<seq<byte>>)
    ensures r == if RawUnits(data, 0) == [] then None else Some(Written(RawUnits(data, 0), false))
  {
    var nals := SplitAnnexBNals(data);
    if nals == [] {
      return None;
    }
    var out := [];
    for i := 0 to |nals|
      invariant out == Written(nals[..i], false)
    {
      assert nals[..i + 1] == nals[..i] + [nals[i]];
      WrittenMore(nals[..i], nals[i], false);
      out := out + (Be32(|nals[i]|) + nals[i]);
    }
    assert nals[..|nals|] == nals;
    return Some(out);
  }

  /** Not empty and free of start codes; trailing zeros are allowed. */
  ghost predicate CodeFree(n: Nal) {
    n != [] && forall i {:trigger n[i]} | 0 <= i < |n| - 2 :: !(n[i] == 0 && n[i + 1] == 0 && n[i + 2] == 1)
  }

  lemma NoCodeInside(d: seq<byte>, p: nat, n: Nal, j: nat)
    requires CodeFree(n) && p + |n| <= |d| && d[p..p + |n|] == n
    requires p <= j && j + 2 < p + |n|
    ensures !CodeAt(d, j)
  {
    assert d[j] == n[j - p] && d[j + 1] == n[j + 1 - p] && d[j + 2] == n[j + 2 - p];
  }

  lemma FourBytes(d: seq<byte>, e: nat)
    requires e + 4 <= |d| && d[e..e + 4] == [0, 0, 0, 1]
    ensures d[e] == 0 && CodeAt(d, e + 1)
  {
    var s := d[e..e + 4];
    assert d[e] == s[0] && d[e + 1] == s[1] && d[e + 2] == s[2] && d[e + 3] == s[3];
  }

  /** Before a four-byte start code a code-free unit ends exactly where the start code begins. */
  lemma CodeFreeUnitEnds(d: seq<byte>, p: nat, n: Nal)
    requires CodeFree(n) && p + |n| <= |d| && d[p..p + |n|] == n
    requires p + |n| == |d| || (p + |n| + 4 <= |d| && d[p + |n|..p + |n| + 4] == [0, 0, 0, 1])
    ensures StartCode(d, p) == if p + |n| == |d| then None else Some((p + |n|, p + |n| + 4))
  {
    var e := p + |n|;
    if e < |d| {
      FourBytes(d, e);
    }
    var i := if e == |d| then e else e + 1;
    forall j {:trigger CodeAt(d, j)} | p <= j < i
      ensures !CodeAt(d, j)
    {
      if j + 2 < e {
        NoCodeInside(d, p, n, j);
      }
    }
    FirstCodeIs(d, p, i);
  }

  lemma {:induction false} WrittenUnitsComeBack(d: seq<byte>, p: nat, ns: seq<Nal>)
    requires p <= |d| && d[p..] == Written(ns, true) && forall n | n in ns :: CodeFree(n)
    ensures RawUnits(d, p) == ns
    decreases |ns|
  {
    hide StartCode, CodeFree;
    if ns == [] {
      NothingAtEnd(d);
    } else {
      var n, rest := ns[0], Written(ns[1..], true);
      assert n in ns;
      CodeFreeNotEmpty(n);
      assert d[p..] == [0, 0, 0, 1] + (n + rest);
      Joined(d, p, [0, 0, 0, 1], n + rest);
      Joined(d, p + 4, n, rest);
      FourByteCode(d, p);
      var e := p + 4 + |n|;
      if ns[1..] != [] {
        assert rest[..4] == [0, 0, 0, 1];
        assert d[e..e + 4] == d[e..][..4];
      }
      CodeFreeUnitEnds(d, p + 4, n);
      WrittenUnitsComeBack(d, e, ns[1..]);
      assert ns == [n] + ns[1..];
    }
  }

  lemma CodeFreeNotEmpty(n: Nal)
    requires CodeFree(n)
    ensures n != []
  {
  }

  lemma FourByteCode(d: seq<byte>, p: nat)
    requires p + 4 <= |d| && d[p..p + 4] == [0, 0, 0, 1]
    ensures StartCode(d, p) == Some((p, p + 4))
  {
    FourBytes(d, p);
    FirstCodeIs(d, p, p + 1);
  }

  /** On units free of start codes, whose first length is not ambiguous, the two converters undo each other. */
  lemma ConvertersAreInverse(ns: seq<Nal>)
    requires ns != [] && !AmbiguousLength(|ns[0]|)
    requires forall n | n in ns :: CodeFree(n) && PlausibleUnit(n) && |n| < 0x1_0000_0000
    ensures RawUnits(Written(ns, true), 0) == ns
    ensures Recognised(Written(ns, false)) && LengthUnits(Written(ns, false)) == Some(ns)
  {
    var d := Written(ns, true);
    assert d[0..] == d;
    WrittenUnitsComeBack(d, 0, ns);
    RecognisedExactly(ns);
    LengthUnitsExactly(Written(ns, false), ns);
  }
}
