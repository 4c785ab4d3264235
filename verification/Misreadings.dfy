/** A length-prefixed SPS taken for Annex-B: what a reader makes of it before it comes to the units that follow. */
module Misreadings {
  import opened Results
  import opened Rbsp
  import opened AccessUnits

  // ----- How far an SPS reads as Annex-B -----

  /**
   * y follows a start code. What the inspection has seen when all units that begin in y have been read, the last one
   * running on into whatever follows; lengths that follow begin with a zero byte.
   */
  function Opening(y: seq<byte>, p: nat, seen: Seen): Result<Seen, BitstreamError>
    requires p <= |y|
    decreases |y| - p
  {
    var i := FirstCode(y, p);
    if i == |y| then if p == |y| then Err(Malformed) else InspectOne(Avc, y[p..] + [0], seen)
    else
      var u := Trim(y[p..i]);
      if u == [] then Err(Malformed)
      else
        var next :- InspectOne(Avc, u, seen);
        Opening(y, i + 3, next)
  }

  /** How many units that is. */
  function Pieces(y: seq<byte>, p: nat): nat
    requires p <= |y|
    decreases |y| - p
  {
    var i := FirstCode(y, p);
    if i == |y| then 1 else 1 + Pieces(y, i + 3)
  }

  /** The stream in which y follows a start code and is followed by t. */
  function Stream(y: seq<byte>, t: seq<byte>): seq<byte> {
    [0, 0, 1] + y + t
  }

  lemma CodesAgree(y: seq<byte>, t: seq<byte>, j: nat)
    requires j + 3 <= |y|
    ensures CodeAt(Stream(y, t), 3 + j) <==> CodeAt(y, j)
  {
    var d := Stream(y, t);
    assert d[3 + j] == y[j] && d[4 + j] == y[j + 1] && d[5 + j] == y[j + 2];
  }

  lemma FirstCodeInside(y: seq<byte>, t: seq<byte>, p: nat)
    requires p <= |y| && FirstCode(y, p) < |y|
    ensures FirstCode(Stream(y, t), 3 + p) == 3 + FirstCode(y, p)
    ensures Stream(y, t)[3 + p..3 + FirstCode(y, p)] == y[p..FirstCode(y, p)]
  {
    var d, i := Stream(y, t), FirstCode(y, p);
    CodesAgree(y, t, i);
    forall j {:trigger CodeAt(d, j)} | 3 + p <= j < 3 + i
      ensures !CodeAt(d, j)
    {
      CodesAgree(y, t, j - 3);
      assert !CodeAt(y, j - 3);
    }
    hide Stream;
    FirstCodeIs(d, 3 + p, 3 + i);
    StreamSlice(y, t, p, i);
  }

  lemma StreamSlice(y: seq<byte>, t: seq<byte>, p: nat, i: nat)
    requires p <= i <= |y|
    ensures Stream(y, t)[3 + p..3 + i] == y[p..i]
  {
  }

  lemma FirstCodeBeyond(y: seq<byte>, t: seq<byte>, p: nat)
    requires p <= |y| && FirstCode(y, p) == |y|
    ensures FirstCode(Stream(y, t), 3 + p) > |y| || FirstCode(Stream(y, t), 3 + p) == |Stream(y, t)|
  {
    var d := Stream(y, t);
    var k := FirstCode(d, 3 + p);
    assert k <= |y| ==> !CodeAt(y, k - 3);
    if 3 + p <= k <= |y| {
      CodesAgree(y, t, k - 3);
    }
  }

  /** The inspection looks at no more than two bytes of a unit; where the second is missing it only refuses more. */
  lemma InspectOneLike(u: Nal, v: Nal, seen: Seen)
    requires u != [] && |v| >= 2 && u[0] == v[0] && (|u| >= 2 ==> u[1] == v[1])
    ensures InspectOne(Avc, v, seen).Err? ==> InspectOne(Avc, u, seen).Err?
    ensures |u| >= 2 ==> InspectOne(Avc, u, seen) == InspectOne(Avc, v, seen)
  {
  }

  lemma ZeroHeaderRefused(u: Nal, seen: Seen)
    requires u != [] && u[0] == 0
    ensures InspectOne(Avc, u, seen).Err?
  {
  }

  lemma TrimBegins(s: seq<byte>)
    requires s != [] && (s[0] != 0 || Trim(s) != [])
    ensures var u := Trim(s);
            u != [] && |u| <= |s| && u[0] == s[0] && (|u| >= 2 ==> |s| >= 2 && u[1] == s[1])
  {
    TrimKeeps(s);
    assert s[0] == (Trim(s) + ZeroBytes(|s| - |Trim(s)|))[0];
  }

  /** The unit read from the end of y. */
  lemma LastPiece(y: seq<byte>, t: seq<byte>, p: nat, seen: Seen)
    requires p <= |y| && FirstCode(y, p) == |y| && t != [] && t[0] == 0 && Opening(y, p, seen).Err?
    ensures var d := Stream(y, t); var u := Trim(d[3 + p..FirstCode(d, 3 + p)]);
            u == [] || InspectOne(Avc, u, seen).Err?
  {
    var d := Stream(y, t);
    var i := FirstCode(d, 3 + p);
    var s := d[3 + p..i];
    FirstCodeBeyond(y, t, p);
    if Trim(s) != [] {
      assert s != [];
      TrimBegins(s);
      assert s[0] == d[3 + p];
      if p == |y| {
        ZeroHeaderRefused(Trim(s), seen);
      } else {
        var v := y[p..] + [0];
        assert v[0] == s[0];
        assert |s| >= 2 ==> s[1] == d[4 + p] == v[1];
        InspectOneLike(Trim(s), v, seen);
      }
    }
  }

  lemma NextStep(d: seq<byte>, p: nat, count: nat)
    requires p <= |d| && AnnexBFrom(d, p, count).Ok?
    ensures var i := FirstCode(d, p); var u := Trim(d[p..i]); var ns := AnnexBFrom(d, p, count).value;
            && u != [] && ns != [] && ns[0] == u
            && (if i == |d| then ns[1..] == []
                else AnnexBFrom(d, i + 3, count + 1).Ok? && ns[1..] == AnnexBFrom(d, i + 3, count + 1).value)
  {
    TrimAtStart(d, p);
    hide Trim;
  }

  lemma FirstRefused(ns: seq<Nal>, seen: Seen)
    requires ns != [] && InspectOne(Avc, ns[0], seen).Err?
    ensures Inspect(Avc, ns, seen).Err?
  {
  }

  /** Where the opening is refused, so is every picture read from it. */
  lemma {:induction false} OpeningRefused(y: seq<byte>, t: seq<byte>, p: nat, seen: Seen, count: nat)
    requires p <= |y| && t != [] && t[0] == 0 && Opening(y, p, seen).Err?
    requires AnnexBFrom(Stream(y, t), 3 + p, count).Ok?
    ensures Inspect(Avc, AnnexBFrom(Stream(y, t), 3 + p, count).value, seen).Err?
    decreases |y| - p
  {
    hide Stream, AnnexBFrom, InspectOne, Trim, FirstCode;
    var d := Stream(y, t);
    StreamGoesOn(y, t, p);
    var ns := AnnexBFrom(d, 3 + p, count).value;
    NextStep(d, 3 + p, count);
    var i := FirstCode(y, p);
    if i == |y| {
      LastPiece(y, t, p, seen);
      FirstRefused(ns, seen);
    } else {
      FirstCodeInside(y, t, p);
      var next := InspectOne(Avc, ns[0], seen);
      if next.Err? {
        FirstRefused(ns, seen);
      } else {
        StreamGoesOn(y, t, i);
        OpeningRefused(y, t, i + 3, next.value, count + 1);
      }
    }
  }

  lemma StreamGoesOn(y: seq<byte>, t: seq<byte>, i: nat)
    requires i <= |y|
    ensures 3 + i <= |Stream(y, t)| && (i < |y| ==> 3 + i < |Stream(y, t)|)
  {
  }

  // ----- How it can be read on -----

  /** z goes on with the last unit without a start code, up to the one that follows it. */
  ghost predicate Quiet(z: seq<byte>) {
    && |z| >= 3 && z[0] == 0 && z[1] == 0 && z[2] != 1 && z[|z| - 1] != 0
    && forall j {:trigger CodeAt(z + [0, 0, 1], j)} | 0 <= j < |z| :: !CodeAt(z + [0, 0, 1], j)
  }

  /** The last unit then ends where z does. */
  lemma QuietEnd(y: seq<byte>, z: seq<byte>, r: seq<byte>, p: nat)
    requires p <= |y| && FirstCode(y, p) == |y| && Quiet(z)
    ensures var d := Stream(y, z + ([0, 0, 1] + r)); var i := 3 + |y| + |z|;
            && FirstCode(d, 3 + p) == i && i < |d| && d[3 + p..i] == y[p..] + z
            && d[i + 3..] == r && Trim(d[3 + p..i]) == y[p..] + z
  {
    var t := z + ([0, 0, 1] + r);
    var d, i := Stream(y, t), 3 + |y| + |z|;
    assert d[i] == 0 && d[i + 1] == 0 && d[i + 2] == 1;
    forall j {:trigger CodeAt(d, j)} | 3 + p <= j < i
      ensures !CodeAt(d, j)
    {
      if j <= |y| {
        CodesAgree(y, t, j - 3);
        assert !CodeAt(y, j - 3);
      } else if j < 3 + |y| {
        assert d[3 + |y|] == 0 && d[4 + |y|] == 0;
      } else {
        var k := j - 3 - |y|;
        var w := z + [0, 0, 1];
        assert !CodeAt(w, k);
        assert d[j] == w[k] && d[j + 1] == w[k + 1] && d[j + 2] == w[k + 2];
      }
    }
    FirstCodeIs(d, 3 + p, i);
    assert d[3 + p..i] == y[p..] + z;
    assert d[i + 3..] == r;
    var s := y[p..] + z;
    TrimDropsZeros(s, 0);
    assert s + ZeroBytes(0) == s;
  }

  lemma PrependStep(d: seq<byte>, p: nat, count: nat, rest: seq<Nal>)
    requires p <= |d| && FirstCode(d, p) < |d| && Trim(d[p..FirstCode(d, p)]) != [] && count < MAX_NALS
    requires AnnexBFrom(d, FirstCode(d, p) + 3, count + 1) == Ok(rest)
    ensures AnnexBFrom(d, p, count) == Ok([Trim(d[p..FirstCode(d, p)])] + rest)
  {
    TrimAtStart(d, p);
    hide Trim, FirstCode;
  }

  lemma InspectMore(u: Nal, rest: seq<Nal>, seen: Seen)
    requires InspectOne(Avc, u, seen).Ok?
    ensures Inspect(Avc, [u] + rest, seen) == Inspect(Avc, rest, InspectOne(Avc, u, seen).value)
  {
    hide InspectOne;
    assert ([u] + rest)[1..] == rest;
  }

  /** Where the opening is not refused, the units after it decide: us are all units read, rest those that follow. */
  lemma {:induction false} OpeningReadsOn(y: seq<byte>, z: seq<byte>, r: seq<byte>, p: nat, seen: Seen, count: nat,
        rest: seq<Nal>) returns (us: seq<Nal>)
    requires p <= |y| && Quiet(z) && Opening(y, p, seen).Ok? && count + Pieces(y, p) <= MAX_NALS
    requires AnnexBFrom(Stream(y, z + ([0, 0, 1] + r)), 6 + |y| + |z|, count + Pieces(y, p)) == Ok(rest)
    ensures AnnexBFrom(Stream(y, z + ([0, 0, 1] + r)), 3 + p, count) == Ok(us)
    ensures Inspect(Avc, us, seen) == Inspect(Avc, rest, Opening(y, p, seen).value)
    ensures forall n | n in rest :: n in us
    decreases |y| - p
  {
    hide Stream, AnnexBFrom, InspectOne, Trim, FirstCode, Quiet, Inspect;
    var t := z + ([0, 0, 1] + r);
    var d := Stream(y, t);
    StreamGoesOn(y, t, p);
    var i := FirstCode(y, p);
    if i == |y| {
      QuietEnd(y, z, r, p);
      var u := y[p..] + z;
      PrependStep(d, 3 + p, count, rest);
      QuietBegins(y, z, p, seen);
      us := [u] + rest;
      InspectMore(u, rest, seen);
    } else {
      FirstCodeInside(y, t, p);
      StreamGoesOn(y, t, i);
      var u := Trim(y[p..i]);
      var next := InspectOne(Avc, u, seen).value;
      var more := OpeningReadsOn(y, z, r, i + 3, next, count + 1, rest);
      PrependStep(d, 3 + p, count, more);
      us := [u] + more;
      InspectMore(u, more, seen);
    }
  }

  lemma QuietBegins(y: seq<byte>, z: seq<byte>, p: nat, seen: Seen)
    requires p < |y| && Quiet(z)
    ensures InspectOne(Avc, y[p..] + z, seen) == InspectOne(Avc, y[p..] + [0], seen)
  {
    InspectOneLike(y[p..] + z, y[p..] + [0], seen);
  }

  /** Units that are read take four bytes each with the code behind them. */
  lemma {:induction false} FewPieces(y: seq<byte>, p: nat, seen: Seen)
    requires p <= |y| && Opening(y, p, seen).Ok?
    ensures 4 * Pieces(y, p) <= |y| - p + 4
    decreases |y| - p
  {
    hide InspectOne;
    var i := FirstCode(y, p);
    if i < |y| {
      TrimKeeps(y[p..i]);
      FewPieces(y, i + 3, InspectOne(Avc, Trim(y[p..i]), seen).value);
    }
  }

  /** An SPS without start codes opens as its length byte says: a unit of any valid kind but a slice. */
  lemma CodeFreeOpening(x: byte, s: Nal)
    requires s != [] && 1 < s[0] < 128
    requires forall j {:trigger CodeAt(s, j)} | 0 <= j < |s| :: !CodeAt(s, j)
    ensures Opening([x] + s, 0, None).Ok? <==> NalType(Avc, [x]).Ok? && !IsVcl(Avc, NalType(Avc, [x]).value)
  {
    var y := [x] + s;
    forall j {:trigger CodeAt(y, j)} | 0 <= j < |y|
      ensures !CodeAt(y, j)
    {
      if 0 < j && j + 3 <= |y| {
        assert y[j] == s[j - 1] && y[j + 1] == s[j] && y[j + 2] == s[j + 1];
        assert !CodeAt(s, j - 1);
      }
    }
    FirstCodeIs(y, 0, |y|);
    var v := y[0..] + [0];
    assert v[0] == x && v[1] == s[0];
    assert NalType(Avc, v) == NalType(Avc, [x]);
  }
}
