/** Emulation prevention: sections 7.3.1 and 7.4.1 of ITU-T H.264. */
module Rbsp {
  import opened Results

  /** Drops every emulation_prevention_three_byte; zeros counts the zero bytes just before s. */
  function Unescape(s: seq<byte>, zeros: nat): seq<byte> {
    if s == [] then []
    else if zeros >= 2 && s[0] == 3 then Unescape(s[1..], 0)
    else [s[0]] + Unescape(s[1..], if s[0] == 0 then zeros + 1 else 0)
  }

  /** The RBSP of a NAL unit with a one-byte header. */
  function DecodeNal(nal: seq<byte>): seq<byte>
    requires |nal| > 0
  {
    Unescape(nal[1..], 0)
  }

  /** What the encoder writes after zeros zero bytes. */
  function Escape(s: seq<byte>, zeros: nat): seq<byte> {
    if s == [] then []
    else if zeros >= 2 && s[0] <= 3 then [3, s[0]] + Escape(s[1..], if s[0] == 0 then 1 else 0)
    else [s[0]] + Escape(s[1..], if s[0] == 0 then zeros + 1 else 0)
  }

  lemma UnescapeCons(x: byte, s: seq<byte>, zeros: nat)
    ensures Unescape([x] + s, zeros) ==
            if zeros >= 2 && x == 3 then Unescape(s, 0) else [x] + Unescape(s, if x == 0 then zeros + 1 else 0)
  {
    assert ([x] + s)[1..] == s;
  }

  /** A byte written as it is reads as it is. */
  lemma PlainByte(x: byte, tail: seq<byte>, zeros: nat)
    requires !(zeros >= 2 && x <= 3)
    ensures Unescape([x] + tail, zeros) == [x] + Unescape(tail, if x == 0 then zeros + 1 else 0)
  {
    UnescapeCons(x, tail, zeros);
  }

  /** A byte written behind an emulation_prevention_three_byte reads without it. */
  lemma EscapedByte(x: byte, tail: seq<byte>, zeros: nat)
    requires zeros >= 2 && x <= 3
    ensures Unescape([3, x] + tail, zeros) == [x] + Unescape(tail, if x == 0 then 1 else 0)
  {
    hide Unescape;
    assert [3, x] + tail == [3] + ([x] + tail);
    UnescapeCons(3, [x] + tail, zeros);
    UnescapeCons(x, tail, 0);
  }

  lemma {:induction false} UnescapeInvertsEscape(s: seq<byte>, zeros: nat)
    ensures Unescape(Escape(s, zeros), zeros) == s
  {
    if s != [] {
      var x, rest := s[0], s[1..];
      var escaped := zeros >= 2 && x <= 3;
      var next := if x != 0 then 0 else if escaped then 1 else zeros + 1;
      UnescapeInvertsEscape(rest, next);
      hide Unescape;
      if escaped {
        EscapedByte(x, Escape(rest, next), zeros);
      } else {
        PlainByte(x, Escape(rest, next), zeros);
      }
      hide Escape;
      assert s == [x] + rest;
    }
  }

  /** No three bytes read 00 00 00, 00 00 01 or 00 00 02. */
  ghost predicate NoEmulation(s: seq<byte>) {
    forall i {:trigger s[i]} | 0 <= i < |s| - 2 :: !(s[i] == 0 && s[i + 1] == 0 && s[i + 2] <= 2)
  }

  /** The same as a left-to-right scan that remembers how many zero bytes it has just passed. */
  ghost predicate Clean(s: seq<byte>, zeros: nat) {
    s != [] ==> (zeros >= 2 ==> s[0] > 2) && Clean(s[1..], if s[0] == 0 then zeros + 1 else 0)
  }

  lemma {:induction false} CleanHasNoEmulation(s: seq<byte>, zeros: nat)
    requires Clean(s, zeros)
    ensures NoEmulation(s)
    ensures zeros >= 1 && |s| >= 2 && s[0] == 0 ==> s[1] > 2
  {
    if s != [] {
      var rest := s[1..];
      CleanHasNoEmulation(rest, if s[0] == 0 then zeros + 1 else 0);
      forall i | 0 <= i < |s| - 2
        ensures !(s[i] == 0 && s[i + 1] == 0 && s[i + 2] <= 2)
      {
        assert i > 0 ==> s[i] == rest[i - 1];
        assert s[i + 1] == rest[i] && s[i + 2] == rest[i + 1];
      }
    }
  }

  lemma {:induction false} EscapeIsClean(s: seq<byte>, zeros: nat)
    requires zeros <= 2
    ensures Clean(Escape(s, zeros), zeros)
  {
    if s != [] {
      var rest := s[1..];
      if zeros >= 2 && s[0] <= 3 {
        var next := if s[0] == 0 then 1 else 0;
        EscapeIsClean(rest, next);
        var tail := [s[0]] + Escape(rest, next);
        assert tail[1..] == Escape(rest, next);
        assert Clean(tail, 0);
        assert Escape(s, zeros)[1..] == tail;
      } else {
        var next := if s[0] == 0 then zeros + 1 else 0;
        EscapeIsClean(rest, next);
        assert Escape(s, zeros)[1..] == Escape(rest, next);
      }
    }
  }

  lemma {:induction false} EscapeKeepsLast(s: seq<byte>, zeros: nat)
    requires s != []
    ensures Escape(s, zeros) != [] && Escape(s, zeros)[|Escape(s, zeros)| - 1] == s[|s| - 1]
  {
    if |s| > 1 {
      EscapeKeepsLast(s[1..], if s[0] != 0 then 0 else if zeros >= 2 then 1 else zeros + 1);
    }
  }

  /** The header byte, then the RBSP with emulation prevention. */
  method EncodeNal(header: byte, rbsp: seq<byte>) returns (out: seq<byte>)
    ensures |out| > 0 && out[0] == header && out[1..] == Escape(rbsp, 0)
  {
    out := [header];
    var zeros := 0;
    ghost var done := [];
    for i := 0 to |rbsp|
      invariant 0 <= zeros <= 2 && out == [header] + done
      invariant done + Escape(rbsp[i..], zeros) == Escape(rbsp, 0)
    {
      var byte := rbsp[i];
      EscapeStep(done, rbsp[i..], zeros);
      assert rbsp[i..][1..] == rbsp[i + 1..];
      if zeros >= 2 && byte <= 3 {
        out := out + [3];
        done := done + [3];
        zeros := 0;
      }
      out := out + [byte];
      done := done + [byte];
      zeros := if byte == 0 then zeros + 1 else 0;
    }
  }

  lemma EscapeStep(done: seq<byte>, s: seq<byte>, zeros: nat)
    requires s != []
    ensures done + Escape(s, zeros) ==
            if zeros >= 2 && s[0] <= 3 then done + [3] + [s[0]] + Escape(s[1..], if s[0] == 0 then 1 else 0)
            else done + [s[0]] + Escape(s[1..], if s[0] == 0 then zeros + 1 else 0)
  {
    var rest := Escape(s[1..], if s[0] != 0 then 0 else if zeros >= 2 then 1 else zeros + 1);
    assert done + ([s[0]] + rest) == done + [s[0]] + rest;
    assert done + ([3, s[0]] + rest) == done + [3] + [s[0]] + rest;
  }

  /** The whole promise of the encoder: it decodes to what it was given and carries no start code. */
  lemma EncodedNal(out: seq<byte>, rbsp: seq<byte>)
    requires |out| > 0 && out[1..] == Escape(rbsp, 0)
    ensures DecodeNal(out) == rbsp
    ensures NoEmulation(out[1..])
    ensures rbsp != [] ==> |out| > 1 && out[|out| - 1] == rbsp[|rbsp| - 1]
  {
    UnescapeInvertsEscape(rbsp, 0);
    EscapeIsClean(rbsp, 0);
    CleanHasNoEmulation(out[1..], 0);
    if rbsp != [] {
      EscapeKeepsLast(rbsp, 0);
      assert out[|out| - 1] == out[1..][|out| - 2];
    }
  }

  lemma {:induction false} UnescapeShrinks(s: seq<byte>, zeros: nat)
    ensures |Unescape(s, zeros)| <= |s|
  {
    if s != [] {
      if zeros >= 2 && s[0] == 3 {
        UnescapeShrinks(s[1..], 0);
      } else {
        UnescapeShrinks(s[1..], if s[0] == 0 then zeros + 1 else 0);
      }
    }
  }

  /** Escaping adds at most one byte for every two. */
  lemma {:induction false} EscapeGrowth(s: seq<byte>, zeros: nat)
    ensures 2 * |Escape(s, zeros)| <= 3 * |s| + zeros
  {
    if s != [] {
      if zeros >= 2 && s[0] <= 3 {
        EscapeGrowth(s[1..], if s[0] == 0 then 1 else 0);
      } else {
        EscapeGrowth(s[1..], if s[0] == 0 then zeros + 1 else 0);
      }
    }
  }

  /** A NAL unit that survives Annex-B framing: not empty, no start code inside, no trailing zero. */
  ghost predicate AnnexBSafe(nal: seq<byte>) {
    && nal != [] && nal[|nal| - 1] != 0
    && forall i {:trigger nal[i]} | 0 <= i < |nal| - 2 :: !(nal[i] == 0 && nal[i + 1] == 0 && nal[i + 2] == 1)
  }

  lemma EncodedNalIsSafe(out: seq<byte>, rbsp: seq<byte>)
    requires |out| > 0 && out[0] != 0 && out[1..] == Escape(rbsp, 0)
    requires rbsp != [] && rbsp[|rbsp| - 1] != 0
    ensures AnnexBSafe(out)
  {
    EncodedNal(out, rbsp);
    forall i | 0 <= i < |out| - 2
      ensures !(out[i] == 0 && out[i + 1] == 0 && out[i + 2] == 1)
    {
      if i > 0 {
        assert out[i] == out[1..][i - 1];
      }
    }
  }
}
