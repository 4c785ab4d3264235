/** Readers of the SPS syntax see only the bits they consume: moving those bits moves the read and nothing else. */
module SpsLocality {
  import opened Results
  import opened BitReader
  import opened SpsSyntax

  lemma SeMoves(b: seq<bool>, lo: nat, hi: nat, c: seq<bool>, d: int, p: nat)
    requires Moved(b, lo, hi, c, d) && lo <= p && SeAt(b, p).Ok? && SeAt(b, p).value.1 <= hi
    ensures SeAt(c, p + d) == Ok((SeAt(b, p).value.0, SeAt(b, p).value.1 + d))
  {
    UeMoves(b, lo, hi, c, d, p);
  }

  lemma BitMoves(b: seq<bool>, lo: nat, hi: nat, c: seq<bool>, d: int, p: nat)
    requires Moved(b, lo, hi, c, d) && lo <= p < hi
    ensures BitAt(b, p).Ok? && BitAt(c, p + d) == Ok((b[p], p + 1 + d))
  {
    assert b[p] == c[p + d];
  }

  lemma {:induction false} SeListMoves(b: seq<bool>, lo: nat, hi: nat, c: seq<bool>, d: int, p: nat, n: nat)
    requires Moved(b, lo, hi, c, d) && lo <= p && SeListAt(b, p, n).Ok? && SeListAt(b, p, n).value.1 <= hi
    ensures SeListAt(c, p + d, n) == Ok((SeListAt(b, p, n).value.0, SeListAt(b, p, n).value.1 + d))
    decreases n
  {
    hide UeAt;
    if n > 0 {
      var q := SeAt(b, p).value.1;
      SeListMoves(b, lo, hi, c, d, q, n - 1);
      SeMoves(b, lo, hi, c, d, p);
    }
  }

  lemma {:induction false} UeListMoves(b: seq<bool>, lo: nat, hi: nat, c: seq<bool>, d: int, p: nat, n: nat)
    requires Moved(b, lo, hi, c, d) && lo <= p && UeListAt(b, p, n).Ok? && UeListAt(b, p, n).value.1 <= hi
    ensures UeListAt(c, p + d, n) == Ok((UeListAt(b, p, n).value.0, UeListAt(b, p, n).value.1 + d))
    decreases n
  {
    hide UeAt;
    if n > 0 {
      var q := UeAt(b, p).value.1;
      UeListMoves(b, lo, hi, c, d, q, n - 1);
      UeMoves(b, lo, hi, c, d, p);
    }
  }

  lemma {:induction false} SchedulesMove(b: seq<bool>, lo: nat, hi: nat, c: seq<bool>, d: int, p: nat, n: nat)
    requires Moved(b, lo, hi, c, d) && lo <= p && SchedulesAt(b, p, n).Ok? && SchedulesAt(b, p, n).value.1 <= hi
    ensures SchedulesAt(c, p + d, n) == Ok((SchedulesAt(b, p, n).value.0, SchedulesAt(b, p, n).value.1 + d))
    decreases n
  {
    hide UeAt;
    if n > 0 {
      var q := UeAt(b, p).value.1;
      var r := UeAt(b, q).value.1;
      SchedulesMove(b, lo, hi, c, d, r + 1, n - 1);
      UeMoves(b, lo, hi, c, d, p);
      UeMoves(b, lo, hi, c, d, q);
      BitMoves(b, lo, hi, c, d, r);
    }
  }

  // ----- The header, whose bits stay where they are -----

  lemma PicOrderMoves(b: seq<bool>, lo: nat, hi: nat, c: seq<bool>, d: int, p: nat)
    requires Moved(b, lo, hi, c, d) && lo <= p && PicOrderAt(b, p).Ok? && PicOrderAt(b, p).value.1 <= hi
    ensures PicOrderAt(c, p + d) == Ok((PicOrderAt(b, p).value.0, PicOrderAt(b, p).value.1 + d))
  {
    hide UeAt;
    var (kind, q) := UeAt(b, p).value;
    if kind == 0 {
      UeMoves(b, lo, hi, c, d, q);
    } else if kind == 1 {
      var q2 := SeAt(b, q + 1).value.1;
      var q3 := SeAt(b, q2).value.1;
      var (n, q4) := UeAt(b, q3).value;
      SeListMoves(b, lo, hi, c, d, q4, n);
      UeMoves(b, lo, hi, c, d, q3);
      SeMoves(b, lo, hi, c, d, q2);
      SeMoves(b, lo, hi, c, d, q + 1);
      BitMoves(b, lo, hi, c, d, q);
    }
    UeMoves(b, lo, hi, c, d, p);
  }

  lemma CropMoves(b: seq<bool>, lo: nat, hi: nat, c: seq<bool>, d: int, p: nat)
    requires Moved(b, lo, hi, c, d) && lo <= p && CropAt(b, p).Ok? && CropAt(b, p).value.1 <= hi
    ensures CropAt(c, p + d) == Ok((CropAt(b, p).value.0, CropAt(b, p).value.1 + d))
  {
    hide UeAt;
    if b[p] {
      var q1 := UeAt(b, p + 1).value.1;
      var q2 := UeAt(b, q1).value.1;
      var q3 := UeAt(b, q2).value.1;
      UeMoves(b, lo, hi, c, d, q3);
      UeMoves(b, lo, hi, c, d, q2);
      UeMoves(b, lo, hi, c, d, q1);
      UeMoves(b, lo, hi, c, d, p + 1);
    }
    BitMoves(b, lo, hi, c, d, p);
  }

  lemma {:induction false} ScalingListMoves(b: seq<bool>, lo: nat, hi: nat, c: seq<bool>, d: int, p: nat, left: nat,
        last: int, next: int)
    requires Moved(b, lo, hi, c, d) && lo <= p && ScalingListAt(b, p, left, last, next).Ok?
    requires ScalingListAt(b, p, left, last, next).value.1 <= hi
    ensures var read := ScalingListAt(b, p, left, last, next).value;
            ScalingListAt(c, p + d, left, last, next) == Ok((read.0, read.1 + d))
    decreases left
  {
    hide SeAt;
    if left > 0 {
      if next == 0 {
        ScalingListMoves(b, lo, hi, c, d, p, left - 1, last, next);
      } else {
        var (delta, q) := SeAt(b, p).value;
        var scale := (last + delta + 256) % 256;
        ScalingListMoves(b, lo, hi, c, d, q, left - 1, if scale == 0 then last else scale, scale);
        SeMoves(b, lo, hi, c, d, p);
      }
    }
  }

  lemma {:induction false} ScalingMatrixMoves(b: seq<bool>, lo: nat, hi: nat, c: seq<bool>, d: int, p: nat, i: nat,
        count: nat)
    requires Moved(b, lo, hi, c, d) && lo <= p && i <= count && ScalingMatrixAt(b, p, i, count).Ok?
    requires ScalingMatrixAt(b, p, i, count).value.1 <= hi
    ensures var read := ScalingMatrixAt(b, p, i, count).value;
            ScalingMatrixAt(c, p + d, i, count) == Ok((read.0, read.1 + d))
    decreases count - i
  {
    hide ScalingListAt;
    if i < count {
      var size := if i < 6 then 16 else 64;
      if b[p] {
        var q := ScalingListAt(b, p + 1, size, 8, 8).value.1;
        ScalingMatrixMoves(b, lo, hi, c, d, q, i + 1, count);
        ScalingListMoves(b, lo, hi, c, d, p + 1, size, 8, 8);
      } else {
        ScalingMatrixMoves(b, lo, hi, c, d, p + 1, i + 1, count);
      }
      BitMoves(b, lo, hi, c, d, p);
    }
  }

  lemma ChromaMoves(b: seq<bool>, lo: nat, hi: nat, c: seq<bool>, d: int, p: nat, profile: nat)
    requires Moved(b, lo, hi, c, d) && lo <= p && OptionalChromaAt(b, p, profile).Ok?
    requires OptionalChromaAt(b, p, profile).value.1 <= hi
    ensures OptionalChromaAt(c, p + d, profile) ==
            Ok((OptionalChromaAt(b, p, profile).value.0, OptionalChromaAt(b, p, profile).value.1 + d))
  {
    hide UeAt, ScalingMatrixAt;
    if HasChromaInfo(profile) {
      var (format, q) := UeAt(b, p).value;
      var q1 := if format == 3 then q + 1 else q;
      var q2 := UeAt(b, q1).value.1;
      var q3 := UeAt(b, q2).value.1;
      if b[q3 + 1] {
        ScalingMatrixMoves(b, lo, hi, c, d, q3 + 2, 0, if format != 3 then 8 else 12);
      }
      BitMoves(b, lo, hi, c, d, q3 + 1);
      BitMoves(b, lo, hi, c, d, q3);
      UeMoves(b, lo, hi, c, d, q2);
      UeMoves(b, lo, hi, c, d, q1);
      if format == 3 {
        BitMoves(b, lo, hi, c, d, q);
      }
      UeMoves(b, lo, hi, c, d, p);
    }
  }

  // ----- The VUI -----

  lemma AspectMoves(b: seq<bool>, lo: nat, hi: nat, c: seq<bool>, d: int, p: nat)
    requires Moved(b, lo, hi, c, d) && lo <= p && AspectAt(b, p).Ok? && AspectAt(b, p).value.1 <= hi
    ensures AspectAt(c, p + d) == Ok((AspectAt(b, p).value.0, AspectAt(b, p).value.1 + d))
  {
    hide UeAt, ValueOf;
    if b[p] {
      if UAt(b, p + 1, 8).value.0 == 255 {
        UMoves(b, lo, hi, c, d, p + 25, 16);
        UMoves(b, lo, hi, c, d, p + 9, 16);
      }
      UMoves(b, lo, hi, c, d, p + 1, 8);
    }
    BitMoves(b, lo, hi, c, d, p);
  }

  lemma OverscanMoves(b: seq<bool>, lo: nat, hi: nat, c: seq<bool>, d: int, p: nat)
    requires Moved(b, lo, hi, c, d) && lo <= p && OverscanAt(b, p).Ok? && OverscanAt(b, p).value.1 <= hi
    ensures OverscanAt(c, p + d) == Ok((OverscanAt(b, p).value.0, OverscanAt(b, p).value.1 + d))
  {
    if b[p] {
      BitMoves(b, lo, hi, c, d, p + 1);
    }
    BitMoves(b, lo, hi, c, d, p);
  }

  lemma LocationMoves(b: seq<bool>, lo: nat, hi: nat, c: seq<bool>, d: int, p: nat)
    requires Moved(b, lo, hi, c, d) && lo <= p && LocationAt(b, p).Ok? && LocationAt(b, p).value.1 <= hi
    ensures LocationAt(c, p + d) == Ok((LocationAt(b, p).value.0, LocationAt(b, p).value.1 + d))
  {
    hide UeAt, ValueOf;
    if b[p] {
      var q := UeAt(b, p + 1).value.1;
      UeMoves(b, lo, hi, c, d, q);
      UeMoves(b, lo, hi, c, d, p + 1);
    }
    BitMoves(b, lo, hi, c, d, p);
  }

  lemma TimingMoves(b: seq<bool>, lo: nat, hi: nat, c: seq<bool>, d: int, p: nat)
    requires Moved(b, lo, hi, c, d) && lo <= p && TimingAt(b, p).Ok? && TimingAt(b, p).value.1 <= hi
    ensures TimingAt(c, p + d) == Ok((TimingAt(b, p).value.0, TimingAt(b, p).value.1 + d))
  {
    hide UeAt, ValueOf;
    if b[p] {
      BitMoves(b, lo, hi, c, d, p + 65);
      UMoves(b, lo, hi, c, d, p + 33, 32);
      UMoves(b, lo, hi, c, d, p + 1, 32);
    }
    BitMoves(b, lo, hi, c, d, p);
  }

  lemma HrdMoves(b: seq<bool>, lo: nat, hi: nat, c: seq<bool>, d: int, p: nat)
    requires Moved(b, lo, hi, c, d) && lo <= p && HrdAt(b, p).Ok? && HrdAt(b, p).value.1 <= hi
    ensures HrdAt(c, p + d) == Ok((HrdAt(b, p).value.0, HrdAt(b, p).value.1 + d))
  {
    hide UeAt, UAt, SchedulesAt;
    if b[p] {
      var (count, q) := UeAt(b, p + 1).value;
      var r := SchedulesAt(b, q + 8, count + 1).value.1;
      UMoves(b, lo, hi, c, d, r + 15, 5);
      UMoves(b, lo, hi, c, d, r + 10, 5);
      UMoves(b, lo, hi, c, d, r + 5, 5);
      UMoves(b, lo, hi, c, d, r, 5);
      SchedulesMove(b, lo, hi, c, d, q + 8, count + 1);
      UMoves(b, lo, hi, c, d, q + 4, 4);
      UMoves(b, lo, hi, c, d, q, 4);
      UeMoves(b, lo, hi, c, d, p + 1);
    }
    BitMoves(b, lo, hi, c, d, p);
  }

  lemma RestrictionMoves(b: seq<bool>, lo: nat, hi: nat, c: seq<bool>, d: int, p: nat)
    requires Moved(b, lo, hi, c, d) && lo <= p && RestrictionAt(b, p).Ok? && RestrictionAt(b, p).value.1 <= hi
    ensures RestrictionAt(c, p + d) == Ok((RestrictionAt(b, p).value.0, RestrictionAt(b, p).value.1 + d))
  {
    hide UeAt;
    if b[p] {
      UeListMoves(b, lo, hi, c, d, p + 2, 6);
      BitMoves(b, lo, hi, c, d, p + 1);
    }
    BitMoves(b, lo, hi, c, d, p);
  }

  /** The VUI after video_signal_type reads the same wherever its bits stand. */
  lemma TailMoves(b: seq<bool>, lo: nat, hi: nat, c: seq<bool>, d: int, p: nat)
    requires Moved(b, lo, hi, c, d) && lo <= p && TailAt(b, p).Ok? && TailAt(b, p).value.1 <= hi
    ensures TailAt(c, p + d) == Ok((TailAt(b, p).value.0, TailAt(b, p).value.1 + d))
  {
    hide LocationAt, TimingAt, HrdAt, RestrictionAt;
    var p1 := LocationAt(b, p).value.1;
    var p2 := TimingAt(b, p1).value.1;
    var (nal, p3) := HrdAt(b, p2).value;
    var (vcl, p4) := HrdAt(b, p3).value;
    var p5 := if nal.Some? || vcl.Some? then p4 + 1 else p4;
    RestrictionMoves(b, lo, hi, c, d, p5 + 1);
    BitMoves(b, lo, hi, c, d, p5);
    if nal.Some? || vcl.Some? {
      BitMoves(b, lo, hi, c, d, p4);
    }
    HrdMoves(b, lo, hi, c, d, p3);
    HrdMoves(b, lo, hi, c, d, p2);
    TimingMoves(b, lo, hi, c, d, p1);
    LocationMoves(b, lo, hi, c, d, p);
  }

  lemma VuiStartMoves(b: seq<bool>, lo: nat, hi: nat, c: seq<bool>, d: int, p: nat)
    requires Moved(b, lo, hi, c, d) && lo <= p && VuiStartAt(b, p).Ok? && VuiStartAt(b, p).value.1 <= hi
    ensures VuiStartAt(c, p + d) == Ok((VuiStartAt(b, p).value.0, VuiStartAt(b, p).value.1 + d))
  {
    hide AspectAt, OverscanAt;
    var q := AspectAt(b, p).value.1;
    OverscanMoves(b, lo, hi, c, d, q);
    AspectMoves(b, lo, hi, c, d, p);
  }

  lemma FrameMoves(b: seq<bool>, lo: nat, hi: nat, c: seq<bool>, d: int, p: nat)
    requires Moved(b, lo, hi, c, d) && lo <= p && FrameAt(b, p).Ok? && FrameAt(b, p).value.1 <= hi
    ensures FrameAt(c, p + d) == Ok((FrameAt(b, p).value.0, FrameAt(b, p).value.1 + d))
  {
    hide UeAt, CropAt;
    var p6 := UeAt(b, p).value.1;
    var p7 := UeAt(b, p6 + 1).value.1;
    var p8 := UeAt(b, p7).value.1;
    var p9 := if b[p8] then p8 + 1 else p8 + 2;
    CropMoves(b, lo, hi, c, d, p9 + 1);
    BitMoves(b, lo, hi, c, d, p9);
    if !b[p8] {
      BitMoves(b, lo, hi, c, d, p8 + 1);
    }
    BitMoves(b, lo, hi, c, d, p8);
    UeMoves(b, lo, hi, c, d, p7);
    UeMoves(b, lo, hi, c, d, p6 + 1);
    BitMoves(b, lo, hi, c, d, p6);
    UeMoves(b, lo, hi, c, d, p);
  }

  /** A header reads the same from any bit string that begins with its bits. */
  lemma HeaderStays(b: seq<bool>, hi: nat, c: seq<bool>)
    requires Moved(b, 0, hi, c, 0) && HeaderAt(b).Ok? && HeaderAt(b).value.1 <= hi
    ensures HeaderAt(c) == HeaderAt(b)
  {
    hide UeAt, UAt, OptionalChromaAt, PicOrderAt, FrameAt, Moved;
    var profile := UAt(b, 0, 8).value.0;
    var p2 := UeAt(b, 24).value.1;
    var p3 := OptionalChromaAt(b, p2, profile).value.1;
    var p4 := UeAt(b, p3).value.1;
    var p5 := PicOrderAt(b, p4).value.1;
    FrameMoves(b, 0, hi, c, 0, p5);
    PicOrderMoves(b, 0, hi, c, 0, p4);
    UeMoves(b, 0, hi, c, 0, p3);
    ChromaMoves(b, 0, hi, c, 0, p2, profile);
    UeMoves(b, 0, hi, c, 0, 24);
    UMoves(b, 0, hi, c, 0, 8, 16);
    UMoves(b, 0, hi, c, 0, 0, 8);
  }
}
