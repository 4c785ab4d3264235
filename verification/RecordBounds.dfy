/** The avcC and hvcC records: the bounding scan of both, and the older avcC extractor, over one layout. */
module RecordBounds {
  import opened Results
  import opened AccessUnits

  const MAX_PARAMETER_SETS: nat := 64

  // ----- The layout, section 5.3.3.1 of ISO/IEC 14496-15 -----

  function U16(d: seq<byte>, i: nat): (n: nat)
    requires i + 2 <= |d|
    ensures n < 0x1_0000
  {
    256 * (d[i] as int) + d[i + 1] as int
  }

  /** The end of the parameter set whose two-byte length stands at offset. */
  function SetEndAt(d: seq<byte>, offset: nat): (end: Result<nat, BitstreamError>)
    ensures end.Ok? ==> offset + 2 < end.value <= |d|
  {
    if offset + 2 > |d| then Err(Truncated)
    else
      var end := offset + 2 + U16(d, offset);
      if end == offset + 2 then Err(Malformed) else if end > |d| then Err(Truncated) else Ok(end)
  }

  /** count parameter sets from offset on, each with a two-byte length, and the offset after them. */
  function SetsAt(d: seq<byte>, offset: nat, count: nat): (r: Result<(seq<Nal>, nat), BitstreamError>)
    ensures r.Ok? ==> |r.value.0| == count && offset <= r.value.1 && (offset <= |d| ==> r.value.1 <= |d|)
    decreases count
  {
    if count == 0 then Ok(([], offset))
    else
      var end :- SetEndAt(d, offset);
      var (rest, after) :- SetsAt(d, end, count - 1);
      Ok(([d[offset + 2..end]] + rest, after))
  }

  /** The parameter sets of an avcC record, and the offset after them. */
  function AvcSets(d: seq<byte>): Result<(seq<Nal>, seq<Nal>, nat), BitstreamError> {
    if |d| < 6 then Err(Truncated)
    else
      var (sps, i) :- SetsAt(d, 6, d[5] % 32);
      if i >= |d| then Err(Truncated)
      else
        var (pps, j) :- SetsAt(d, i + 1, d[i]);
        Ok((sps, pps, j))
  }

  // ----- The same layout, written -----

  function Be16(n: nat): (s: seq<byte>)
    ensures |s| == 2
  {
    [n / 256 % 256, n % 256]
  }

  /** Parameter sets, each behind its two-byte length. */
  function SetsBytes(sets: seq<Nal>): seq<byte> {
    if sets == [] then [] else Be16(|sets[0]|) + sets[0] + SetsBytes(sets[1..])
  }

  predicate Storable(sets: seq<Nal>) {
    forall s | s in sets :: 0 < |s| < 0x1_0000
  }

  lemma SetHead(d: seq<byte>, offset: nat)
    requires offset + 2 <= |d|
    ensures Be16(U16(d, offset)) == d[offset..offset + 2]
  {
  }

  lemma U16Of(d: seq<byte>, offset: nat, n: nat)
    requires n < 0x1_0000 && offset + 2 <= |d| && d[offset..offset + 2] == Be16(n)
    ensures U16(d, offset) == n
  {
    var s := d[offset..offset + 2];
    assert d[offset] == s[0] && d[offset + 1] == s[1];
  }

  lemma ThreeParts(d: seq<byte>, a: nat, b: nat, c: nat, e: nat)
    requires a <= b <= c <= e <= |d|
    ensures d[a..e] == d[a..b] + d[b..c] + d[c..e]
  {
  }

  /** A written set at offset, and what follows it. */
  lemma SetParts(d: seq<byte>, offset: nat, length: seq<byte>, s: Nal, rest: seq<byte>)
    requires |length| == 2 && offset + 2 + |s| + |rest| <= |d|
    requires d[offset..offset + 2 + |s| + |rest|] == length + s + rest
    ensures var end := offset + 2 + |s|;
            d[offset..offset + 2] == length && d[offset + 2..end] == s && d[end..end + |rest|] == rest
  {
    var hi := offset + 2 + |s| + |rest|;
    var w := d[offset..hi];
    assert w[0..2] == length && w[2..2 + |s|] == s && w[2 + |s|..2 + |s| + |rest|] == rest;
    SliceOfSlice(d, offset, hi, 0, 2);
    SliceOfSlice(d, offset, hi, 2, 2 + |s|);
    SliceOfSlice(d, offset, hi, 2 + |s|, 2 + |s| + |rest|);
  }

  lemma {:induction false} SetsAreWritten(d: seq<byte>, offset: nat, count: nat)
    requires offset <= |d| && SetsAt(d, offset, count).Ok?
    ensures var (sets, end) := SetsAt(d, offset, count).value;
            d[offset..end] == SetsBytes(sets) && Storable(sets)
    decreases count
  {
    hide U16, Be16;
    if count > 0 {
      var end := offset + 2 + U16(d, offset);
      var (sets, after) := SetsAt(d, offset, count).value;
      SetsAreWritten(d, end, count - 1);
      SetHead(d, offset);
      assert sets[0] == d[offset + 2..end] && sets[1..] == SetsAt(d, end, count - 1).value.0;
      hide SetsAt;
      ThreeParts(d, offset, offset + 2, end, after);
    }
  }

  lemma SetsUnfold(sets: seq<Nal>)
    requires Storable(sets) && sets != []
    ensures SetsBytes(sets) == Be16(|sets[0]|) + sets[0] + SetsBytes(sets[1..])
    ensures 0 < |sets[0]| < 0x1_0000 && Storable(sets[1..])
  {
    assert sets[0] in sets;
  }

  lemma NoSets(d: seq<byte>, offset: nat)
    ensures SetsBytes([]) == [] && SetsAt(d, offset, 0) == Ok(([], offset))
  {
  }

  lemma {:induction false} WrittenSetsAreRead(d: seq<byte>, offset: nat, sets: seq<Nal>)
    requires Storable(sets) && offset + |SetsBytes(sets)| <= |d|
    requires d[offset..offset + |SetsBytes(sets)|] == SetsBytes(sets)
    ensures SetsAt(d, offset, |sets|) == Ok((sets, offset + |SetsBytes(sets)|))
    decreases |sets|
  {
    hide U16, Be16, SetsBytes, SetsAt, Storable;
    if sets == [] {
      NoSets(d, offset);
    } else {
      var s, rest := sets[0], SetsBytes(sets[1..]);
      var end := offset + 2 + |s|;
      SetsUnfold(sets);
      assert |SetsBytes(sets)| == 2 + |s| + |rest|;
      SetParts(d, offset, Be16(|s|), s, rest);
      U16Of(d, offset, |s|);
      WrittenSetsAreRead(d, end, sets[1..]);
      SetIsRead(d, offset, s, end, sets[1..], end + |rest|);
      assert sets == [s] + sets[1..];
    }
  }

  lemma SetIsRead(d: seq<byte>, offset: nat, s: Nal, end: nat, rest: seq<Nal>, after: nat)
    requires s != [] && offset + 2 <= end <= |d| && U16(d, offset) == |s| && end == offset + 2 + |s|
    requires d[offset + 2..end] == s && SetsAt(d, end, |rest|) == Ok((rest, after))
    ensures SetsAt(d, offset, |rest| + 1) == Ok(([s] + rest, after))
  {
    hide U16;
  }

  /** count sets are read from offset exactly when those sets stand there, written. */
  lemma SetsExactly(d: seq<byte>, offset: nat, sets: seq<Nal>, end: nat)
    requires offset <= |d|
    ensures SetsAt(d, offset, |sets|) == Ok((sets, end))
            <==> Storable(sets) && offset <= end <= |d| && d[offset..end] == SetsBytes(sets)
  {
    hide SetsAt, SetsBytes, Storable;
    if SetsAt(d, offset, |sets|) == Ok((sets, end)) {
      SetsAreWritten(d, offset, |sets|);
    }
    if Storable(sets) && offset <= end <= |d| && d[offset..end] == SetsBytes(sets) {
      WrittenSetsAreRead(d, offset, sets);
    }
  }

  // ----- The arrays of an hvcC record, section 8.3.3.1 of ISO/IEC 14496-15 -----

  /** One array: its header byte, with the unit type in six bits, and its parameter sets. */
  datatype HvcArray = HvcArray(header: byte, sets: seq<Nal>)

  predicate IsParameterKind(header: byte) {
    32 <= header % 64 <= 34
  }

  /** One array from offset on, when seen sets have been walked already, and the offset after it. */
  function HvcArrayAt(d: seq<byte>, offset: nat, seen: nat): (r: Result<(HvcArray, nat), BitstreamError>)
    ensures r.Ok? ==> offset <= r.value.1 <= |d|
  {
    if offset >= |d| then Err(Truncated)
    else if !IsParameterKind(d[offset]) then Err(Unsupported)
    else if offset + 3 > |d| then Err(Truncated)
    else
      var count := U16(d, offset + 1);
      if seen + count > MAX_PARAMETER_SETS then Err(Limit)
      else
        var (sets, after) :- SetsAt(d, offset + 3, count);
        Ok((HvcArray(d[offset], sets), after))
  }

  function HvcArraysAt(d: seq<byte>, offset: nat, n: nat, seen: nat): (r: Result<(seq<HvcArray>, nat), BitstreamError>)
    ensures r.Ok? ==> |r.value.0| == n && offset <= r.value.1 && (offset <= |d| ==> r.value.1 <= |d|)
    decreases n
  {
    if n == 0 then Ok(([], offset))
    else
      var (a, after) :- HvcArrayAt(d, offset, seen);
      var (rest, end) :- HvcArraysAt(d, after, n - 1, seen + |a.sets|);
      Ok(([a] + rest, end))
  }

  function ArraysBytes(arrays: seq<HvcArray>): seq<byte> {
    if arrays == [] then []
    else [arrays[0].header] + Be16(|arrays[0].sets|) + SetsBytes(arrays[0].sets) + ArraysBytes(arrays[1..])
  }

  function SetCount(arrays: seq<HvcArray>): nat {
    if arrays == [] then 0 else |arrays[0].sets| + SetCount(arrays[1..])
  }

  predicate StorableArrays(arrays: seq<HvcArray>) {
    forall a | a in arrays :: IsParameterKind(a.header) && Storable(a.sets)
  }

  lemma {:induction false} ArraysAreWritten(d: seq<byte>, offset: nat, n: nat, seen: nat)
    requires offset <= |d| && seen <= MAX_PARAMETER_SETS && HvcArraysAt(d, offset, n, seen).Ok?
    ensures var (arrays, end) := HvcArraysAt(d, offset, n, seen).value;
            && d[offset..end] == ArraysBytes(arrays) && StorableArrays(arrays)
            && seen + SetCount(arrays) <= MAX_PARAMETER_SETS
    decreases n
  {
    hide SetsBytes, HvcArrayAt, Be16, IsParameterKind, Storable;
    if n > 0 {
      var (a, after) := HvcArrayAt(d, offset, seen).value;
      var (arrays, end) := HvcArraysAt(d, offset, n, seen).value;
      ArrayIsWritten(d, offset, seen);
      ArraysAreWritten(d, after, n - 1, seen + |a.sets|);
      assert arrays[0] == a && arrays[1..] == HvcArraysAt(d, after, n - 1, seen + |a.sets|).value.0;
      hide HvcArraysAt;
      assert d[offset..end] == d[offset..after] + d[after..end];
    }
  }

  lemma ArrayIsWritten(d: seq<byte>, offset: nat, seen: nat)
    requires HvcArrayAt(d, offset, seen).Ok?
    ensures var (a, after) := HvcArrayAt(d, offset, seen).value;
            && d[offset..after] == [a.header] + Be16(|a.sets|) + SetsBytes(a.sets)
            && IsParameterKind(a.header) && Storable(a.sets) && seen + |a.sets| <= MAX_PARAMETER_SETS
  {
    hide U16, Be16, IsParameterKind, SetsBytes, SetsAt, Storable;
    var (a, after) := HvcArrayAt(d, offset, seen).value;
    SetsAreWritten(d, offset + 3, U16(d, offset + 1));
    SetHead(d, offset + 1);
    FourParts(d, offset, offset + 3, after);
  }

  lemma FourParts(d: seq<byte>, a: nat, b: nat, c: nat)
    requires a + 3 == b <= c <= |d|
    ensures d[a..c] == [d[a]] + d[a + 1..a + 1 + 2] + d[b..c]
  {
  }

  lemma FirstArray(arrays: seq<HvcArray>)
    requires arrays != [] && StorableArrays(arrays)
    ensures var a, rest := arrays[0], arrays[1..];
            && ArraysBytes(arrays) == [a.header] + Be16(|a.sets|) + SetsBytes(a.sets) + ArraysBytes(rest)
            && SetCount(arrays) == |a.sets| + SetCount(rest)
            && IsParameterKind(a.header) && Storable(a.sets) && StorableArrays(rest)
  {
    hide Be16, SetsBytes, Storable, IsParameterKind;
    assert arrays[0] in arrays && forall a | a in arrays[1..] :: a in arrays;
  }

  lemma {:induction false} WrittenArraysAreRead(d: seq<byte>, offset: nat, arrays: seq<HvcArray>, seen: nat)
    requires StorableArrays(arrays) && seen + SetCount(arrays) <= MAX_PARAMETER_SETS
    requires offset <= |d| && d[offset..] == ArraysBytes(arrays)
    ensures HvcArraysAt(d, offset, |arrays|, seen) == Ok((arrays, |d|))
    decreases |arrays|
  {
    hide IsParameterKind, SetsBytes, SetsAt, Storable, HvcArraysAt, SetCount, StorableArrays, U16;
    if arrays == [] {
      NoArrays(d, seen);
    } else {
      hide ArraysBytes;
      FirstArray(arrays);
      ArrayStands(d, offset, arrays[0], ArraysBytes(arrays[1..]));
      var after := offset + 3 + |SetsBytes(arrays[0].sets)|;
      WrittenArraysAreRead(d, after, arrays[1..], seen + |arrays[0].sets|);
      ArrayIsRead(d, offset, arrays[0], after, arrays[1..], seen);
      assert arrays == [arrays[0]] + arrays[1..];
    }
  }

  lemma NoArrays(d: seq<byte>, seen: nat)
    ensures HvcArraysAt(d, |d|, 0, seen) == Ok(([], |d|))
  {
  }

  lemma ArrayStands(d: seq<byte>, offset: nat, a: HvcArray, rest: seq<byte>)
    requires Storable(a.sets) && |a.sets| <= MAX_PARAMETER_SETS && offset <= |d|
    requires d[offset..] == [a.header] + Be16(|a.sets|) + SetsBytes(a.sets) + rest
    ensures var after := offset + 3 + |SetsBytes(a.sets)|;
            && after <= |d| && d[offset] == a.header && U16(d, offset + 1) == |a.sets|
            && SetsAt(d, offset + 3, |a.sets|) == Ok((a.sets, after)) && d[after..] == rest
  {
    hide SetsBytes, SetsAt, U16, Storable, Be16;
    ArrayPlaces(d, offset, a.header, Be16(|a.sets|), SetsBytes(a.sets), rest);
    U16Of(d, offset + 1, |a.sets|);
    WrittenSetsAreRead(d, offset + 3, a.sets);
  }

  lemma ArrayIsRead(d: seq<byte>, offset: nat, a: HvcArray, after: nat, rest: seq<HvcArray>, seen: nat)
    requires offset + 3 <= |d| && d[offset] == a.header && IsParameterKind(a.header)
    requires U16(d, offset + 1) == |a.sets| && seen + |a.sets| <= MAX_PARAMETER_SETS
    requires SetsAt(d, offset + 3, |a.sets|) == Ok((a.sets, after))
    requires HvcArraysAt(d, after, |rest|, seen + |a.sets|) == Ok((rest, |d|))
    ensures HvcArraysAt(d, offset, |rest| + 1, seen) == Ok(([a] + rest, |d|))
  {
    hide U16, IsParameterKind, SetsAt;
    assert HvcArrayAt(d, offset, seen) == Ok((a, after));
    hide HvcArrayAt;
  }

  /** A written array at offset, and what follows it. */
  lemma ArrayPlaces(d: seq<byte>, offset: nat, header: byte, count: seq<byte>, sets: seq<byte>, rest: seq<byte>)
    requires |count| == 2 && offset <= |d| && d[offset..] == [header] + count + sets + rest
    ensures offset + 3 + |sets| + |rest| == |d| && d[offset] == header
    ensures d[offset + 1..offset + 1 + 2] == count
    ensures d[offset + 3..offset + 3 + |sets|] == sets && d[offset + 3 + |sets|..] == rest
  {
    var w := d[offset..];
    ArrayParts(w, header, count, sets, rest);
    SliceOfSlice(d, offset, |d|, 1, 3);
    SliceOfSlice(d, offset, |d|, 3, 3 + |sets|);
    SliceOfSlice(d, offset, |d|, 3 + |sets|, |w|);
    assert d[offset] == w[0];
  }

  lemma ArrayParts(w: seq<byte>, header: byte, count: seq<byte>, sets: seq<byte>, rest: seq<byte>)
    requires |count| == 2 && w == [header] + count + sets + rest
    ensures w[0] == header && w[1..3] == count && w[3..3 + |sets|] == sets && w[3 + |sets|..|w|] == rest
  {
  }

  // ----- The bounding scan -----

  class Bounds {
    const data: seq<byte>
    var offset: nat
    var count: nat

    ghost predicate Valid()
      reads this
    {
      offset <= |data| && count <= MAX_PARAMETER_SETS
    }

    constructor (data: seq<byte>)
      ensures Valid() && this.data == data && offset == 0 && count == 0
    {
      this.data := data;
      offset, count := 0, 0;
    }

    method Skip(n: nat) returns (r: Result<(), BitstreamError>)
      requires Valid()
      modifies this`offset
      ensures Valid()
      ensures if old(offset) + n > |data| then r == Err(Truncated) && offset == old(offset)
              else r == Ok(()) && offset == old(offset) + n
    {
      var end := offset + n;
      if end > |data| {
        return Err(Truncated);
      }
      offset := end;
      return Ok(());
    }

    method Byte() returns (r: Result<byte, BitstreamError>)
      requires Valid()
      modifies this`offset
      ensures Valid()
      ensures if old(offset) >= |data| then r == Err(Truncated) && offset == old(offset)
              else r == Ok(data[old(offset)]) && offset == old(offset) + 1
    {
      if offset >= |data| {
        return Err(Truncated);
      }
      offset := offset + 1;
      return Ok(data[offset - 1]);
    }

    method Short() returns (r: Result<nat, BitstreamError>)
      requires Valid()
      modifies this`offset
      ensures Valid()
      ensures if old(offset) + 2 > |data| then r == Err(Truncated)
              else r == Ok(U16(data, old(offset))) && offset == old(offset) + 2
    {
      var high :- Byte();
      var low :- Byte();
      return Ok(256 * (high as int) + low as int);
    }

    /** The body of the loop over the sets. */
    method Set() returns (r: Result<(), BitstreamError>)
      requires Valid()
      modifies this`offset
      ensures Valid()
      ensures match SetEndAt(data, old(offset))
              case Ok(end) => r == Ok(()) && offset == end
              case Err(e) => r == Err(e)
    {
      hide U16;
      var length :- Short();
      if length == 0 {
        return Err(Malformed);
      }
      var _ :- Skip(length);
      return Ok(());
    }

    /** Walks n sets, unless that makes more than 64 in all. */
    method Sets(n: nat) returns (r: Result<(), BitstreamError>)
      requires Valid()
      modifies this
      ensures old(count) + n > MAX_PARAMETER_SETS ==> r == Err(Limit)
      ensures old(count) + n <= MAX_PARAMETER_SETS ==>
                && Valid() && count == old(count) + n
                && match SetsAt(data, old(offset), n)
                   case Ok(sets) => r == Ok(()) && offset == sets.1
                   case Err(e) => r == Err(e)
    {
      hide SetEndAt;
      count := count + n;
      if count > MAX_PARAMETER_SETS {
        return Err(Limit);
      }
      ghost var spec := SetsAt(data, offset, n);
      for i := 0 to n
        invariant Valid() && count == old(count) + n
        invariant match (spec, SetsAt(data, offset, n - i))
                  case (Ok(all), Ok(rest)) => all.1 == rest.1
                  case (Err(e), Err(f)) => e == f
                  case _ => false
      {
        var _ :- Set();
      }
      return Ok(());
    }
  }

  /** d holds these parameter sets, written, behind its five header bytes and the two counts, and they end at end. */
  ghost predicate AvcRecord(d: seq<byte>, sps: seq<Nal>, pps: seq<Nal>, end: nat) {
    var i := 6 + |SetsBytes(sps)|;
    && i < |d| && d[5] as int % 32 == |sps| && d[6..i] == SetsBytes(sps) && Storable(sps)
    && d[i] as int == |pps| && i < end <= |d| && d[i + 1..end] == SetsBytes(pps) && Storable(pps)
  }

  /** A record is read as sets exactly when they stand in it, written. */
  lemma AvcSetsExactly(d: seq<byte>, sps: seq<Nal>, pps: seq<Nal>, end: nat)
    ensures AvcSets(d) == Ok((sps, pps, end)) <==> AvcRecord(d, sps, pps, end)
  {
    hide SetsAt, SetsBytes, Storable;
    if AvcSets(d) == Ok((sps, pps, end)) {
      var i := SetsAt(d, 6, d[5] as int % 32).value.1;
      SetsExactly(d, 6, sps, i);
      SetsExactly(d, i + 1, pps, end);
      assert |d[6..i]| == i - 6;
    }
    if AvcRecord(d, sps, pps, end) {
      var i := 6 + |SetsBytes(sps)|;
      SetsExactly(d, 6, sps, i);
      SetsExactly(d, i + 1, pps, end);
    }
  }

  /** A written record that the scan admits: at most 64 sets, then nothing or four bytes without extensions. */
  ghost predicate AdmittedAs(d: seq<byte>, sps: seq<Nal>, pps: seq<Nal>, end: nat) {
    && AvcRecord(d, sps, pps, end) && |sps| + |pps| <= MAX_PARAMETER_SETS
    && (end == |d| || (end + 4 == |d| && d[end + 3] == 0))
  }

  /** The scan of an avcC record, refusal by refusal. */
  function AvcScan(d: seq<byte>): Result<(), BitstreamError> {
    if |d| < 6 then Err(Truncated)
    else
      var (sps, i) :- SetsAt(d, 6, d[5] % 32);
      if i >= |d| then Err(Truncated)
      else if |sps| + d[i] as int > MAX_PARAMETER_SETS then Err(Limit)
      else
        var (pps, j) :- SetsAt(d, i + 1, d[i]);
        if j == |d| then Ok(())
        else if j + 4 > |d| then Err(Truncated)
        else if d[j + 3] != 0 then Err(Unsupported)
        else if j + 4 != |d| then Err(Malformed)
        else Ok(())
  }

  /** The scan admits exactly the written records of that shape. */
  lemma ScanAdmits(d: seq<byte>)
    ensures AvcScan(d).Ok? <==>
              exists sps: seq<Nal>, pps: seq<Nal>, end: nat :: AdmittedAs(d, sps, pps, end)
  {
    hide SetsAt, AvcRecord;
    if AvcScan(d).Ok? {
      var (sps, pps, end) := AvcSets(d).value;
      AvcSetsExactly(d, sps, pps, end);
      assert AdmittedAs(d, sps, pps, end);
    }
    if sps: seq<Nal>, pps: seq<Nal>, end: nat :| AdmittedAs(d, sps, pps, end) {
      AvcSetsExactly(d, sps, pps, end);
    }
  }

  /** What the scan accepts of an hvcC record: at most three arrays of at most 64 sets in all, and nothing after them. */
  ghost predicate HvcAdmitted(d: seq<byte>) {
    && |d| >= 23 && d[22] <= 3
    && exists arrays: seq<HvcArray> :: |arrays| == d[22] as int && HoldsArrays(d, arrays)
  }

  ghost predicate HoldsArrays(d: seq<byte>, arrays: seq<HvcArray>) {
    && |d| >= 23 && d[23..] == ArraysBytes(arrays) && StorableArrays(arrays)
    && SetCount(arrays) <= MAX_PARAMETER_SETS
  }

  /** The scan of an hvcC record, refusal by refusal. */
  function HvcScan(d: seq<byte>): Result<(), BitstreamError> {
    if |d| < 23 then Err(Truncated)
    else if d[22] > 3 then Err(Unsupported)
    else
      var (_, end) :- HvcArraysAt(d, 23, d[22], 0);
      if end != |d| then Err(Malformed) else Ok(())
  }

  lemma HvcScanAdmits(d: seq<byte>)
    ensures HvcScan(d).Ok? <==> HvcAdmitted(d)
  {
    hide HvcArraysAt, ArraysBytes, StorableArrays, SetCount;
    if HvcScan(d).Ok? {
      ArraysAreWritten(d, 23, d[22], 0);
      assert HoldsArrays(d, HvcArraysAt(d, 23, d[22], 0).value.0);
    }
    if HvcAdmitted(d) {
      var arrays: seq<HvcArray> :| |arrays| == d[22] as int && HoldsArrays(d, arrays);
      WrittenArraysAreRead(d, 23, arrays, 0);
    }
  }

  method PreflightAvc(reader: Bounds) returns (r: Result<(), BitstreamError>)
    requires reader.Valid() && reader.offset == 0 && reader.count == 0
    modifies reader
    ensures r.Ok? ==> reader.Valid()
    ensures (if r.Ok? && reader.offset != |reader.data| then Err(Malformed) else r) == AvcScan(reader.data)
  {
    hide SetsAt;
    var _ :- reader.Skip(5);
    var numSps :- reader.Byte();
    var _ :- reader.Sets(numSps % 32);
    var numPps :- reader.Byte();
    var _ :- reader.Sets(numPps);
    if reader.offset < |reader.data| {
      var _ :- reader.Skip(3);
      var extensions :- reader.Byte();
      if extensions != 0 {
        return Err(Unsupported);
      }
    }
    return Ok(());
  }

  /** The body of the loop over the arrays. */
  method PreflightArray(reader: Bounds) returns (r: Result<(), BitstreamError>)
    requires reader.Valid()
    modifies reader
    ensures match HvcArrayAt(reader.data, old(reader.offset), old(reader.count))
            case Ok((a, after)) =>
              r == Ok(()) && reader.Valid() && reader.offset == after && reader.count == old(reader.count) + |a.sets|
            case Err(e) => r == Err(e)
  {
    hide SetsAt, U16, IsParameterKind;
    var header :- reader.Byte();
    if !IsParameterKind(header) {
      return Err(Unsupported);
    }
    var count :- reader.Short();
    var _ :- reader.Sets(count);
    return Ok(());
  }

  method PreflightHevc(reader: Bounds) returns (r: Result<(), BitstreamError>)
    requires reader.Valid() && reader.offset == 0 && reader.count == 0
    modifies reader
    ensures r.Ok? ==> reader.Valid()
    ensures (if r.Ok? && reader.offset != |reader.data| then Err(Malformed) else r) == HvcScan(reader.data)
  {
    hide HvcArrayAt;
    ghost var d := reader.data;
    var _ :- reader.Skip(22);
    var arrays :- reader.Byte();
    if arrays > 3 {
      return Err(Unsupported);
    }
    ghost var spec := HvcArraysAt(d, 23, arrays, 0);
    for i := 0 to arrays
      invariant reader.Valid()
      invariant match (spec, HvcArraysAt(d, reader.offset, arrays - i, reader.count))
                case (Ok(all), Ok(rest)) => all.1 == rest.1
                case (Err(e), Err(f)) => e == f
                case _ => false
    {
      var _ :- PreflightArray(reader);
    }
    return Ok(());
  }

  method Preflight(codec: Codec, data: seq<byte>) returns (r: Result<(), BitstreamError>)
    ensures r == if codec == Avc then AvcScan(data) else HvcScan(data)
  {
    var reader := new Bounds(data);
    if codec == Avc {
      var _ :- PreflightAvc(reader);
    } else {
      var _ :- PreflightHevc(reader);
    }
    if reader.offset != |data| {
      return Err(Malformed);
    }
    return Ok(());
  }

  // ----- The extractor -----

  /** One of the extractor's two loops: the first of count sets, and the offset after all of them. */
  method FirstSet(data: seq<byte>, start: nat, count: nat) returns (r: Option<(Option<Nal>, nat)>)
    requires start <= |data|
    ensures match SetsAt(data, start, count)
            case Ok(sets) => r == Some((if count > 0 then Some(sets.0[0]) else None, sets.1))
            case Err(_) => r == None
  {
    var i := start;
    var first: Option<Nal> := None;
    ghost var spec := SetsAt(data, start, count);
    for k := 0 to count
      invariant start <= i <= |data| && (first.None? <==> k == 0)
      invariant match (spec, SetsAt(data, i, count - k))
                case (Ok(all), Ok(rest)) =>
                  all.1 == rest.1 && (if k == 0 then all == rest else first == Some(all.0[0]))
                case (Err(_), Err(_)) => true
                case _ => false
    {
      if i + 2 > |data| {
        return None;
      }
      var len := U16(data, i);
      i := i + 2;
      if i + len > |data| || len == 0 {
        return None;
      }
      if first.None? {
        first := Some(data[i..i + len]);
      }
      i := i + len;
    }
    return Some((first, i));
  }

  /** What the extractor answers, under its own conditions on the record. */
  function Extracted(d: seq<byte>): Option<(Nal, Nal)> {
    if |d| < 7 || d[0] != 1 then None
    else
      match AvcSets(d)
      case Err(_) => None
      case Ok((sps, pps, _)) => if sps == [] || pps == [] then None else Some((sps[0], pps[0]))
  }

  method ExtractAvccParameterSets(data: seq<byte>) returns (r: Option<(Nal, Nal)>)
    ensures r == Extracted(data)
  {
    if |data| < 7 || data[0] != 1 {
      return None;
    }
    var sps := FirstSet(data, 6, data[5] % 32);
    if sps.None? || sps.value.1 >= |data| {
      return None;
    }
    var pps := FirstSet(data, sps.value.1 + 1, data[sps.value.1]);
    if pps.None? || sps.value.0.None? || pps.value.0.None? {
      return None;
    }
    return Some((sps.value.0.value, pps.value.0.value));
  }

  /** From a written record the extractor takes the first set of each kind, if the version is 1 and there are both. */
  lemma WrittenRecordsExtract(d: seq<byte>, sps: seq<Nal>, pps: seq<Nal>, end: nat)
    requires AvcRecord(d, sps, pps, end)
    ensures Extracted(d) == if d[0] == 1 && sps != [] && pps != [] then Some((sps[0], pps[0])) else None
  {
    hide AvcSets, SetsBytes, Storable;
    AvcSetsExactly(d, sps, pps, end);
  }

  /** The extractor succeeds exactly on the version-1 records that hold a set of each kind, written first. */
  lemma ExtractsExactly(d: seq<byte>, s: Nal, p: Nal)
    ensures Extracted(d) == Some((s, p)) <==>
              && d != [] && d[0] == 1
              && exists sps: seq<Nal>, pps: seq<Nal>, end: nat ::
                   AvcRecord(d, sps, pps, end) && sps != [] && pps != [] && sps[0] == s && pps[0] == p
  {
    hide AvcSets, AvcRecord;
    if Extracted(d) == Some((s, p)) {
      var (sps, pps, end) := AvcSets(d).value;
      AvcSetsExactly(d, sps, pps, end);
    }
    if sps: seq<Nal>, pps: seq<Nal>, end: nat :|
        d != [] && d[0] == 1 && AvcRecord(d, sps, pps, end) && sps != [] && pps != [] && sps[0] == s && pps[0] == p {
      WrittenRecordsExtract(d, sps, pps, end);
    }
  }

  /**
   * What the scan admits is a written record of at most 64 sets, and the extractor takes the first of each kind from
   * that record: exactly when its version is 1 and it holds both kinds.
   */
  lemma AdmittedRecordsExtract(d: seq<byte>) returns (sps: seq<Nal>, pps: seq<Nal>, end: nat)
    requires AvcScan(d).Ok?
    ensures AdmittedAs(d, sps, pps, end)
    ensures Extracted(d) == if d[0] == 1 && sps != [] && pps != [] then Some((sps[0], pps[0])) else None
  {
    hide AvcRecord, AvcScan, Extracted;
    ScanAdmits(d);
    sps, pps, end :| AdmittedAs(d, sps, pps, end);
    WrittenRecordsExtract(d, sps, pps, end);
  }
}
