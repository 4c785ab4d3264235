/** The bit cursor of the SPS rewriter, against the codes of sections 7.2, 9.1 and 9.1.1 of ITU-T H.264. */
module BitReader {
  import opened Results

  /** What a syntax element reader yields: the value and the position after it. */
  type Read<+T> = Result<(T, nat), BitstreamError>

  // ----- Fixed-length codes -----

  function Pow2(n: nat): (r: nat)
    ensures r >= 1
  {
    if n == 0 then 1 else 2 * Pow2(n - 1)
  }

  function Bit(b: bool): nat {
    if b then 1 else 0
  }

  /** The big-endian value of a bit string, section 7.2: u(n). */
  function ValueOf(s: seq<bool>): (v: nat)
    ensures v < Pow2(|s|)
  {
    if s == [] then 0 else 2 * ValueOf(s[..|s| - 1]) + Bit(s[|s| - 1])
  }

  /** The n-bit big-endian code of v. */
  function BitsOf(v: nat, n: nat): (s: seq<bool>)
    ensures |s| == n
  {
    if n == 0 then [] else BitsOf(v / 2, n - 1) + [v % 2 == 1]
  }

  lemma {:induction false} BitsOfValue(s: seq<bool>)
    ensures BitsOf(ValueOf(s), |s|) == s
  {
    if s != [] {
      BitsOfValue(s[..|s| - 1]);
    }
  }

  lemma {:induction false} ValueOfBits(v: nat, n: nat)
    requires v < Pow2(n)
    ensures ValueOf(BitsOf(v, n)) == v
  {
    if n > 0 {
      ValueOfBits(v / 2, n - 1);
      assert BitsOf(v, n)[..n - 1] == BitsOf(v / 2, n - 1);
    }
  }

  // ----- Readers at a position -----

  function BitAt(b: seq<bool>, p: nat): (read: Read<bool>)
    ensures read.Ok? ==> p <= read.value.1
  {
    if p < |b| then Ok((b[p], p + 1)) else Err(Truncated)
  }

  function UAt(b: seq<bool>, p: nat, n: nat): (read: Read<nat>)
    ensures read.Ok? ==> read.value.1 == p + n
  {
    if p + n <= |b| then Ok((ValueOf(b[p..p + n]), p + n)) else Err(Truncated)
  }

  /** How many zero bits precede the first one bit, counting on from z and giving up above 31. */
  function ZeroRun(b: seq<bool>, p: nat, z: nat): Result<nat, BitstreamError>
    decreases |b| - p
  {
    if p >= |b| then Err(Truncated)
    else if b[p] then Ok(z)
    else if z + 1 > 31 then Err(Limit)
    else ZeroRun(b, p + 1, z + 1)
  }

  function UeAt(b: seq<bool>, p: nat): (read: Read<nat>)
    ensures read.Ok? ==> p <= read.value.1
  {
    var z :- ZeroRun(b, p, 0);
    var (suffix, q) :- UAt(b, p + z + 1, z);
    Ok((Pow2(z) - 1 + suffix, q))
  }

  /** Table 9-3: codeNum to a signed value. */
  function SignedOf(codeNum: nat): int {
    if codeNum % 2 == 0 then -(codeNum / 2) else codeNum / 2 + 1
  }

  function SeAt(b: seq<bool>, p: nat): (read: Read<int>)
    ensures read.Ok? ==> p <= read.value.1
  {
    var (k, q) :- UeAt(b, p);
    Ok((SignedOf(k), q))
  }

  // ----- Exp-Golomb codes, defined by printing -----

  function Log2(v: nat): (k: nat)
    requires v >= 1
    ensures Pow2(k) <= v < Pow2(k + 1)
  {
    if v == 1 then 0 else 1 + Log2(v / 2)
  }

  /** Section 9.1: as many zeros as codeNum + 1 has bits after its first, then codeNum + 1. */
  function UeCode(v: nat): seq<bool> {
    var k := Log2(v + 1);
    Zeros(k) + [true] + BitsOf(v + 1 - Pow2(k), k)
  }

  /** Section 9.1.1, the other way round. */
  function CodeNumOf(v: int): nat {
    if v > 0 then 2 * v - 1 else -2 * v
  }

  function Zeros(n: nat): (s: seq<bool>)
    ensures |s| == n && forall i | 0 <= i < n :: !s[i]
  {
    seq(n, _ => false)
  }

  const UE_MAX: nat := 0xFFFF_FFFE
  const SE_MAX: int := 0x7FFF_FFFF

  lemma {:induction false} Pow2Monotone(m: nat, n: nat)
    requires m <= n
    ensures Pow2(m) <= Pow2(n)
  {
    if m < n {
      Pow2Monotone(m, n - 1);
    }
  }

  lemma Pow2At32()
    ensures Pow2(32) == 0x1_0000_0000
  {
    assert Pow2(8) == 256;
    assert Pow2(16) == 0x1_0000;
    assert Pow2(24) == 0x100_0000;
  }

  lemma {:induction false} Log2Unique(v: nat, k: nat)
    requires v >= 1 && Pow2(k) <= v < Pow2(k + 1)
    ensures Log2(v) == k
  {
    if k < Log2(v) {
      Pow2Monotone(k + 1, Log2(v));
    } else if Log2(v) < k {
      Pow2Monotone(Log2(v) + 1, k);
    }
  }

  /** A zero run is exactly that: zeros and then a one, at most 31 zeros in all. */
  lemma {:induction false} ZeroRunMeaning(b: seq<bool>, p: nat, z: nat)
    requires z <= 31
    ensures ZeroRun(b, p, z).Ok? ==>
              var k := ZeroRun(b, p, z).value - z;
              && 0 <= k && k + z <= 31 && p + k < |b| && b[p + k]
              && forall i | p <= i < p + k :: !b[i]
    decreases |b| - p
  {
    if p < |b| && !b[p] && z + 1 <= 31 {
      ZeroRunMeaning(b, p + 1, z + 1);
    }
  }

  lemma {:induction false} ZeroRunFinds(b: seq<bool>, p: nat, z: nat, k: nat)
    requires z + k <= 31 && p + k < |b| && b[p + k]
    requires forall i | p <= i < p + k :: !b[i]
    ensures ZeroRun(b, p, z) == Ok(z + k)
    decreases k
  {
    if k > 0 {
      assert !b[p];
      ZeroRunFinds(b, p + 1, z + 1, k - 1);
    }
  }

  /** Reading a ue(v) element succeeds with v exactly on the section 9.1 code of v, for every v it can hold. */
  lemma UeInverts(b: seq<bool>, p: nat, v: nat)
    ensures UeAt(b, p).Ok? && UeAt(b, p).value.0 == v
            <==> v <= UE_MAX && p + |UeCode(v)| <= |b| && b[p..p + |UeCode(v)|] == UeCode(v)
    ensures UeAt(b, p).Ok? && UeAt(b, p).value.0 == v ==> UeAt(b, p).value.1 == p + |UeCode(v)|
  {
    if UeAt(b, p).Ok? && UeAt(b, p).value.0 == v {
      UeReadIsCode(b, p);
    }
    if v <= UE_MAX && p + |UeCode(v)| <= |b| && b[p..p + |UeCode(v)|] == UeCode(v) {
      UeCodeIsRead(b, p, v);
    }
  }

  lemma UeReadIsCode(b: seq<bool>, p: nat)
    requires UeAt(b, p).Ok?
    ensures var (v, q) := UeAt(b, p).value;
            v <= UE_MAX && p < q <= |b| && q - p == |UeCode(v)| && b[p..q] == UeCode(v)
  {
    hide ZeroRun, ValueOf, BitsOf, UeCode;
    ZeroRunMeaning(b, p, 0);
    var z := ZeroRun(b, p, 0).value;
    var (v, q) := UeAt(b, p).value;
    CodeOfRead(z, b[p + z + 1..q], v);
    Pow2At32();
    Pow2Monotone(z + 1, 32);
    assert b[p..p + z] == Zeros(z);
    assert b[p..q] == b[p..p + z] + [true] + b[p + z + 1..q];
  }

  lemma CodeOfRead(z: nat, suffix: seq<bool>, v: nat)
    requires |suffix| == z && v == Pow2(z) - 1 + ValueOf(suffix)
    ensures UeCode(v) == Zeros(z) + [true] + suffix && v + 1 < Pow2(z + 1)
  {
    hide ValueOf, BitsOf;
    Log2Unique(v + 1, z);
    BitsOfValue(suffix);
  }

  /** Where the parts of a code stand. */
  lemma UeCodeParts(b: seq<bool>, p: nat, v: nat, k: nat)
    requires k == Log2(v + 1) && p + |UeCode(v)| <= |b| && b[p..p + |UeCode(v)|] == UeCode(v)
    ensures |UeCode(v)| == 2 * k + 1
    ensures b[p + k] && forall i | p <= i < p + k :: !b[i]
    ensures b[p + k + 1..p + k + 1 + k] == BitsOf(v + 1 - Pow2(k), k)
  {
    var code := UeCode(v);
    forall i | 0 <= i < |code|
      ensures b[p + i] == code[i]
    {
      assert b[p + i] == b[p..p + |code|][i];
    }
    forall i | p <= i < p + k
      ensures !b[i]
    {
      assert b[p + (i - p)] == code[i - p];
    }
    assert b[p + k + 1..p + k + 1 + k] == code[k + 1..];
  }

  /** The bits after the marker are read as the suffix. */
  lemma SuffixIsRead(b: seq<bool>, q: nat, k: nat, suffix: nat)
    requires suffix < Pow2(k) && q + k <= |b| && b[q..q + k] == BitsOf(suffix, k)
    ensures UAt(b, q, k) == Ok((suffix, q + k))
  {
    hide ValueOf, BitsOf, Pow2;
    ValueOfBits(suffix, k);
  }

  lemma UeCodeIsRead(b: seq<bool>, p: nat, v: nat)
    requires v <= UE_MAX && p + |UeCode(v)| <= |b| && b[p..p + |UeCode(v)|] == UeCode(v)
    ensures UeAt(b, p) == Ok((v, p + |UeCode(v)|))
  {
    hide UeCode, UAt, BitsOf, ZeroRun, Log2;
    var k := Log2(v + 1);
    UeCodeParts(b, p, v, k);
    Pow2At32();
    if k > 31 {
      Pow2Monotone(32, k);
    }
    hide Pow2;
    ZeroRunFinds(b, p, 0, k);
    assert Pow2(k + 1) == 2 * Pow2(k) by { Pow2Doubles(k); }
    SuffixIsRead(b, p + k + 1, k, v + 1 - Pow2(k));
  }

  lemma Pow2Doubles(k: nat)
    ensures Pow2(k + 1) == 2 * Pow2(k)
  {
  }

  /** The same for se(v), and every value read fits the signed 32-bit result. */
  lemma SeInverts(b: seq<bool>, p: nat, v: int)
    ensures var code := UeCode(CodeNumOf(v));
            SeAt(b, p).Ok? && SeAt(b, p).value.0 == v
            <==> -SE_MAX <= v <= SE_MAX && p + |code| <= |b| && b[p..p + |code|] == code
    ensures SeAt(b, p).Ok? && SeAt(b, p).value.0 == v ==> SeAt(b, p).value.1 == p + |UeCode(CodeNumOf(v))|
  {
    UeInverts(b, p, CodeNumOf(v));
    if UeAt(b, p).Ok? {
      UeReadIsCode(b, p);
    }
  }

  // ----- Readers see only the bits they consume -----

  /** Bits lo..hi of b stand d places further on in c. */
  ghost predicate Moved(b: seq<bool>, lo: nat, hi: nat, c: seq<bool>, d: int) {
    && lo <= hi <= |b|
    && 0 <= lo + d && hi + d <= |c|
    && forall i {:trigger b[i]} | lo <= i < hi :: b[i] == c[i + d]
  }

  lemma MovedSlice(b: seq<bool>, lo: nat, hi: nat, c: seq<bool>, d: int, p: nat, q: nat)
    requires Moved(b, lo, hi, c, d) && lo <= p <= q <= hi
    ensures b[p..q] == c[p + d..q + d]
  {
    forall i | 0 <= i < q - p
      ensures b[p..q][i] == c[p + d..q + d][i]
    {
      assert b[p + i] == c[p + i + d];
    }
  }

  lemma UMoves(b: seq<bool>, lo: nat, hi: nat, c: seq<bool>, d: int, p: nat, n: nat)
    requires Moved(b, lo, hi, c, d) && lo <= p && p + n <= hi
    ensures UAt(b, p, n).Ok? && UAt(c, p + d, n) == Ok((UAt(b, p, n).value.0, p + n + d))
  {
    MovedSlice(b, lo, hi, c, d, p, p + n);
  }

  lemma UeMoves(b: seq<bool>, lo: nat, hi: nat, c: seq<bool>, d: int, p: nat)
    requires Moved(b, lo, hi, c, d) && lo <= p && UeAt(b, p).Ok? && UeAt(b, p).value.1 <= hi
    ensures UeAt(c, p + d) == Ok((UeAt(b, p).value.0, UeAt(b, p).value.1 + d))
  {
    UeReadIsCode(b, p);
    var (v, q) := UeAt(b, p).value;
    MovedSlice(b, lo, hi, c, d, p, q);
    UeCodeIsRead(c, p + d, v);
  }

  // ----- Whole bytes -----

  /** The bits of a byte string, first bit first. */
  function Unpack(s: seq<byte>): (b: seq<bool>)
    ensures |b| == 8 * |s|
  {
    if s == [] then [] else BitsOf(s[0], 8) + Unpack(s[1..])
  }

  /** How many bytes hold n bits. */
  function BytesFor(n: nat): nat {
    (n + 7) / 8
  }

  /** The first i bits of b, then zeros up to n whole bytes. */
  function Padded(b: seq<bool>, i: nat, n: nat): (s: seq<bool>)
    requires i <= |b| && i <= 8 * n
    ensures |s| == 8 * n
  {
    b[..i] + Zeros(8 * n - i)
  }

  /** Position of the last one bit: the rbsp_stop_one_bit of section 7.3.2.11. */
  function LastOne(b: seq<bool>): (r: Result<nat, BitstreamError>)
    ensures r.Ok? ==> r.value < |b| && b[r.value] && forall i | r.value < i < |b| :: !b[i]
    ensures r.Err? ==> r.error == Malformed && forall i | 0 <= i < |b| :: !b[i]
  {
    if b == [] then Err(Malformed)
    else if b[|b| - 1] then Ok(|b| - 1)
    else LastOne(b[..|b| - 1])
  }

  lemma LastOneIs(b: seq<bool>, p: nat)
    requires p < |b| && b[p] && forall i | p < i < |b| :: !b[i]
    ensures LastOne(b) == Ok(p)
  {
  }

  lemma {:induction false} SettingABitAdds(s: seq<bool>, r: nat)
    requires r < |s| && !s[r]
    ensures ValueOf(s[r := true]) == ValueOf(s) + Pow2(|s| - 1 - r)
  {
    var last := |s| - 1;
    if r < last {
      SettingABitAdds(s[..last], r);
      assert s[r := true][..last] == s[..last][r := true];
    } else {
      assert s[r := true][..last] == s[..last];
    }
  }

  /** Bytes whose values are the eight-bit groups of b unpack to b. */
  lemma {:induction false} UnpackGroups(s: seq<byte>, b: seq<bool>)
    requires |b| == 8 * |s|
    requires forall j {:trigger s[j]} | 0 <= j < |s| :: s[j] == ValueOf(b[8 * j..8 * j + 8])
    ensures Unpack(s) == b
  {
    if s != [] {
      var rest := b[8..];
      forall j {:trigger s[1..][j]} | 0 <= j < |s[1..]|
        ensures s[1..][j] == ValueOf(rest[8 * j..8 * j + 8])
      {
        assert s[1..][j] == s[j + 1];
        assert rest[8 * j..8 * j + 8] == b[8 * (j + 1)..8 * (j + 1) + 8];
      }
      UnpackGroups(s[1..], rest);
      assert s[0] == ValueOf(b[0..8]);
      BitsOfValue(b[..8]);
    }
  }

  /** Every bit string of whole bytes is some byte string unpacked. */
  lemma {:induction false} PackExists(b: seq<bool>) returns (s: seq<byte>)
    requires |b| % 8 == 0
    ensures Unpack(s) == b
  {
    if b == [] {
      s := [];
    } else {
      var rest := PackExists(b[8..]);
      assert Pow2(8) == 256;
      var first: byte := ValueOf(b[..8]);
      BitsOfValue(b[..8]);
      s := [first] + rest;
      assert b == b[..8] + b[8..];
    }
  }

  lemma {:induction false} LastByteIsSet(s: seq<byte>, p: nat)
    requires s != [] && 8 * (|s| - 1) <= p < 8 * |s| && Unpack(s)[p]
    ensures s[|s| - 1] != 0
  {
    assert Unpack(s) == BitsOf(s[0], 8) + Unpack(s[1..]);
    if |s| > 1 {
      LastByteIsSet(s[1..], p - 8);
    } else if s[0] == 0 {
      ZeroBits(8);
    }
  }

  lemma {:induction false} ZeroBits(n: nat)
    ensures forall i | 0 <= i < n :: !BitsOf(0, n)[i]
  {
    if n > 0 {
      ZeroBits(n - 1);
    }
  }

  lemma {:induction false} ValueOfZeros(n: nat)
    ensures ValueOf(Zeros(n)) == 0
  {
    if n > 0 {
      ValueOfZeros(n - 1);
      assert Zeros(n)[..n - 1] == Zeros(n - 1);
    }
  }

  lemma EmptySuffix(b: seq<bool>, p: nat)
    requires p <= |b|
    ensures UAt(b, p, 0) == Ok((0, p)) && Pow2(0) == 1
  {
  }

  /** The outcome of a cursor method, against the reader it must implement. */
  ghost predicate Yields<T(!new)>(spec: Read<T>, r: Result<T, BitstreamError>, pos: nat) {
    match spec
    case Ok(read) => r == Ok(read.0) && pos == read.1
    case Err(e) => r == Err(e)
  }

  /** The outcome of a cursor method that only moves, against the position it must reach. */
  ghost predicate Landed(spec: Result<nat, BitstreamError>, r: Result<(), BitstreamError>, pos: nat) {
    match spec
    case Ok(q) => r == Ok(()) && pos == q
    case Err(e) => r == Err(e)
  }

  /** The rewriter's cursor over the bits of an RBSP. */
  class Bits {
    var bits: seq<bool>
    var pos: nat

    constructor (bits: seq<bool>)
      ensures this.bits == bits && pos == 0
    {
      this.bits := bits;
      pos := 0;
    }

    constructor FromRbsp(rbsp: seq<byte>)
      ensures bits == Unpack(rbsp) && pos == 0
    {
      bits := Unpack(rbsp);
      pos := 0;
    }

    method ReadAt(index: nat) returns (r: Result<bool, BitstreamError>)
      ensures r == if index < |bits| then Ok(bits[index]) else Err(Truncated)
    {
      r := if index < |bits| then Ok(bits[index]) else Err(Truncated);
    }

    method ReadBit() returns (r: Result<bool, BitstreamError>)
      modifies this`pos
      ensures Yields(BitAt(bits, old(pos)), r, pos)
    {
      var bit :- ReadAt(pos);
      pos := pos + 1;
      return Ok(bit);
    }

    method ReadN(start: nat, width: nat) returns (r: Result<nat, BitstreamError>)
      ensures r == if width == 0 then Ok(0)
                   else if start + width <= |bits| then Ok(ValueOf(bits[start..start + width]))
                   else Err(Truncated)
    {
      var value := 0;
      for offset := 0 to width
        invariant offset == 0 ==> value == 0
        invariant offset > 0 ==> start + offset <= |bits| && value == ValueOf(bits[start..start + offset])
      {
        var bit :- ReadAt(start + offset);
        assert bits[start..start + offset + 1][..offset] == bits[start..start + offset];
        value := 2 * value + Bit(bit);
      }
      return Ok(value);
    }

    method Read(width: nat) returns (r: Result<nat, BitstreamError>)
      requires width > 0
      modifies this`pos
      ensures Yields(UAt(bits, old(pos), width), r, pos)
    {
      var value :- ReadN(pos, width);
      pos := pos + width;
      return Ok(value);
    }

    method Skip(width: nat) returns (r: Result<(), BitstreamError>)
      requires width > 0
      modifies this`pos
      ensures Landed(if old(pos) + width <= |bits| then Ok(old(pos) + width) else Err(Truncated), r, pos)
    {
      var _ :- Read(width);
      return Ok(());
    }

    /** The value fits the 32-bit result: it never exceeds 2^32 - 2. */
    method ReadUe() returns (r: Result<nat, BitstreamError>)
      modifies this`pos
      ensures Yields(UeAt(bits, old(pos)), r, pos)
      ensures r.Ok? ==> r.value <= UE_MAX
    {
      hide ValueOf, Pow2, UeCode;
      ghost var start := pos;
      var leading := 0;
      var bit :- ReadBit();
      while !bit
        invariant pos == start + leading + 1 <= |bits| && bit == bits[pos - 1]
        invariant leading <= 31 && ZeroRun(bits, start, 0) == ZeroRun(bits, pos - 1, leading)
        decreases |bits| - pos
      {
        leading := leading + 1;
        if leading > 31 {
          return Err(Limit);
        }
        bit :- ReadBit();
      }
      assert ZeroRun(bits, start, 0) == Ok(leading);
      if leading == 0 {
        EmptySuffix(bits, start + 1);
        return Ok(0);
      }
      var suffix :- Read(leading);
      assert UeAt(bits, start) == Ok((Pow2(leading) - 1 + suffix, pos));
      UeReadIsCode(bits, start);
      return Ok(Pow2(leading) - 1 + suffix);
    }

    method ReadSe() returns (r: Result<int, BitstreamError>)
      modifies this`pos
      ensures Yields(SeAt(bits, old(pos)), r, pos)
      ensures r.Ok? ==> -SE_MAX <= r.value <= SE_MAX
    {
      var ue :- ReadUe();
      var half: int := ue / 2;
      return Ok(if ue % 2 == 0 then -half else half + 1);
    }

    method WriteU8(start: nat, value: byte) returns (r: Result<(), BitstreamError>)
      modifies this`bits
      ensures if start + 8 > |old(bits)| then r == Err(Truncated) && bits == old(bits)
              else r == Ok(()) && bits == old(bits)[..start] + BitsOf(value, 8) + old(bits)[start + 8..]
    {
      if start + 8 > |bits| {
        return Err(Truncated);
      }
      ghost var was := bits;
      ghost var code := BitsOf(value, 8);
      var rest := value;
      // The source counts offset up and shift down together; here rest is value >> (7 - offset) from the far end.
      for offset := 8 downto 0
        invariant |bits| == |was| && 0 <= rest && BitsOf(rest, offset) == code[..offset]
        invariant bits == was[..start + offset] + code[offset..] + was[start + 8..]
      {
        assert code[..offset + 1][..offset] == code[..offset] && code[..offset + 1][offset] == code[offset];
        bits := bits[start + offset := rest % 2 == 1];
        rest := rest / 2;
      }
      return Ok(());
    }

    method StopBit() returns (r: Result<nat, BitstreamError>)
      ensures r == LastOne(bits)
    {
      var end: nat := |bits|;
      while end > 0
        invariant 0 <= end <= |bits| && LastOne(bits[..end]) == LastOne(bits)
      {
        if bits[end - 1] {
          return Ok(end - 1);
        }
        assert bits[..end][..end - 1] == bits[..end - 1];
        end := end - 1;
      }
      return Err(Malformed);
    }

    /** The bits up to stop (or all of them), a stop bit, and zeros to the end of the last byte. */
    method FinishFrom(stop: Option<nat>) returns (bytes: seq<byte>)
      requires stop.Some? ==> stop.value <= |bits|
      ensures var payload := (if stop.Some? then bits[..stop.value] else bits) + [true];
              && Unpack(bytes) == Padded(payload, |payload|, BytesFor(|payload|))
              && |bytes| == BytesFor(|payload|)
      ensures bytes != [] && bytes[|bytes| - 1] != 0
    {
      var payload := (if stop.Some? then bits[..stop.value] else bits) + [true];
      bytes := PackBits(payload);
    }
  }

  /** The j-th byte of the first i bits of payload, as it stands in the buffer. */
  function GroupValue(payload: seq<bool>, i: nat, n: nat, j: nat): nat
    requires i <= |payload| <= 8 * n && j < n
  {
    ValueOf(Padded(payload, i, n)[8 * j..8 * j + 8])
  }

  lemma NextBit(payload: seq<bool>, i: nat, n: nat, j: nat)
    requires i < |payload| <= 8 * n && j < n
    ensures GroupValue(payload, i + 1, n, j) ==
            GroupValue(payload, i, n, j) + if payload[i] && j == i / 8 then Pow2(7 - i % 8) else 0
    ensures GroupValue(payload, i + 1, n, j) < 256
  {
    hide ValueOf;
    assert Pow2(8) == 256;
    var before, after := Padded(payload, i, n), Padded(payload, i + 1, n);
    assert after == before[i := payload[i]];
    var group := before[8 * j..8 * j + 8];
    if j == i / 8 && payload[i] {
      assert after[8 * j..8 * j + 8] == group[i % 8 := true];
      SettingABitAdds(group, i % 8);
    } else {
      assert after[8 * j..8 * j + 8] == group;
    }
  }

  /** Sets every one bit of payload in a zeroed buffer; each bit is set once, so the source's `|=` adds. */
  method PackBits(payload: seq<bool>) returns (bytes: seq<byte>)
    ensures Unpack(bytes) == Padded(payload, |payload|, BytesFor(|payload|))
    ensures |bytes| == BytesFor(|payload|)
    ensures payload != [] && payload[|payload| - 1] ==> bytes != [] && bytes[|bytes| - 1] != 0
  {
    hide GroupValue, Padded, Pow2;
    var n := BytesFor(|payload|);
    bytes := seq(n, _ => 0);
    forall j | 0 <= j < n
      ensures GroupValue(payload, 0, n, j) == 0
    {
      FirstGroups(payload, n, j);
    }
    for index := 0 to |payload|
      invariant |bytes| == n
      invariant forall j {:trigger bytes[j]} | 0 <= j < n :: bytes[j] == GroupValue(payload, index, n, j)
    {
      forall j | 0 <= j < n
        ensures GroupValue(payload, index + 1, n, j) ==
                GroupValue(payload, index, n, j) + if payload[index] && j == index / 8 then Pow2(7 - index % 8) else 0
        ensures GroupValue(payload, index + 1, n, j) < 256
      {
        NextBit(payload, index, n, j);
      }
      if payload[index] {
        bytes := bytes[index / 8 := bytes[index / 8] + Pow2(7 - index % 8)];
      }
    }
    AllGroups(payload, n, bytes);
    if payload != [] && payload[|payload| - 1] {
      LastGroupIsNotZero(payload, n);
    }
  }

  lemma LastGroupIsNotZero(payload: seq<bool>, n: nat)
    requires payload != [] && payload[|payload| - 1] && n == BytesFor(|payload|)
    ensures n > 0 && GroupValue(payload, |payload|, n, n - 1) > 0
  {
    var group := Padded(payload, |payload|, n)[8 * (n - 1)..8 * (n - 1) + 8];
    var r := |payload| - 1 - 8 * (n - 1);
    assert group[r];
    assert group[r := false][r := true] == group;
    SettingABitAdds(group[r := false], r);
  }

  lemma FirstGroups(payload: seq<bool>, n: nat, j: nat)
    requires |payload| <= 8 * n && j < n
    ensures GroupValue(payload, 0, n, j) == 0
  {
    assert Padded(payload, 0, n)[8 * j..8 * j + 8] == Zeros(8);
    ValueOfZeros(8);
  }

  lemma AllGroups(payload: seq<bool>, n: nat, bytes: seq<byte>)
    requires |payload| <= 8 * n == 8 * |bytes|
    requires forall j {:trigger bytes[j]} | 0 <= j < n :: bytes[j] == GroupValue(payload, |payload|, n, j)
    ensures Unpack(bytes) == Padded(payload, |payload|, n)
  {
    hide ValueOf;
    UnpackGroups(bytes, Padded(payload, |payload|, n));
  }
}
