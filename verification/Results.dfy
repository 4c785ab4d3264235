/** Results shared by every component: an optional value, and a value or an error. */
module Results {

  datatype Option<+T> = None | Some(value: T)

  /** A value or the reason there is none; usable with `:-`. */
  datatype Result<+T, +E> = Ok(value: T) | Err(error: E) {

    predicate IsFailure() {
      Err?
    }

    function PropagateFailure<U>(): Result<U, E>
      requires Err?
    {
      Err(error)
    }

    function Extract(): T
      requires Ok?
    {
      value
    }
  }

  /** The kinds of `BitstreamError`; the message texts are not modelled. */
  datatype BitstreamError = Limit | Truncated | Malformed | Unsupported

  type byte = b: int | 0 <= b < 256

  /** The first value past the 64-bit range. */
  const U64: nat := 0x1_0000_0000_0000_0000

  /** s with its i-th element taken out. */
  function Without<T>(s: seq<T>, i: nat): (r: seq<T>)
    requires i < |s|
    ensures |r| == |s| - 1
  {
    s[..i] + s[i + 1..]
  }

  lemma SliceOfSlice<T>(s: seq<T>, lo: nat, hi: nat, i: nat, j: nat)
    requires lo <= hi <= |s| && i <= j <= hi - lo
    ensures s[lo + i..lo + j] == s[lo..hi][i..j]
  {
    forall k | 0 <= k < j - i
      ensures s[lo + i..lo + j][k] == s[lo..hi][i..j][k]
    {
    }
  }
}
