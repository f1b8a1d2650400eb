/** What the other modules share: bytes, optional values, 32-bit ranges and overwriting in sequences. */
module Basics {
  datatype Option<+T> = None | Some(value: T)

  type Byte = bv8

  const UINT32_RANGE: nat := 0x1_0000_0000
  const INT32_RANGE: int := 0x8000_0000

  /** Conversion to a signed 32-bit integer. */
  function Int32(x: nat): (r: int)
    ensures -INT32_RANGE <= r < INT32_RANGE
    ensures x < INT32_RANGE ==> r == x
    ensures (x - r) % 0x1_0000_0000 == 0
  {
    var m := x % UINT32_RANGE;
    if m < INT32_RANGE then m else m - UINT32_RANGE
  }

  /** A sequence with `chunk` stored from position `p` on, and nothing else changed. */
  function Overwrite<T>(s: seq<T>, p: nat, chunk: seq<T>): (r: seq<T>)
    requires p + |chunk| <= |s|
    ensures |r| == |s|
  {
    s[..p] + chunk + s[p + |chunk|..]
  }

  lemma Assoc<T>(a: seq<T>, b: seq<T>, c: seq<T>)
    ensures a + (b + c) == a + b + c
  {
  }
}
