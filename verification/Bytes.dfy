/** Bytes, byte strings and the word widths the Go code computes with. */
module Bytes {

  type byte = x: int | 0 <= x < 256

  type uint32 = x: int | 0 <= x < TWO32
  type uint64 = x: int | 0 <= x < TWO64

  datatype Option<+T> = None | Some(value: T)

  const TWO31: int := 0x8000_0000
  const TWO32: int := 0x1_0000_0000
  const TWO63: int := 0x8000_0000_0000_0000
  const TWO64: int := 0x1_0000_0000_0000_0000

  /** The int32 conversion of a non-negative number. */
  function Int32(x: nat): int {
    var low := x % TWO32;
    if low >= TWO31 then low - TWO32 else low
  }

  /** The value of a 64-bit signed word after wrap-around. */
  function Int64(x: int): int {
    var low := x % TWO64;
    if low >= TWO63 then low - TWO64 else low
  }

  /** The conversion keeps numbers in range, and takes any other to the one it agrees with modulo 2^32. */
  lemma Int32Exact(x: nat)
    ensures x < TWO31 ==> Int32(x) == x
    ensures -TWO31 <= Int32(x) < TWO31 && (x - Int32(x)) % TWO32 == 0
  {
  }

  lemma Int64Exact(x: int)
    ensures -TWO63 <= x < TWO63 ==> Int64(x) == x
    ensures -TWO63 <= Int64(x) < TWO63 && (x - Int64(x)) % TWO64 == 0
  {
  }

  /** A sum of two in-range, non-negative ints looks negative exactly when it wrapped. */
  lemma NegativeIffWrapped(i: int, n: int)
    requires 0 <= i < TWO63 && 0 <= n < TWO63
    ensures Int64(i + n) < 0 <==> i + n >= TWO63
    ensures i + n < TWO63 ==> Int64(i + n) == i + n
  {
  }
}
