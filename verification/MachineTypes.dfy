/** Fixed-width integers as the Go code sees them, and the result types shared by
    every component. */
module MachineTypes {

  const TWO_TO_32: int := 0x1_0000_0000
  const TWO_TO_63: int := 0x8000_0000_0000_0000
  const TWO_TO_64: int := 0x1_0000_0000_0000_0000
  const MAX_UINT64: int := TWO_TO_64 - 1
  const MAX_INT64: int := TWO_TO_63 - 1

  type byte = x: int | 0 <= x < 256
  type uint32 = x: int | 0 <= x < TWO_TO_32
  type uint64 = x: int | 0 <= x < TWO_TO_64
  type int64 = x: int | -TWO_TO_63 <= x < TWO_TO_63
  /** Go's `[]byte` and `string` are both byte sequences here. */
  type bytes = seq<byte>

  /** Go's conversion `int64(x)`: the value modulo 2^64, read in two's complement. */
  function ToInt64(x: int): int64 {
    var r := x % TWO_TO_64;
    if r < TWO_TO_63 then r else r - TWO_TO_64
  }

  /** Go's conversion `uint64(x)`. */
  function ToUint64(x: int): uint64 {
    x % TWO_TO_64
  }

  datatype Option<+T> = None | Some(value: T)

  datatype Result<+T, +E> = Ok(value: T) | Err(error: E)

  /** What a Go call that may panic leaves behind. */
  datatype Outcome<+T> = Returned(value: T) | Panicked

  ghost predicate Distinct<T>(s: seq<T>) {
    forall i, j :: 0 <= i < j < |s| ==> s[i] != s[j]
  }

  lemma SameLengthSplit(a: bytes, b: bytes, c: bytes, d: bytes)
    requires |a| == |c| && a + b == c + d
    ensures a == c && b == d
  {
    assert (a + b)[..|a|] == a && (c + d)[..|a|] == c;
    assert (a + b)[|a|..] == b && (c + d)[|a|..] == d;
  }
}
