/** Machine integer types of the firmware, and the small helpers the other modules share. */
module Common {

  type byte = x: int | 0 <= x < 0x100
  type uint16 = x: int | 0 <= x < 0x1_0000
  type uint32 = x: int | 0 <= x < 0x1_0000_0000

  const UINT32_RANGE: int := 0x1_0000_0000

  datatype Option<T> = None | Some(value: T)

  /** The C conversion of a `uint32_t` to `int32_t`: the same bit pattern, read as two's complement. */
  function Int32(x: uint32): (r: int)
    ensures -0x8000_0000 <= r < 0x8000_0000
    ensures x < 0x8000_0000 ==> r == x
    ensures x >= 0x8000_0000 ==> r == x - UINT32_RANGE
  {
    if x < 0x8000_0000 then x else x - UINT32_RANGE
  }

  /** A run of `n` zero bytes (static storage and `calloc` memory start out this way). */
  function Zeros(n: nat): (r: seq<byte>)
    ensures |r| == n
    ensures forall i :: 0 <= i < n ==> r[i] == 0
  {
    seq(n, _ => 0)
  }

  /** The sum of the lengths of `chunks`. */
  function TotalLength(chunks: seq<seq<byte>>): (r: nat)
    decreases |chunks|
  {
    if chunks == [] then 0 else TotalLength(chunks[..|chunks| - 1]) + |chunks[|chunks| - 1]|
  }

  /** All of `chunks`, one after another. */
  function Concat(chunks: seq<seq<byte>>): (r: seq<byte>)
    decreases |chunks|
  {
    if chunks == [] then [] else Concat(chunks[..|chunks| - 1]) + chunks[|chunks| - 1]
  }

  lemma {:induction false} ConcatLength(chunks: seq<seq<byte>>)
    ensures |Concat(chunks)| == TotalLength(chunks)
    decreases |chunks|
  {
    if chunks != [] {
      ConcatLength(chunks[..|chunks| - 1]);
    }
  }
}
