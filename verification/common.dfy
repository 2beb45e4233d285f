/** Shared vocabulary: bytes, 64-bit frame numbers, results and codec errors. */
module Common {

  /** One octet on the wire. */
  type byte = b: int | 0 <= b < 256

  type bytes = seq<byte>

  /** 2^64, the modulus of Go's uint64 arithmetic. */
  const TWO_64: int := 0x1_0000_0000_0000_0000

  /** Go's uint64: frame numbers on both sides of the protocol. */
  type uint64 = x: int | 0 <= x < 0x1_0000_0000_0000_0000

  /** Unsigned 64-bit addition as Go performs it: the sum wraps modulo 2^64. */
  function Wrap64(x: nat): (r: uint64)
    ensures x < TWO_64 ==> r == x
    ensures TWO_64 <= x < 2 * TWO_64 ==> r == x - TWO_64
  {
    x % TWO_64
  }

  /** `n` zero bytes: what `make([]byte, n)` holds before anything is copied in. */
  function Zeros(n: nat): (z: bytes)
    ensures |z| == n
    ensures forall i :: 0 <= i < n ==> z[i] == 0
  {
    seq(n, _ => 0)
  }

  datatype Result<+T, +E> = Success(value: T) | Failure(error: E)

  /** Why a codec step failed. `BufferOverrun` stands for the index-out-of-range
      panic Go raises when a varint is written past the end of its buffer. */
  datatype CodecError =
    | NotEnoughBytes
    | InvalidPacketType
    | InvalidUvarint
    | BufferOverrun
}
