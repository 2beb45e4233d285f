/** The variable-length integers of Go's `encoding/binary` package, which the
    wire codec and the demo game use: unsigned LEB128 (`PutUvarint`/`Uvarint`,
    the layout of section 7.6 of the DWARF Version 4 standard) and its signed
    zigzag variant (`PutVarint`/`Varint`). */
module Varint {
  import opened Common

  /** The longest encoding of a 64-bit value (`binary.MaxVarintLen64`). */
  const MAX_VARINT_LEN64: nat := 10

  /** 2^56: the values whose unsigned varint fits in 8 bytes are exactly those below it. */
  const TWO_56: int := 0x100_0000_0000_0000

  /** 2^55: the signed values whose zigzag varint fits in 8 bytes lie in [-2^55, 2^55). */
  const TWO_55: int := 0x80_0000_0000_0000

  function Pow128(k: nat): (p: nat)
    ensures p >= 1
    ensures k >= 1 ==> p >= 128
  {
    if k == 0 then 1 else 128 * Pow128(k - 1)
  }

  lemma Pow128Values()
    ensures Pow128(8) == TWO_56
    ensures 2 * Pow128(9) == TWO_64
  {
    assert Pow128(1) == 128;
    assert Pow128(2) == 0x4000;
    assert Pow128(3) == 0x20_0000;
    assert Pow128(4) == 0x1000_0000;
    assert Pow128(5) == 0x8_0000_0000;
    assert Pow128(6) == 0x400_0000_0000;
    assert Pow128(7) == 0x2_0000_0000_0000;
  }

  /** Reference reading of a byte string as little-endian base-128 digits,
      one digit in the low seven bits of each byte. */
  function Base128(s: bytes): nat
  {
    if s == [] then 0 else s[0] % 128 + 128 * Base128(s[1..])
  }

  lemma {:induction false} Base128Bound(s: bytes)
    ensures Base128(s) < Pow128(|s|)
  {
    if s != [] {
      Base128Bound(s[1..]);
    }
  }

  // ---------------------------------------------------------------- encoding

  /** The number of bytes `binary.PutUvarint` writes for `x`: one per started
      group of seven bits. */
  function UvarintLen(x: nat): (n: nat)
    ensures n >= 1
  {
    if x < 128 then 1 else 1 + UvarintLen(x / 128)
  }

  /** The most significant seven-bit group of `x`, the one the last byte carries. */
  function TopGroup(x: nat): (g: nat)
    ensures g < 128
  {
    if x < 128 then x else TopGroup(x / 128)
  }

  /** The bytes `binary.PutUvarint(buf, x)` writes: seven bits at a time, low
      group first, with the high bit set on every byte but the last. */
  function PutUvarint(x: nat): (r: bytes)
    ensures |r| == UvarintLen(x)
    ensures forall i :: 0 <= i < |r| - 1 ==> r[i] >= 128
    ensures r[|r| - 1] == TopGroup(x)
    ensures Base128(r) == x
  {
    if x < 128 then [x] else [x % 128 + 128] + PutUvarint(x / 128)
  }

  /** The encoding of `x` fits in `k` bytes exactly when `x < 128^k`. */
  lemma {:induction false} UvarintLenBound(x: nat, k: nat)
    requires k >= 1
    ensures x < Pow128(k) <==> UvarintLen(x) <= k
    decreases x
  {
    if x >= 128 && k >= 2 {
      UvarintLenBound(x / 128, k - 1);
    }
  }

  /** A 64-bit value needs at most ten bytes, and when it needs all ten the
      last one holds a single bit. */
  lemma {:induction false} UvarintLenTop(x: nat, k: nat)
    requires k >= 1
    requires x < 2 * Pow128(k - 1)
    ensures UvarintLen(x) <= k
    ensures UvarintLen(x) == k ==> TopGroup(x) <= 1
    decreases k
  {
    if x >= 128 {
      assert k >= 2;
      var p := Pow128(k - 2);
      assert Pow128(k - 1) == 128 * p;
      assert x / 128 < 2 * p;
      UvarintLenTop(x / 128, k - 1);
    }
  }

  /** Values below 2^56 encode in at most 8 bytes, and no others do. */
  lemma UvarintFitsEight(x: nat)
    ensures x < TWO_56 <==> UvarintLen(x) <= 8
  {
    Pow128Values();
    UvarintLenBound(x, 8);
  }

  // ---------------------------------------------------------------- decoding

  /** Go's `(uint64, int)` result of `binary.Uvarint`: `n > 0` is the number
      of bytes read, `n == 0` means the buffer ended first, `n < 0` means the
      value overflows 64 bits (and `-n` bytes were examined). */
  datatype Decoded = Decoded(value: nat, n: int)

  /** The buffer ends (or is empty) before any terminating byte appears. */
  predicate Unterminated(buf: bytes, i: nat)
  {
    |buf| <= MAX_VARINT_LEN64 && forall j :: i <= j < |buf| ==> buf[j] >= 128
  }

  /** Ten continuation bytes followed by an eleventh byte, or a tenth byte
      carrying more than the one bit that still fits in a uint64. Exactly ten
      continuation bytes with nothing after them are `Unterminated`. */
  predicate TooLong(buf: bytes, i: nat)
  {
    || (|buf| > MAX_VARINT_LEN64 && forall j :: i <= j < MAX_VARINT_LEN64 ==> buf[j] >= 128)
    || (i <= 9 && |buf| >= MAX_VARINT_LEN64 && (forall j :: i <= j < 9 ==> buf[j] >= 128)
        && 1 < buf[9] < 128)
  }

  /** `binary.Uvarint`'s loop from byte `i` on; the value is relative to
      position `i` (digit `i` has weight 1). */
  function UvarintFrom(buf: bytes, i: nat): (r: Decoded)
    requires i <= MAX_VARINT_LEN64
    ensures r.n <= 0 ==> r.value == 0
    ensures r.n > 0 ==> i < r.n <= |buf| && r.n <= MAX_VARINT_LEN64
    decreases |buf| - i
  {
    if i >= |buf| then Decoded(0, 0)
    else if i == MAX_VARINT_LEN64 then Decoded(0, -(i + 1))
    else if buf[i] < 128 then
      if i == MAX_VARINT_LEN64 - 1 && buf[i] > 1 then Decoded(0, -(i + 1))
      else Decoded(buf[i], i + 1)
    else
      var d := UvarintFrom(buf, i + 1);
      if d.n > 0 then Decoded(buf[i] - 128 + 128 * d.value, d.n) else d
  }

  /** The loop from byte `i` runs out of bytes exactly on an unterminated
      buffer and overflows exactly on an overlong one. */
  lemma {:induction false} UvarintFromFails(buf: bytes, i: nat)
    requires i <= MAX_VARINT_LEN64
    ensures UvarintFrom(buf, i).n == 0 <==> Unterminated(buf, i)
    ensures UvarintFrom(buf, i).n < 0 <==> TooLong(buf, i)
    decreases |buf| - i
  {
    if i < |buf| && i < MAX_VARINT_LEN64 && buf[i] >= 128 {
      UvarintFromFails(buf, i + 1);
    }
  }

  /** Otherwise the loop stops at the first terminator with the base-128
      value of the bytes read, which fits the bits left after `i` digits. */
  lemma {:induction false} UvarintFromReads(buf: bytes, i: nat)
    requires i <= MAX_VARINT_LEN64
    ensures var r := UvarintFrom(buf, i);
      r.n > 0 ==>
        && buf[r.n - 1] < 128
        && (forall j :: i <= j < r.n - 1 ==> buf[j] >= 128)
        && r.value == Base128(buf[i..r.n])
        && r.value < 2 * Pow128(MAX_VARINT_LEN64 - 1 - i)
    decreases |buf| - i
  {
    if i < |buf| && i < MAX_VARINT_LEN64 && buf[i] >= 128 {
      UvarintFromReads(buf, i + 1);
      var d := UvarintFrom(buf, i + 1);
      if d.n > 0 {
        assert buf[i..d.n][1..] == buf[i + 1..d.n];
      }
    }
  }

  /** `binary.Uvarint(buf)`. */
  function Uvarint(buf: bytes): (r: Decoded)
    ensures r.n <= 0 ==> r.value == 0
    ensures r.n > 0 ==> r.n <= |buf| && r.n <= MAX_VARINT_LEN64
    ensures r.value < TWO_64
  {
    Pow128Values();
    UvarintFromReads(buf, 0);
    UvarintFrom(buf, 0)
  }

  /** `binary.Uvarint` fails with `n == 0` exactly on a buffer that ends
      before any terminator, fails with `n < 0` exactly on an encoding that
      overflows 64 bits, and otherwise reads the base-128 value of the bytes
      up to and including the first terminator. */
  lemma UvarintSpec(buf: bytes)
    ensures var r := Uvarint(buf);
      && (r.n == 0 <==> Unterminated(buf, 0))
      && (r.n < 0 <==> TooLong(buf, 0))
      && (r.n > 0 ==>
            && buf[r.n - 1] < 128
            && (forall j :: 0 <= j < r.n - 1 ==> buf[j] >= 128)
            && r.value == Base128(buf[..r.n]))
  {
    UvarintFromFails(buf, 0);
    UvarintFromReads(buf, 0);
  }

  /** The shape `Uvarint` accepts in full: continuation bytes, then a
      terminator, ten bytes at most, and a tenth byte holding one bit. */
  predicate WellTerminated(e: bytes)
  {
    && 1 <= |e| <= MAX_VARINT_LEN64
    && (forall j :: 0 <= j < |e| - 1 ==> e[j] >= 128)
    && e[|e| - 1] < 128
    && (|e| == MAX_VARINT_LEN64 ==> e[9] <= 1)
  }

  /** A well-terminated varint decodes to its base-128 value, whatever follows it. */
  lemma UvarintOfTerminated(e: bytes, rest: bytes)
    requires WellTerminated(e)
    ensures Uvarint(e + rest) == Decoded(Base128(e), |e|)
  {
    var buf := e + rest;
    var len := |e|;
    assert buf[len - 1] < 128;
    assert !Unterminated(buf, 0);
    assert !TooLong(buf, 0) by {
      if len - 1 < 9 {
        assert buf[len - 1] < 128;
      } else {
        assert buf[9] == e[9];
      }
    }
    assert forall j :: 0 <= j < len ==> buf[j] == e[j];
    UvarintSpec(buf);
    var r := Uvarint(buf);
    assert r.n == len;
    assert buf[..len] == e;
  }

  /** A 64-bit value encodes in at most ten bytes, the tenth holding one bit. */
  lemma UvarintLenMax(x: nat)
    requires x < TWO_64
    ensures UvarintLen(x) <= MAX_VARINT_LEN64
    ensures UvarintLen(x) == MAX_VARINT_LEN64 ==> TopGroup(x) <= 1
  {
    Pow128Values();
    UvarintLenTop(x, MAX_VARINT_LEN64);
  }

  /** Every 64-bit value encodes to a well-terminated varint. */
  lemma PutUvarintTerminated(x: nat)
    requires x < TWO_64
    ensures WellTerminated(PutUvarint(x))
  {
    UvarintLenMax(x);
  }

  /** Decoding reads back exactly the bytes `PutUvarint` wrote, whatever follows them. */
  lemma UvarintRoundTrip(x: nat, rest: bytes)
    requires x < TWO_64
    ensures Uvarint(PutUvarint(x) + rest) == Decoded(x, UvarintLen(x))
  {
    PutUvarintTerminated(x);
    UvarintOfTerminated(PutUvarint(x), rest);
  }

  // ---------------------------------------------------------------- signed

  /** Go's signed-to-unsigned mapping in `PutVarint`: `uint64(x) << 1`,
      complemented for negative `x`, so small magnitudes stay small. */
  function Zigzag(x: int): (u: nat)
    ensures Unzigzag(u) == x
    ensures u < TWO_56 <==> -TWO_55 <= x < TWO_55
  {
    if x >= 0 then 2 * x else -2 * x - 1
  }

  /** The inverse mapping in `Varint`: `ux >> 1`, complemented when the low bit is set. */
  function Unzigzag(u: nat): int
  {
    if u % 2 == 0 then u / 2 else -(u / 2) - 1
  }

  /** The bytes `binary.PutVarint(buf, x)` writes. */
  function PutVarint(x: int): (r: bytes)
    ensures 1 <= |r|
    ensures |r| <= 8 <==> -TWO_55 <= x < TWO_55
  {
    UvarintFitsEight(Zigzag(x));
    PutUvarint(Zigzag(x))
  }

  /** The value of `binary.Varint(buf)`; its byte count is discarded by every
      caller, and on a parse failure the value is 0. */
  function VarintValue(buf: bytes): (v: int)
    ensures Uvarint(buf).n <= 0 ==> v == 0
  {
    Unzigzag(Uvarint(buf).value)
  }

  lemma VarintRoundTrip(x: int, rest: bytes)
    requires -TWO_55 <= x < TWO_55
    ensures VarintValue(PutVarint(x) + rest) == x
  {
    UvarintRoundTrip(Zigzag(x), rest);
  }
}
