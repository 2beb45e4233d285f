/** The wire codec (src/gamenet/types/packets/packets.go): the packet envelope
    `[type byte][body]` and the bodies it carries. */
module Packets {
  import opened Common
  import opened Varint

  // The packet types, numbered by `iota`; `LEN_PACKET_TYPE` is one past the last.
  const INPUT: byte := 0
  const STATE_REQUEST: byte := 1
  const FRAME_UPDATE: byte := 2
  const FRAME_ACK: byte := 3
  const JOIN: byte := 4
  const JOIN_ACK: byte := 5
  const LEN_PACKET_TYPE: byte := 6

  /** A datagram together with its peer: the unit the UDP reader hands to the
      protocol logic and the protocol logic hands to the UDP writer. The peer
      address is opaque. */
  datatype Message<A> = Message(addr: A, body: bytes)

  datatype Packet = Packet(packetType: byte, body: bytes)

  // ---------------------------------------------------------------- envelope

  function MarshalPacket(p: Packet): (r: bytes)
    ensures |r| == |p.body| + 1
    ensures r[0] == p.packetType && r[1..] == p.body
  {
    [p.packetType] + p.body
  }

  function UnmarshalPacket(msg: bytes): (r: Result<Packet, CodecError>)
    ensures |msg| == 0 ==> r == Failure(NotEnoughBytes)
    ensures |msg| > 0 && msg[0] >= LEN_PACKET_TYPE ==> r == Failure(InvalidPacketType)
    ensures r.Success? <==> |msg| > 0 && msg[0] < LEN_PACKET_TYPE
    ensures r.Success? ==> r.value.packetType < LEN_PACKET_TYPE && MarshalPacket(r.value) == msg
  {
    if |msg| < 1 then Failure(NotEnoughBytes)
    else if msg[0] >= LEN_PACKET_TYPE then Failure(InvalidPacketType)
    else Success(Packet(msg[0], msg[1..]))
  }

  /** Every packet of a known type survives the envelope unchanged. */
  lemma PacketRoundTrip(p: Packet)
    ensures UnmarshalPacket(MarshalPacket(p)) == (if p.packetType < LEN_PACKET_TYPE
                                                   then Success(p)
                                                   else Failure(InvalidPacketType))
  {
    assert MarshalPacket(p)[1..] == p.body;
  }

  // ---------------------------------------------------------------- join

  /** The join body is the username's bytes, with no length prefix. */
  datatype JoinBody = JoinBody(username: bytes)

  function MarshalJoin(j: JoinBody): bytes
  {
    j.username
  }

  /** Never fails: every byte string is some username. */
  function UnmarshalJoin(msg: bytes): JoinBody
  {
    JoinBody(msg)
  }

  /** The join codec is the identity on the username's bytes, both ways round. */
  lemma JoinRoundTrip(j: JoinBody, msg: bytes)
    ensures UnmarshalJoin(MarshalJoin(j)) == j
    ensures MarshalJoin(UnmarshalJoin(msg)) == msg
  {
  }

  // ---------------------------------------------------------------- framed bodies

  /** `JoinAckBody{Frame, State}`, `FrameUpdateBody{Frame, Delta}` and
      `InputBody{Frame, Input}` share one layout and one implementation: an
      unsigned varint frame number followed by a raw payload. */
  datatype FramedBody = FramedBody(frame: uint64, payload: bytes)

  /** The encoders allocate `len(payload) + 8` zeroed bytes, write the varint
      at the front and copy as much of the payload as still fits behind it.
      A varint longer than the whole buffer makes `PutUvarint` panic. */
  function MarshalFramed(b: FramedBody): (r: Result<bytes, CodecError>)
    ensures r.Success? <==> UvarintLen(b.frame) <= |b.payload| + 8
    ensures b.frame < TWO_56 ==> r.Success?
    ensures b.frame < TWO_64 / 2 && |b.payload| >= 1 ==> r.Success?
    ensures r.Failure? ==> r.error == BufferOverrun
    ensures r.Success? ==> |r.value| == |b.payload| + 8
                           && r.value[..UvarintLen(b.frame)] == PutUvarint(b.frame)
  {
    UvarintFitsEight(b.frame);
    Pow128Values();
    UvarintLenBound(b.frame, 9);
    var k := UvarintLen(b.frame);
    var size := |b.payload| + 8;
    if k > size then Failure(BufferOverrun)
    else Success(PutUvarint(b.frame) + (b.payload + Zeros(8))[..size - k])
  }

  /** Below 2^56 the varint fits in the 8 spare bytes: the whole payload
      follows it, then as many zeros as the varint left unused. */
  lemma MarshalFramedPadded(b: FramedBody)
    requires b.frame < TWO_56
    ensures UvarintLen(b.frame) <= 8
    ensures MarshalFramed(b) == Success(PutUvarint(b.frame) + (b.payload + Zeros(8 - UvarintLen(b.frame))))
  {
    UvarintFitsEight(b.frame);
    var k := UvarintLen(b.frame);
    var tail := (b.payload + Zeros(8))[..|b.payload| + 8 - k];
    PaddedTail(b.payload, k);
    assert tail == b.payload + Zeros(8 - k);
    assert MarshalFramed(b) == Success(PutUvarint(b.frame) + tail);
  }

  /** The bytes behind a varint of `k <= 8` bytes: the whole payload, then zeros. */
  lemma PaddedTail(payload: bytes, k: nat)
    requires k <= 8
    ensures (payload + Zeros(8))[..|payload| + 8 - k] == payload + Zeros(8 - k)
  {
    var lhs := (payload + Zeros(8))[..|payload| + 8 - k];
    var rhs := payload + Zeros(8 - k);
    assert |lhs| == |rhs|;
    forall i | 0 <= i < |lhs|
      ensures lhs[i] == rhs[i]
    {
      if i >= |payload| {
        assert lhs[i] == Zeros(8)[i - |payload|] == 0;
      }
    }
  }

  /** The decoders fail exactly when the leading varint does not parse; the
      payload is everything after it. */
  function UnmarshalFramed(msg: bytes): (r: Result<FramedBody, CodecError>)
    ensures r.Failure? <==> Uvarint(msg).n <= 0
    ensures r.Failure? ==> r.error == InvalidUvarint
    ensures r.Success? ==> r.value.frame == Uvarint(msg).value && |r.value.payload| < |msg|
  {
    var d := Uvarint(msg);
    if d.n <= 0 then Failure(InvalidUvarint)
    else Success(FramedBody(d.value, msg[d.n..]))
  }

  /** In terms of the bytes: decoding fails exactly on an unterminated or
      overlong varint; otherwise the frame is the base-128 value of the
      first one to ten bytes and the payload is the rest. */
  lemma UnmarshalFramedSpec(msg: bytes)
    ensures var r := UnmarshalFramed(msg);
      && (r.Failure? <==> Unterminated(msg, 0) || TooLong(msg, 0))
      && (r.Success? ==>
            var n := |msg| - |r.value.payload|;
            && 1 <= n <= MAX_VARINT_LEN64
            && msg[n..] == r.value.payload
            && r.value.frame == Base128(msg[..n]))
  {
    UvarintSpec(msg);
  }

  /** A well-formed varint followed by any bytes decodes to that value and those bytes. */
  lemma UnmarshalFramedAfterVarint(x: uint64, rest: bytes)
    ensures UnmarshalFramed(PutUvarint(x) + rest) == Success(FramedBody(x, rest))
  {
    var e := PutUvarint(x) + rest;
    UvarintRoundTrip(x, rest);
    assert e[UvarintLen(x)..] == rest;
  }

  /** What an encode-then-decode round trip really gives back: the frame, and
      the `len(payload) + 8 - UvarintLen(frame)` bytes behind the varint. */
  lemma FramedRoundTrip(b: FramedBody)
    requires MarshalFramed(b).Success?
    ensures UnmarshalFramed(MarshalFramed(b).value)
         == Success(FramedBody(b.frame, (b.payload + Zeros(8))[..|b.payload| + 8 - UvarintLen(b.frame)]))
  {
    var tail := (b.payload + Zeros(8))[..|b.payload| + 8 - UvarintLen(b.frame)];
    assert MarshalFramed(b).value == PutUvarint(b.frame) + tail;
    UnmarshalFramedAfterVarint(b.frame, tail);
  }

  /** Below 2^56 the frame comes back and the payload comes back followed by
      the unused part of the 8-byte allowance, as zeros. */
  lemma FramedRoundTripPadded(b: FramedBody)
    requires b.frame < TWO_56
    ensures MarshalFramed(b).Success? && UvarintLen(b.frame) <= 8
    ensures UnmarshalFramed(MarshalFramed(b).value)
         == Success(FramedBody(b.frame, b.payload + Zeros(8 - UvarintLen(b.frame))))
  {
    MarshalFramedPadded(b);
    UnmarshalFramedAfterVarint(b.frame, b.payload + Zeros(8 - UvarintLen(b.frame)));
  }

  /** A framed body below frame 2^56 inside a packet of a known type: the
      receiver reads back the type, the frame, and the payload followed by
      the zeros of the unused allowance. */
  lemma FramedPacketRoundTrip(t: byte, frame: uint64, payload: bytes)
    requires t < LEN_PACKET_TYPE
    requires frame < TWO_56
    ensures MarshalFramed(FramedBody(frame, payload)).Success? && UvarintLen(frame) <= 8
    ensures var body := MarshalFramed(FramedBody(frame, payload)).value;
      && UnmarshalPacket(MarshalPacket(Packet(t, body))) == Success(Packet(t, body))
      && UnmarshalFramed(body) == Success(FramedBody(frame, payload + Zeros(8 - UvarintLen(frame))))
  {
    var body := MarshalFramed(FramedBody(frame, payload)).value;
    PacketRoundTrip(Packet(t, body));
    FramedRoundTripPadded(FramedBody(frame, payload));
  }

  /** From 2^56 on the varint eats into the payload: when encoding succeeds at
      all, the payload comes back cut short by `UvarintLen(frame) - 8` bytes. */
  lemma FramedLargeFrameTruncates(b: FramedBody)
    requires TWO_56 <= b.frame
    requires MarshalFramed(b).Success?
    ensures UvarintLen(b.frame) > 8
    ensures UnmarshalFramed(MarshalFramed(b).value)
         == Success(FramedBody(b.frame, b.payload[..|b.payload| + 8 - UvarintLen(b.frame)]))
  {
    UvarintFitsEight(b.frame);
    FramedRoundTrip(b);
    var n := |b.payload| + 8 - UvarintLen(b.frame);
    assert (b.payload + Zeros(8))[..n] == b.payload[..n];
  }

  /** From 2^63 on the varint needs all 10 bytes, so any payload shorter than
      2 bytes makes the 8-byte allowance overrun. */
  lemma FramedHugeFrameOverruns(b: FramedBody)
    requires b.frame >= TWO_64 / 2
    ensures MarshalFramed(b).Failure? <==> |b.payload| < 2
  {
    Pow128Values();
    UvarintLenBound(b.frame, 9);
    UvarintLenTop(b.frame, MAX_VARINT_LEN64);
  }
}
