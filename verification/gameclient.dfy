/** A player (src/gamenet/gameclient.go): its name, the server's address, the
    frame and state it has caught up to, and whether a join has been
    acknowledged. Each operation is a pure transition; a datagram handed to
    the UDP writer is returned instead of enqueued. */
module ClientSide {
  import opened Common
  import opened Varint
  import opened Packets
  import opened DemoGame

  datatype GameClient<A> = GameClient(
    username: bytes,
    serverAddr: A,
    currentFrame: uint64,
    state: State,
    joined: bool)

  datatype ClientError = NotJoined | Codec(err: CodecError)

  /** A client before it has heard from the server: frame 0, not joined. */
  function NewGameClient<A>(username: bytes, serverAddr: A, state: State): (c: GameClient<A>)
    ensures !c.joined && c.currentFrame == 0
    ensures c.username == username && c.serverAddr == serverAddr && c.state == state
  {
    GameClient(username, serverAddr, 0, state, false)
  }

  // ---------------------------------------------------------------- sending

  /** The join request: the username in a `Join` packet, sent to the server.
      It never fails and may be sent again at any time. */
  function Join<A>(c: GameClient<A>): (m: Message<A>)
    ensures m.addr == c.serverAddr
    ensures UnmarshalPacket(m.body) == Success(Packet(JOIN, MarshalJoin(JoinBody(c.username))))
    ensures UnmarshalJoin(UnmarshalPacket(m.body).value.body).username == c.username
  {
    var p := Packet(JOIN, MarshalJoin(JoinBody(c.username)));
    PacketRoundTrip(p);
    Message(c.serverAddr, MarshalPacket(p))
  }

  /** What the server reads out of an input datagram: an `Input` packet for
      `frame` whose raw input decodes to `diff`. */
  predicate IsInput(data: bytes, frame: uint64, diff: int)
  {
    var p := UnmarshalPacket(data);
    && p.Success? && p.value.packetType == INPUT
    && var f := UnmarshalFramed(p.value.body);
       f.Success? && f.value.frame == frame && UnmarshalDelta(f.value.payload).diff == diff
  }

  /** One input, stamped with the client's current frame. Refused before the
      join is acknowledged; a difference too wide for the 8-byte delta buffer,
      or a frame whose varint overruns the input buffer, is a panic. */
  function Input<A>(c: GameClient<A>, d: Delta): (r: Result<Message<A>, ClientError>)
    ensures !c.joined ==> r == Failure(NotJoined)
    ensures r.Success? <==>
      && c.joined && -TWO_55 <= d.diff < TWO_55
      && UvarintLen(c.currentFrame) <= |MarshalDelta(d).value| + 8
    ensures c.joined && -TWO_55 <= d.diff < TWO_55 && c.currentFrame < TWO_56 ==> r.Success?
    ensures r.Failure? && c.joined ==> r.error == Codec(BufferOverrun)
    ensures r.Success? ==> r.value.addr == c.serverAddr
  {
    if !c.joined then Failure(NotJoined)
    else
      var input := MarshalDelta(d);
      if input.Failure? then Failure(Codec(input.error))
      else
        var body := MarshalFramed(FramedBody(c.currentFrame, input.value));
        if body.Failure? then Failure(Codec(body.error))
        else Success(Message(c.serverAddr, MarshalPacket(Packet(INPUT, body.value))))
  }

  /** Below frame 2^56 the server decodes from an input datagram exactly the
      client's frame and difference. */
  lemma InputDecodes<A>(c: GameClient<A>, d: Delta)
    requires Input(c, d).Success?
    requires c.currentFrame < TWO_56
    ensures IsInput(Input(c, d).value.body, c.currentFrame, d.diff)
  {
    var input := MarshalDelta(d).value;
    var body := MarshalFramed(FramedBody(c.currentFrame, input)).value;
    var data := Input(c, d).value.body;
    assert data == MarshalPacket(Packet(INPUT, body));
    FramedPacketRoundTrip(INPUT, c.currentFrame, input);
    var padding := Zeros(8 - UvarintLen(c.currentFrame));
    assert UnmarshalPacket(data) == Success(Packet(INPUT, body));
    assert UnmarshalFramed(body) == Success(FramedBody(c.currentFrame, input + padding));
    DeltaRoundTrip(d, padding);
    assert UnmarshalDelta(input + padding).diff == d.diff;
  }

  // ---------------------------------------------------------------- receiving

  /** One received datagram. A failure ends the client's loop: an undecodable
      packet, join acknowledgement or frame update returns an error. A join
      acknowledgement adopts the server's frame and state snapshot; a frame
      update applies its delta and adopts its frame, but only once joined.
      Every other packet type is ignored. */
  function ReceiveMessage<A>(c: GameClient<A>, msg: Message<A>): (r: Result<GameClient<A>, ClientError>)
    ensures UnmarshalPacket(msg.body).Failure? ==> r == Failure(Codec(UnmarshalPacket(msg.body).error))
    ensures r.Success? ==> r.value.username == c.username && r.value.serverAddr == c.serverAddr
    ensures r.Success? && r.value.joined != c.joined ==>
      !c.joined && UnmarshalPacket(msg.body).value.packetType == JOIN_ACK
    ensures UnmarshalPacket(msg.body).Success? ==>
      var p := UnmarshalPacket(msg.body).value;
      var f := UnmarshalFramed(p.body);
      && (p.packetType == JOIN_ACK ==>
            && (r.Success? <==> f.Success?)
            && (r.Success? ==>
                  && r.value.joined
                  && r.value.currentFrame == f.value.frame
                  && r.value.state == UnmarshalState(f.value.payload)))
      && (p.packetType == FRAME_UPDATE && !c.joined ==> r == Success(c))
      && (p.packetType == FRAME_UPDATE && c.joined ==>
            && (r.Success? <==> f.Success?)
            && (r.Success? ==>
                  && r.value.joined
                  && r.value.currentFrame == f.value.frame
                  && r.value.state.counter - c.state.counter == UnmarshalDelta(f.value.payload).diff))
      && (p.packetType != JOIN_ACK && p.packetType != FRAME_UPDATE ==> r == Success(c))
  {
    var p := UnmarshalPacket(msg.body);
    if p.Failure? then Failure(Codec(p.error))
    else if p.value.packetType == JOIN_ACK then
      var ack := UnmarshalFramed(p.value.body);
      if ack.Failure? then Failure(Codec(ack.error))
      else Success(c.(currentFrame := ack.value.frame, state := UnmarshalState(ack.value.payload), joined := true))
    else if p.value.packetType == FRAME_UPDATE then
      if !c.joined then Success(c)
      else
        var update := UnmarshalFramed(p.value.body);
        if update.Failure? then Failure(Codec(update.error))
        else Success(c.(currentFrame := update.value.frame, state := UpdateOnDelta(c.state, update.value.payload)))
    else Success(c)
  }

  /** The frame update for frame 0 with an empty delta: two bytes. */
  function FrameZeroUpdate(): bytes
  {
    [FRAME_UPDATE, 0]
  }

  /** Frame updates are applied without comparing frames: a joined client
      handed the update for frame 0 goes back to frame 0, whatever frame it
      had reached, and keeps its state. */
  lemma FrameCanMoveBackwards<A>(c: GameClient<A>, from: A)
    requires c.joined
    ensures ReceiveMessage(c, Message(from, FrameZeroUpdate())) == Success(c.(currentFrame := 0))
  {
    var body: bytes := [0];
    assert FrameZeroUpdate()[1..] == body;
    assert Uvarint(body) == Decoded(0, 1);
    assert body[1..] == [];
  }

  /** Updates are not deduplicated: the same datagram received twice applies
      its delta twice. */
  lemma ReplayedUpdateAppliesTwice<A>(c: GameClient<A>, msg: Message<A>)
    requires c.joined
    requires UnmarshalPacket(msg.body).Success? && UnmarshalPacket(msg.body).value.packetType == FRAME_UPDATE
    requires ReceiveMessage(c, msg).Success?
    ensures ReceiveMessage(ReceiveMessage(c, msg).value, msg).Success?
    ensures var f := UnmarshalFramed(UnmarshalPacket(msg.body).value.body).value;
      ReceiveMessage(ReceiveMessage(c, msg).value, msg).value.state.counter
      == c.state.counter + 2 * UnmarshalDelta(f.payload).diff
  {
  }

  /** Before the first join acknowledgement, frame updates are ignored and
      inputs are refused, so a client cannot act on a game it has not joined. */
  lemma UnjoinedIgnoresUpdates<A>(c: GameClient<A>, msg: Message<A>, d: Delta)
    requires !c.joined
    requires UnmarshalPacket(msg.body).Success? && UnmarshalPacket(msg.body).value.packetType == FRAME_UPDATE
    ensures ReceiveMessage(c, msg) == Success(c)
    ensures Input(c, d) == Failure(NotJoined)
  {
  }
}
