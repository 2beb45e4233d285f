/** The authoritative server (src/gamenet/gameserver.go): a 128-slot ring of
    pending inputs indexed by `frame % 128`, the current frame, the roster of
    joined clients and the game state, instantiated with the demo counter.
    Each operation is a pure transition; messages handed to the UDP writer
    are returned instead of enqueued. */
module GameServer {
  import opened Common
  import opened Varint
  import opened Packets
  import opened DemoGame

  /** `len(frame_buffer)`. */
  const FRAME_BUFFER_LEN: nat := 128

  type Ring = r: seq<seq<bytes>> | |r| == FRAME_BUFFER_LEN witness seq(128, _ => [])

  /** Roster entry. `lastFrame` is written on join and never read. */
  datatype Client<A> = Client(username: bytes, lastFrame: uint64, addr: A)

  datatype Server<A> = Server(
    currentFrame: uint64,
    state: State,
    frameBuffer: Ring,
    clients: map<bytes, Client<A>>)

  datatype ServerError = OutdatedFrame | NonBufferedFrame | Codec(err: CodecError)

  /** The state a freshly created server starts from: the given game state,
      frame 0, no clients, every slot empty. */
  function NewServer<A>(state: State): (s: Server<A>)
    ensures s.state == state
    ensures s.currentFrame == 0 && s.clients == map[]
    ensures forall j :: 0 <= j < FRAME_BUFFER_LEN ==> s.frameBuffer[j] == []
  {
    Server(0, state, seq(FRAME_BUFFER_LEN, _ => []), map[])
  }

  /** The slot a frame's inputs live in. */
  function Slot(frame: uint64): (i: nat)
    ensures i < FRAME_BUFFER_LEN
  {
    frame % FRAME_BUFFER_LEN
  }

  /** The highest frame the window check lets through:
      `current_frame + uint64(len(frame_buffer))`, wrapping like a uint64. */
  function WindowTop(currentFrame: uint64): (top: uint64)
    ensures currentFrame + FRAME_BUFFER_LEN < TWO_64 ==> top == currentFrame + FRAME_BUFFER_LEN
    ensures currentFrame + FRAME_BUFFER_LEN >= TWO_64 ==> top < currentFrame
  {
    Wrap64(currentFrame + FRAME_BUFFER_LEN)
  }

  /** The inputs queued for the current frame: the ones the next tick consumes. */
  function CurrentInputs<A>(s: Server<A>): seq<bytes>
  {
    s.frameBuffer[Slot(s.currentFrame)]
  }

  /** Every slot but `i` is the same in both rings. */
  predicate OthersUnchanged(a: Ring, b: Ring, i: nat)
  {
    forall j :: 0 <= j < FRAME_BUFFER_LEN && j != i ==> a[j] == b[j]
  }

  // ---------------------------------------------------------------- input

  /** Queues one raw input for `frame`, if the frame lies in the window. */
  function HandleInput<A>(s: Server<A>, frame: uint64, input: bytes): (r: Result<Server<A>, ServerError>)
    ensures frame < s.currentFrame ==> r == Failure(OutdatedFrame)
    ensures s.currentFrame <= frame && frame > WindowTop(s.currentFrame) ==> r == Failure(NonBufferedFrame)
    ensures r.Success? <==> s.currentFrame <= frame <= WindowTop(s.currentFrame)
    ensures r.Success? ==>
      && r.value.frameBuffer[Slot(frame)] == s.frameBuffer[Slot(frame)] + [input]
      && OthersUnchanged(r.value.frameBuffer, s.frameBuffer, Slot(frame))
      && r.value.currentFrame == s.currentFrame
      && r.value.state == s.state
      && r.value.clients == s.clients
  {
    if frame < s.currentFrame then Failure(OutdatedFrame)
    else if frame > WindowTop(s.currentFrame) then Failure(NonBufferedFrame)
    else
      var index := Slot(frame);
      Success(s.(frameBuffer := s.frameBuffer[index := s.frameBuffer[index] + [input]]))
  }

  /** Away from the top of the uint64 range the window is exactly the 129
      frames `current_frame .. current_frame + 128`. */
  lemma HandleInputWindow<A>(s: Server<A>, frame: uint64, input: bytes)
    requires s.currentFrame + FRAME_BUFFER_LEN < TWO_64
    ensures HandleInput(s, frame, input).Success?
        <==> s.currentFrame <= frame <= s.currentFrame + FRAME_BUFFER_LEN
  {
  }

  /** Within 128 frames of 2^64 the window bound wraps below the current
      frame, and every input is refused. */
  lemma HandleInputRefusesNearWrap<A>(s: Server<A>, frame: uint64, input: bytes)
    requires s.currentFrame + FRAME_BUFFER_LEN >= TWO_64
    ensures HandleInput(s, frame, input).Failure?
  {
  }

  /** The window's top frame shares its slot with the current frame. */
  lemma WindowTopAliasesCurrentSlot<A>(s: Server<A>, input: bytes)
    requires s.currentFrame + FRAME_BUFFER_LEN < TWO_64
    ensures HandleInput(s, s.currentFrame + FRAME_BUFFER_LEN, input).Success?
    ensures Slot(s.currentFrame + FRAME_BUFFER_LEN) == Slot(s.currentFrame)
    ensures HandleInput(s, s.currentFrame + FRAME_BUFFER_LEN, input).value
         == HandleInput(s, s.currentFrame, input).value
  {
  }

  /** Two inputs for one frame accumulate in arrival order; neither overwrites the other. */
  lemma HandleInputAccumulates<A>(s: Server<A>, frame: uint64, a: bytes, b: bytes)
    requires HandleInput(s, frame, a).Success?
    ensures HandleInput(HandleInput(s, frame, a).value, frame, b).Success?
    ensures HandleInput(HandleInput(s, frame, a).value, frame, b).value.frameBuffer[Slot(frame)]
         == s.frameBuffer[Slot(frame)] + [a, b]
  {
  }

  // ---------------------------------------------------------------- step

  /** `GenerateDelta` followed by `MarshalBinary`: the delta bytes for a batch
      of inputs, or the panic of a difference too wide for 8 bytes. */
  function MarshalledDelta(frame: uint64, inputs: seq<bytes>): (r: Result<bytes, ServerError>)
    ensures r.Success? <==> -TWO_55 <= SumDiffs(inputs) < TWO_55
    ensures r.Failure? ==> r.error == Codec(BufferOverrun)
    ensures r.Success? ==> r.value == PutVarint(SumDiffs(inputs))
    ensures r.Success? ==> UnmarshalDelta(r.value).diff == SumDiffs(inputs)
  {
    var delta := MarshalDelta(GenerateDelta(frame, inputs));
    if delta.Failure? then Failure(Codec(delta.error))
    else
      DeltaRoundTrip(GenerateDelta(frame, inputs), []);
      assert delta.value + [] == delta.value;
      Success(delta.value)
  }

  /** What a client reads out of a datagram the server sent: a `FrameUpdate`
      packet for `frame` whose delta decodes to `diff`. */
  predicate IsFrameUpdate(data: bytes, frame: uint64, diff: int)
  {
    var p := UnmarshalPacket(data);
    && p.Success? && p.value.packetType == FRAME_UPDATE
    && var f := UnmarshalFramed(p.value.body);
       f.Success? && f.value.frame == frame && UnmarshalDelta(f.value.payload).diff == diff
  }

  /** The datagram a tick broadcasts: a `FrameUpdate` packet carrying the
      frame after `currentFrame` and the delta of the consumed inputs. */
  function FrameUpdateData(currentFrame: uint64, inputs: seq<bytes>): (r: Result<bytes, ServerError>)
    ensures !(-TWO_55 <= SumDiffs(inputs) < TWO_55) ==> r == Failure(Codec(BufferOverrun))
    ensures (-TWO_55 <= SumDiffs(inputs) < TWO_55 && Wrap64(currentFrame + 1) < TWO_64 / 2) ==> r.Success?
  {
    var delta := MarshalledDelta(currentFrame, inputs);
    if delta.Failure? then Failure(delta.error)
    else
      var body := MarshalFramed(FramedBody(Wrap64(currentFrame + 1), delta.value));
      if body.Failure? then Failure(Codec(body.error))
      else Success(MarshalPacket(Packet(FRAME_UPDATE, body.value)))
  }

  /** As long as the new frame is below 2^56, a client decodes from the
      broadcast datagram exactly that frame and the consumed inputs' total. */
  lemma FrameUpdateDataDecodes(currentFrame: uint64, inputs: seq<bytes>)
    requires FrameUpdateData(currentFrame, inputs).Success?
    requires Wrap64(currentFrame + 1) < TWO_56
    ensures IsFrameUpdate(FrameUpdateData(currentFrame, inputs).value, Wrap64(currentFrame + 1), SumDiffs(inputs))
  {
    var next := Wrap64(currentFrame + 1);
    var delta := MarshalledDelta(currentFrame, inputs).value;
    var body := MarshalFramed(FramedBody(next, delta)).value;
    var data := FrameUpdateData(currentFrame, inputs).value;
    assert data == MarshalPacket(Packet(FRAME_UPDATE, body));
    FramedPacketRoundTrip(FRAME_UPDATE, next, delta);
    var padding := Zeros(8 - UvarintLen(next));
    assert UnmarshalPacket(data) == Success(Packet(FRAME_UPDATE, body));
    assert UnmarshalFramed(body) == Success(FramedBody(next, delta + padding));
    VarintRoundTrip(SumDiffs(inputs), padding);
    assert UnmarshalDelta(delta + padding).diff == SumDiffs(inputs);
  }

  datatype StepOutput<A> = StepOutput(server: Server<A>, sent: map<bytes, Message<A>>)

  /** One tick: apply the current slot's inputs to the state, turn them into a
      delta, clear the slot, advance the frame and address one `FrameUpdate`
      for the new frame to every roster entry (keyed by username, since the
      roster is iterated in no particular order). */
  function GameServerStep<A>(s: Server<A>): (r: Result<StepOutput<A>, ServerError>)
    ensures r.Success? <==> FrameUpdateData(s.currentFrame, CurrentInputs(s)).Success?
    ensures r.Success? ==>
      var s' := r.value.server;
      && s'.currentFrame == Wrap64(s.currentFrame + 1)
      && s'.frameBuffer[Slot(s.currentFrame)] == []
      && OthersUnchanged(s'.frameBuffer, s.frameBuffer, Slot(s.currentFrame))
      && s'.state.counter == s.state.counter + SumDiffs(CurrentInputs(s))
      && s'.clients == s.clients
  {
    var inputs := CurrentInputs(s);
    var data := FrameUpdateData(s.currentFrame, inputs);
    if data.Failure? then Failure(data.error)
    else
      var s' := s.(currentFrame := Wrap64(s.currentFrame + 1), state := UpdateOnInput(s.state, inputs),
                   frameBuffer := s.frameBuffer[Slot(s.currentFrame) := []]);
      Success(StepOutput(s', map u | u in s.clients :: Message(s.clients[u].addr, data.value)))
  }

  /** A tick sends one datagram per roster entry, to that entry's address,
      and the same bytes to each. */
  lemma StepAddressesEveryClient<A>(s: Server<A>)
    requires GameServerStep(s).Success?
    ensures GameServerStep(s).value.sent.Keys == s.clients.Keys
    ensures forall u :: u in GameServerStep(s).value.sent ==>
      GameServerStep(s).value.sent[u]
      == Message(s.clients[u].addr, FrameUpdateData(s.currentFrame, CurrentInputs(s)).value)
  {
  }

  /** Every datagram of a tick carries the new frame and the total difference
      of the inputs consumed, as long as the new frame is below 2^56. */
  lemma StepBroadcastsFrameUpdate<A>(s: Server<A>, u: bytes)
    requires GameServerStep(s).Success?
    requires u in GameServerStep(s).value.sent
    requires Wrap64(s.currentFrame + 1) < TWO_56
    ensures GameServerStep(s).value.sent[u].addr == s.clients[u].addr
    ensures IsFrameUpdate(GameServerStep(s).value.sent[u].body, Wrap64(s.currentFrame + 1),
                          SumDiffs(CurrentInputs(s)))
  {
    StepAddressesEveryClient(s);
    FrameUpdateDataDecodes(s.currentFrame, CurrentInputs(s));
  }

  /** An input accepted for the window's top frame lands in the slot the very
      next tick consumes, so it is applied one frame later than the current
      frame instead of 128 frames later. */
  lemma WindowTopInputAppliedNextTick<A>(s: Server<A>, input: bytes)
    requires s.currentFrame + FRAME_BUFFER_LEN < TWO_64
    ensures HandleInput(s, s.currentFrame + FRAME_BUFFER_LEN, input).Success?
    ensures var s' := HandleInput(s, s.currentFrame + FRAME_BUFFER_LEN, input).value;
      GameServerStep(s').Success? ==>
        GameServerStep(s').value.server.state.counter
        == s.state.counter + SumDiffs(CurrentInputs(s)) + UnmarshalDelta(input).diff
  {
    var s' := HandleInput(s, s.currentFrame + FRAME_BUFFER_LEN, input).value;
    assert CurrentInputs(s') == CurrentInputs(s) + [input];
    SumDiffsConcat(CurrentInputs(s), [input]);
  }

  // ---------------------------------------------------------------- catch-up

  /** Reference definition: the inputs of the `count` slots starting at the
      current frame's, concatenated in frame order. */
  function PendingSince(ring: Ring, currentFrame: uint64, count: nat): seq<bytes>
  {
    if count == 0 then []
    else PendingSince(ring, currentFrame, count - 1) + ring[(currentFrame + count - 1) % FRAME_BUFFER_LEN]
  }

  /** A delta covering every frame from the current one through `frame`. */
  method RequestDeltaSinceFrame<A>(s: Server<A>, frame: uint64) returns (r: Result<bytes, ServerError>)
    ensures frame < s.currentFrame ==> r == Failure(OutdatedFrame)
    ensures s.currentFrame <= frame && frame > WindowTop(s.currentFrame) ==> r == Failure(NonBufferedFrame)
    ensures r.Success? ==> s.currentFrame <= frame <= WindowTop(s.currentFrame)
    ensures s.currentFrame <= frame <= WindowTop(s.currentFrame) ==>
      var pending := PendingSince(s.frameBuffer, s.currentFrame, frame - s.currentFrame + 1);
      && (r.Success? <==> -TWO_55 <= SumDiffs(pending) < TWO_55)
      && (r.Success? ==> UnmarshalDelta(r.value).diff == SumDiffs(pending))
  {
    if frame < s.currentFrame {
      return Failure(OutdatedFrame);
    } else if frame > WindowTop(s.currentFrame) {
      return Failure(NonBufferedFrame);
    }
    var count: nat := frame - s.currentFrame + 1;
    var inputList: seq<bytes> := [];
    var i: nat := 0;
    while i < count
      invariant i <= count
      invariant inputList == PendingSince(s.frameBuffer, s.currentFrame, i)
    {
      var index := (i + s.currentFrame) % FRAME_BUFFER_LEN;
      inputList := inputList + s.frameBuffer[index];
      i := i + 1;
    }
    assert inputList == PendingSince(s.frameBuffer, s.currentFrame, count);
    r := MarshalledDelta(frame, inputList);
  }

  /** For the current frame alone, the catch-up walk is exactly its slot. */
  lemma PendingSinceCurrentFrame(ring: Ring, currentFrame: uint64)
    ensures PendingSince(ring, currentFrame, 1) == ring[Slot(currentFrame)]
  {
    assert PendingSince(ring, currentFrame, 0) == [];
  }

  lemma {:induction false} PendingSinceStartsWithCurrentSlot(ring: Ring, currentFrame: uint64, count: nat)
    requires count >= 1
    ensures |ring[Slot(currentFrame)]| <= |PendingSince(ring, currentFrame, count)|
    ensures PendingSince(ring, currentFrame, count)[..|ring[Slot(currentFrame)]|] == ring[Slot(currentFrame)]
  {
    if count == 1 {
      PendingSinceCurrentFrame(ring, currentFrame);
    } else {
      PendingSinceStartsWithCurrentSlot(ring, currentFrame, count - 1);
    }
  }

  /** A request for the window's top frame walks 129 slots, so the current
      slot is visited twice: its inputs open the list and close it again, and
      count twice in the delta. */
  lemma RequestAtWindowTopRepeatsCurrentSlot(ring: Ring, currentFrame: uint64)
    ensures var all := PendingSince(ring, currentFrame, FRAME_BUFFER_LEN + 1);
      && all[..|ring[Slot(currentFrame)]|] == ring[Slot(currentFrame)]
      && all == PendingSince(ring, currentFrame, FRAME_BUFFER_LEN) + ring[Slot(currentFrame)]
      && SumDiffs(all)
         == SumDiffs(PendingSince(ring, currentFrame, FRAME_BUFFER_LEN)) + SumDiffs(ring[Slot(currentFrame)])
  {
    PendingSinceStartsWithCurrentSlot(ring, currentFrame, FRAME_BUFFER_LEN + 1);
    assert (currentFrame + FRAME_BUFFER_LEN) % FRAME_BUFFER_LEN == Slot(currentFrame);
    SumDiffsConcat(PendingSince(ring, currentFrame, FRAME_BUFFER_LEN), ring[Slot(currentFrame)]);
  }

  // ---------------------------------------------------------------- dispatch

  /** What a client reads out of the server's reply to a join: a `JoinAck`
      packet for `frame` whose snapshot decodes to `state`. */
  predicate IsJoinAck(data: bytes, frame: uint64, state: State)
  {
    var p := UnmarshalPacket(data);
    && p.Success? && p.value.packetType == JOIN_ACK
    && var f := UnmarshalFramed(p.value.body);
       f.Success? && f.value.frame == frame && UnmarshalState(f.value.payload) == state
  }

  /** The reply to a join: the current frame and a snapshot of the state. */
  function JoinAck<A>(s: Server<A>, addr: A): (r: Result<Message<A>, ServerError>)
    ensures r.Success? <==> -TWO_55 <= s.state.counter < TWO_55
                            && UvarintLen(s.currentFrame) <= |MarshalState(s.state).value| + 8
    ensures -TWO_55 <= s.state.counter < TWO_55 && s.currentFrame < TWO_56 ==> r.Success?
    ensures r.Success? ==> r.value.addr == addr
    ensures r.Failure? ==> r.error == Codec(BufferOverrun)
  {
    var state := MarshalState(s.state);
    if state.Failure? then Failure(Codec(state.error))
    else
      var body := MarshalFramed(FramedBody(s.currentFrame, state.value));
      if body.Failure? then Failure(Codec(body.error))
      else Success(Message(addr, MarshalPacket(Packet(JOIN_ACK, body.value))))
  }

  /** As long as the current frame is below 2^56, the joining client decodes
      from the reply exactly the server's frame and state. */
  lemma JoinAckDecodes<A>(s: Server<A>, addr: A)
    requires JoinAck(s, addr).Success?
    requires s.currentFrame < TWO_56
    ensures IsJoinAck(JoinAck(s, addr).value.body, s.currentFrame, s.state)
  {
    var snapshot := MarshalState(s.state).value;
    var body := MarshalFramed(FramedBody(s.currentFrame, snapshot)).value;
    var data := JoinAck(s, addr).value.body;
    assert data == MarshalPacket(Packet(JOIN_ACK, body));
    FramedPacketRoundTrip(JOIN_ACK, s.currentFrame, snapshot);
    var padding := Zeros(8 - UvarintLen(s.currentFrame));
    assert UnmarshalPacket(data) == Success(Packet(JOIN_ACK, body));
    assert UnmarshalFramed(body) == Success(FramedBody(s.currentFrame, snapshot + padding));
    StateRoundTrip(s.state, padding);
    assert UnmarshalState(snapshot + padding) == s.state;
  }

  datatype Output<A> = Output(server: Server<A>, sent: seq<Message<A>>)

  /** One received datagram. A failure ends the server's loop: an undecodable
      packet or input body returns an error, and a `JoinAck` that cannot be
      encoded is a panic (its returned error is otherwise ignored). A refused
      input is dropped silently. `StateRequest`, `FrameAck` and the types only
      clients receive change nothing. */
  function HandleMessage<A>(s: Server<A>, msg: Message<A>): (r: Result<Output<A>, ServerError>)
    ensures UnmarshalPacket(msg.body).Failure? ==> r.Failure?
    ensures UnmarshalPacket(msg.body).Success? ==>
      var p := UnmarshalPacket(msg.body).value;
      && (p.packetType == JOIN ==>
            var s' := s.(clients := s.clients[p.body := Client(p.body, s.currentFrame, msg.addr)]);
            && (r.Success? <==> JoinAck(s', msg.addr).Success?)
            && (r.Success? ==> r.value == Output(s', [JoinAck(s', msg.addr).value])))
      && (p.packetType == INPUT ==>
            var ib := UnmarshalFramed(p.body);
            && (r.Success? <==> ib.Success?)
            && (r.Success? ==>
                  && r.value.sent == []
                  && var h := HandleInput(s, ib.value.frame, ib.value.payload);
                     r.value.server == if h.Success? then h.value else s))
      && (p.packetType != JOIN && p.packetType != INPUT ==> r == Success(Output(s, [])))
  {
    var p := UnmarshalPacket(msg.body);
    if p.Failure? then Failure(Codec(p.error))
    else if p.value.packetType == JOIN then
      var join := UnmarshalJoin(p.value.body);
      var s' := s.(clients := s.clients[join.username := Client(join.username, s.currentFrame, msg.addr)]);
      var ack := JoinAck(s', msg.addr);
      if ack.Failure? then Failure(ack.error) else Success(Output(s', [ack.value]))
    else if p.value.packetType == INPUT then
      var ib := UnmarshalFramed(p.value.body);
      if ib.Failure? then Failure(Codec(ib.error))
      else
        var h := HandleInput(s, ib.value.frame, ib.value.payload);
        if h.Success? then Success(Output(h.value, [])) else Success(Output(s, []))
    else Success(Output(s, []))
  }
}
