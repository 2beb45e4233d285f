/** The protocol end to end: the server's transitions and a client's
    transitions composed over the datagrams they exchange. The network is
    taken to deliver each datagram once, unchanged; the sender address a
    client sees is irrelevant to it and left as a parameter. */
module Lockstep {
  import opened Common
  import opened Varint
  import opened Packets
  import opened DemoGame
  import opened GameServer
  import opened ClientSide

  /** The join handshake: the server files the client under its username at
      the datagram's source address and answers it alone; the answer puts
      the client on the server's frame and state. */
  lemma JoinHandshake<A>(s: Server<A>, c: GameClient<A>, from: A, server: A)
    requires -TWO_55 <= s.state.counter < TWO_55
    requires s.currentFrame < TWO_56
    ensures var out := HandleMessage(s, Message(from, Join(c).body));
      && out.Success?
      && out.value.server.clients == s.clients[c.username := Client(c.username, s.currentFrame, from)]
      && |out.value.sent| == 1 && out.value.sent[0].addr == from
      && var c' := ReceiveMessage(c, Message(server, out.value.sent[0].body));
         && c'.Success?
         && c'.value.joined
         && c'.value.currentFrame == s.currentFrame
         && c'.value.state == s.state
  {
    var s' := s.(clients := s.clients[c.username := Client(c.username, s.currentFrame, from)]);
    assert UnmarshalPacket(Join(c).body) == Success(Packet(JOIN, c.username));
    var ack := JoinAck(s', from);
    assert ack.Success?;
    JoinAckDecodes(s', from);
    var out := HandleMessage(s, Message(from, Join(c).body));
    assert out == Success(Output(s', [ack.value]));
  }

  /** A tick keeps every joined client that was in step with the server in
      step: after it applies its datagram it has the server's new frame and
      new state. */
  lemma StepKeepsClientInSync<A>(s: Server<A>, c: GameClient<A>, u: bytes, server: A)
    requires GameServerStep(s).Success?
    requires u in s.clients
    requires c.joined && c.state == s.state
    requires Wrap64(s.currentFrame + 1) < TWO_56
    ensures u in GameServerStep(s).value.sent
    ensures var out := GameServerStep(s).value;
      var c' := ReceiveMessage(c, Message(server, out.sent[u].body));
      && out.sent[u].addr == s.clients[u].addr
      && c'.Success?
      && c'.value.currentFrame == out.server.currentFrame
      && c'.value.state == out.server.state
  {
    StepAddressesEveryClient(s);
    StepBroadcastsFrameUpdate(s, u);
  }

  /** An input a joined client sends for its current frame reaches the
      server's ring: when the frame is in the server's window, the slot for
      that frame gains exactly the client's difference and nothing else
      changes; otherwise the input is dropped without an error. */
  lemma InputReachesServer<A>(s: Server<A>, c: GameClient<A>, d: Delta, from: A)
    requires Input(c, d).Success?
    requires c.currentFrame < TWO_56
    ensures var out := HandleMessage(s, Message(from, Input(c, d).value.body));
      && out.Success?
      && out.value.sent == []
      && (s.currentFrame <= c.currentFrame <= WindowTop(s.currentFrame) ==>
            && SumDiffs(out.value.server.frameBuffer[Slot(c.currentFrame)])
               == SumDiffs(s.frameBuffer[Slot(c.currentFrame)]) + d.diff
            && OthersUnchanged(out.value.server.frameBuffer, s.frameBuffer, Slot(c.currentFrame))
            && out.value.server.currentFrame == s.currentFrame
            && out.value.server.state == s.state
            && out.value.server.clients == s.clients)
      && (!(s.currentFrame <= c.currentFrame <= WindowTop(s.currentFrame)) ==> out.value.server == s)
  {
    InputDecodes(c, d);
    var p := UnmarshalPacket(Input(c, d).value.body).value;
    var ib := UnmarshalFramed(p.body).value;
    assert ib.frame == c.currentFrame;
    SumDiffsConcat(s.frameBuffer[Slot(c.currentFrame)], [ib.payload]);
  }

  /** One round of the game for a client in step with the server: it sends
      one input for the current frame, the server ticks, and the client
      applies the broadcast. Both end on the next frame, with the counter
      moved by the client's input plus whatever else was queued for the frame. */
  lemma InputRound<A>(s: Server<A>, c: GameClient<A>, d: Delta, u: bytes, from: A, server: A)
    requires c.joined && c.state == s.state && c.currentFrame == s.currentFrame
    requires s.currentFrame + 1 < TWO_56
    requires u in s.clients
    requires -TWO_55 <= d.diff < TWO_55
    requires -TWO_55 <= SumDiffs(CurrentInputs(s)) + d.diff < TWO_55
    ensures Input(c, d).Success?
    ensures HandleMessage(s, Message(from, Input(c, d).value.body)).Success?
    ensures var s1 := HandleMessage(s, Message(from, Input(c, d).value.body)).value.server;
      && GameServerStep(s1).Success?
      && u in GameServerStep(s1).value.sent
      && var c' := ReceiveMessage(c, Message(server, GameServerStep(s1).value.sent[u].body));
         && c'.Success?
         && c'.value.currentFrame == s.currentFrame + 1 == GameServerStep(s1).value.server.currentFrame
         && c'.value.state == GameServerStep(s1).value.server.state
         && c'.value.state.counter == s.state.counter + SumDiffs(CurrentInputs(s)) + d.diff
  {
    InputReachesServer(s, c, d, from);
    var s1 := HandleMessage(s, Message(from, Input(c, d).value.body)).value.server;
    assert s1.state == s.state && s1.currentFrame == s.currentFrame && s1.clients == s.clients;
    assert SumDiffs(CurrentInputs(s1)) == SumDiffs(CurrentInputs(s)) + d.diff;
    assert FrameUpdateData(s1.currentFrame, CurrentInputs(s1)).Success?;
    StepKeepsClientInSync(s1, c, u, server);
  }

  /** A client that has fallen behind the server loses its inputs: the
      server drops an input for an earlier frame without an error or a reply. */
  lemma LaggingInputDropped<A>(s: Server<A>, c: GameClient<A>, d: Delta, from: A)
    requires Input(c, d).Success?
    requires c.currentFrame < s.currentFrame
    requires c.currentFrame < TWO_56
    ensures HandleMessage(s, Message(from, Input(c, d).value.body)) == Success(Output(s, []))
  {
    InputReachesServer(s, c, d, from);
  }
}
