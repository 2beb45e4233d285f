# networkframes protocol core, in Dafny

A model of the lockstep networking library `networkframes` and proofs about it.

The library has an authoritative server and its clients:

- The server buffers player inputs per frame in a 128-slot ring.
- On every tick it applies the current frame's inputs to the game state and sends every joined client a `FrameUpdate`. That update carries the next frame number and a delta summarising those inputs.
- A client joins with a `Join` packet and gets a `JoinAck` (the server's frame and a state snapshot). From then on it applies each `FrameUpdate` delta to its own copy of the state and stamps its inputs with its current frame.

The game state is the demo game's signed counter. The server adds the raw inputs to it; the clients add the delta the server generated from the same inputs.

The model has seven modules:

| file | module | what it holds |
|---|---|---|
| `common.dfy` | `Common` | bytes, 64-bit wrap-around, the `Result` type, codec errors |
| `varint.dfy` | `Varint` | Go's `binary.PutUvarint`/`Uvarint` and the zigzag `PutVarint`/`Varint`, against a base-128 reference reading |
| `packets.dfy` | `Packets` | the packet envelope `[type byte][body]`, the join body, and the framed bodies |
| `demogame.dfy` | `DemoGame` | the counter state, its delta, and the three update operations |
| `gameserver.dfy` | `GameServer` | the ring buffer, `HandleInput`, `GameServerStep`, `RequestDeltaSinceFrame`, `JoinAck`, and one iteration of the server's receive loop |
| `gameclient.dfy` | `ClientSide` | `Join`, `Input`, and one iteration of the client's receive loop |
| `lockstep.dfy` | `Lockstep` | the handshake, a tick and an input round, composed end to end |

The framed bodies are `JoinAck`, `FrameUpdate` and `Input`: a varint frame number followed by a payload.

Every operation is a pure function from the old state to the new state. A datagram the Go code hands to its UDP writer is returned instead. A Go panic becomes a `Failure`, and so does a returned error.

Some behaviour the proofs pin down:

**Framed bodies**
- The encoder always allocates `len(payload) + 8` bytes.
- Below frame 2^56, a round trip returns the payload followed by `8 - UvarintLen(frame)` zero bytes.
- From 2^56 on, the payload comes back truncated.
- From 2^63 on, a payload shorter than 2 bytes makes the encoder panic.

**Input window**
- The window check accepts `current_frame + 128`, which lands in the current frame's slot. Such an input is consumed by the very next tick.
- A catch-up delta requested for that frame counts the current slot twice.
- Within 128 frames of 2^64 the window bound wraps around, and every input is refused.

**Client frame updates**
- A client adopts any frame number a `FrameUpdate` carries, even an earlier one.
- It applies a replayed update again.

## Model

| member | source | states |
|---|---|---|
| Common.Wrap64 | src/gamenet/gameserver.go:78 | unsigned 64-bit addition: a sum below 2^64 is kept, a sum in [2^64, 2^65) loses 2^64 |
| Varint.PutUvarint | src/gamenet/types/packets/packets.go:79 | the bytes `PutUvarint` writes: `UvarintLen(x)` bytes, every byte but the last has its high bit set, the last holds the top seven-bit group, and their base-128 reading is `x` |
| Varint.UvarintLenBound | src/gamenet/types/packets/packets.go:78-79 | the encoding of `x` fits in `k` bytes exactly when `x < 128^k` |
| Varint.UvarintLenTop | src/gamenet/types/packets/packets.go:78-79 | a value below `2 * 128^(k-1)` needs at most `k` bytes, and if it needs exactly `k` the last byte holds at most one bit |
| Varint.UvarintFitsEight | src/gamenet/types/packets/packets.go:78-79 | a frame's varint fits in the 8 spare bytes exactly when the frame is below 2^56 |
| Varint.UvarintLenMax | src/gamenet/types/packets/packets.go:68 | a 64-bit value encodes in at most ten bytes, and the tenth holds a single bit |
| Varint.UvarintFrom | src/gamenet/types/packets/packets.go:68-71 | `binary.Uvarint`'s loop from byte `i`: a failed decode has value 0; a successful one consumed between `i + 1` and ten bytes, all within the buffer |
| Varint.UvarintFromFails | src/gamenet/types/packets/packets.go:68-71 | the loop reports "buffer too short" exactly on an unterminated buffer of at most ten bytes, and "overflow" exactly on ten continuation bytes followed by an eleventh byte, or a tenth byte above 1 |
| Varint.UvarintFromReads | src/gamenet/types/packets/packets.go:68-73 | on success the loop stops at the first byte below 128 and returns the base-128 value of the bytes read, which fits the bits that remain |
| Varint.Uvarint | src/gamenet/types/packets/packets.go:68 | `binary.Uvarint`: failures yield 0, success consumes 1 to 10 bytes, and every value fits in 64 bits |
| Varint.UvarintSpec | src/gamenet/types/packets/packets.go:68-73 | `binary.Uvarint` fails with `n == 0` exactly on unterminated input and with `n < 0` exactly on overlong input; otherwise it reads the base-128 value up to the first terminator |
| Varint.UvarintOfTerminated | src/gamenet/types/packets/packets.go:67-75 | a well-terminated varint decodes to its base-128 value and length, whatever bytes follow it |
| Varint.PutUvarintTerminated | src/gamenet/types/packets/packets.go:77-82 | the encoding of every 64-bit value is well terminated |
| Varint.UvarintRoundTrip | src/gamenet/types/packets/packets.go:67-82 | decoding `PutUvarint(x)` followed by any bytes gives back `x` and the encoding's length |
| Varint.Zigzag | src/demogame/state.go:19 | `Unzigzag` inverts the signed-to-unsigned mapping, and the mapped value is below 2^56 exactly for inputs in [-2^55, 2^55) |
| Varint.PutVarint | src/demogame/state.go:17-21 | `PutVarint` writes at least one byte, and at most 8 exactly for values in [-2^55, 2^55) |
| Varint.VarintValue | src/demogame/state.go:23-26 | the value of `binary.Varint` with its error discarded: 0 whenever the unsigned decode fails |
| Varint.VarintRoundTrip | src/demogame/state.go:17-26 | a value in [-2^55, 2^55) reads back from its signed varint, whatever bytes follow it |
| Packets.MarshalPacket | src/gamenet/types/packets/packets.go:42-47 | the envelope is one byte longer than the body, starts with the type byte and continues with the body, and never fails |
| Packets.UnmarshalPacket | src/gamenet/types/packets/packets.go:29-40 | an empty message is "not enough bytes", a first byte of 6 or more is "not a valid packet type", anything else succeeds with a type below 6 and re-encodes to the message |
| Packets.PacketRoundTrip | src/gamenet/types/packets/packets.go:29-47 | a packet of type below 6 survives encode-then-decode unchanged; any other type is refused as invalid |
| Packets.JoinRoundTrip | src/gamenet/types/packets/packets.go:53-60 | the join body is the username's bytes, in both directions, and never fails |
| Packets.MarshalFramed | src/gamenet/types/packets/packets.go:77-82 | the encoder succeeds exactly when the frame's varint fits in `len(payload) + 8` bytes, always below 2^56, and below 2^63 for a non-empty payload; its output has that length and starts with the varint; a failure is a buffer overrun |
| Packets.MarshalFramedPadded | src/gamenet/types/packets/packets.go:77-82 | below frame 2^56 the output is the varint, the whole payload, then `8 - UvarintLen(frame)` zeros |
| Packets.UnmarshalFramed | src/gamenet/types/packets/packets.go:67-75 | the decoder fails, with "not a valid uint64", exactly when `binary.Uvarint` fails; otherwise the frame is the decoded value and the payload is shorter than the message |
| Packets.UnmarshalFramedSpec | src/gamenet/types/packets/packets.go:89-97 | in bytes: decoding fails exactly on an unterminated or overlong varint; otherwise the frame is the base-128 value of the first 1 to 10 bytes and the payload is every byte after them |
| Packets.UnmarshalFramedAfterVarint | src/gamenet/types/packets/packets.go:114-122 | a varint followed by any bytes decodes to that frame and exactly those bytes |
| Packets.FramedRoundTrip | src/gamenet/types/packets/packets.go:99-104 | encode-then-decode returns the frame and the `len(payload) + 8 - UvarintLen(frame)` bytes behind the varint, that is, the payload followed by zeros and cut to that length |
| Packets.FramedRoundTripPadded | src/gamenet/types/packets/packets.go:124-129 | below frame 2^56 the round trip returns the frame and the payload followed by `8 - UvarintLen(frame)` zeros |
| Packets.FramedPacketRoundTrip | src/gamenet/types/packets/packets.go:29-82 | below frame 2^56, a framed body in a packet of known type decodes back to that type, that frame and the zero-padded payload |
| Packets.FramedLargeFrameTruncates | src/gamenet/types/packets/packets.go:77-82 | from frame 2^56 on, a successful encoding loses the last `UvarintLen(frame) - 8` payload bytes |
| Packets.FramedHugeFrameOverruns | src/gamenet/types/packets/packets.go:77-82 | from frame 2^63 on, encoding fails exactly when the payload is shorter than 2 bytes |
| DemoGame.MarshalVarint8 | src/demogame/state.go:17-21 | `PutVarint` into an 8-byte buffer succeeds exactly in [-2^55, 2^55), giving 1 to 8 bytes; outside that range it is an overrun |
| DemoGame.MarshalVarint8RoundTrip | src/demogame/state.go:17-26 | a value in range reads back from its marshalled bytes, whatever follows them |
| DemoGame.MarshalState | src/demogame/state.go:17-21 | a counter marshals exactly when it is in [-2^55, 2^55), to 1 to 8 bytes |
| DemoGame.UnmarshalState | src/demogame/state.go:23-26 | unmarshalling never fails; an empty or malformed buffer gives counter 0 |
| DemoGame.StateRoundTrip | src/demogame/state.go:17-26 | a state in range survives marshal-then-unmarshal, even with bytes appended |
| DemoGame.MarshalDelta | src/demogame/state.go:32-36 | a delta marshals exactly when its difference is in [-2^55, 2^55), to 1 to 8 bytes |
| DemoGame.UnmarshalDelta | src/demogame/state.go:38-41 | unmarshalling never fails; an empty or malformed buffer gives difference 0 |
| DemoGame.DeltaRoundTrip | src/demogame/state.go:32-41 | a delta in range survives marshal-then-unmarshal, even with bytes appended |
| DemoGame.Accumulate | src/demogame/state.go:55-61 | decoding each input in order and adding it to a running total gives the total plus the reference sum `SumDiffs` |
| DemoGame.UpdateOnInput | src/demogame/state.go:53-63 | applying a batch of inputs moves the counter by the sum of their decoded differences |
| DemoGame.GenerateDelta | src/demogame/state.go:65-76 | the generated delta's difference is the sum of the inputs' decoded differences, whatever the frame |
| DemoGame.UpdateOnDeltaMarshalled | src/demogame/state.go:43-51 | applying the marshalled form of a delta `x` in [-2^55, 2^55), with any bytes after it, moves the counter by exactly `x` |
| DemoGame.LockstepConsistency | src/demogame/state.go:43-76 | from one state, applying the raw inputs and applying their marshalled generated delta (even zero-padded) reach the same state, when the sum is in range |
| GameServer.NewServer | src/gamenet/gameserver.go:38-55 | a new server holds the state it was given, is at frame 0, with no clients and every slot empty |
| GameServer.WindowTop | src/gamenet/gameserver.go:78 | the window's top is `current_frame + 128`, or wraps below the current frame when that sum passes 2^64 |
| GameServer.HandleInput | src/gamenet/gameserver.go:75-84 | an input is refused as outdated below the current frame and as non-buffered above the window's top; it is accepted exactly inside; an accepted input is appended to its frame's slot, and nothing else changes |
| GameServer.HandleInputWindow | src/gamenet/gameserver.go:75-80 | away from the top of the 64-bit range, exactly the 129 frames `current_frame .. current_frame + 128` are accepted |
| GameServer.HandleInputRefusesNearWrap | src/gamenet/gameserver.go:78-80 | within 128 frames of 2^64 every input is refused |
| GameServer.WindowTopAliasesCurrentSlot | src/gamenet/gameserver.go:78-82 | an input for `current_frame + 128` is accepted into the current frame's slot, with the same result as an input for the current frame |
| GameServer.HandleInputAccumulates | src/gamenet/gameserver.go:81-83 | two inputs for one frame both stay in its slot, in arrival order |
| GameServer.MarshalledDelta | src/gamenet/gameserver.go:92-99 | the delta bytes exist exactly when the inputs' sum is in [-2^55, 2^55), and decode back to that sum; otherwise marshalling overruns |
| GameServer.FrameUpdateData | src/gamenet/gameserver.go:92-113 | a tick's datagram fails exactly as delta marshalling fails for a sum out of range; for a sum in range and a next frame below 2^63 it succeeds |
| GameServer.FrameUpdateDataDecodes | src/gamenet/gameserver.go:100-113 | below frame 2^56 a client decodes from the datagram a `FrameUpdate` for the next frame whose delta is the consumed inputs' sum |
| GameServer.GameServerStep | src/gamenet/gameserver.go:86-125 | a tick succeeds exactly when its datagram can be built; it advances the frame by one (mod 2^64), empties the consumed slot and leaves the other 127, moves the counter by the consumed inputs' sum, and keeps the roster |
| GameServer.StepAddressesEveryClient | src/gamenet/gameserver.go:114-123 | a tick sends one datagram per roster entry, to that entry's address, each carrying the same frame update |
| GameServer.StepBroadcastsFrameUpdate | src/gamenet/gameserver.go:100-123 | below frame 2^56 every client's datagram decodes to the new frame and the consumed inputs' sum |
| GameServer.WindowTopInputAppliedNextTick | src/gamenet/gameserver.go:78-109 | an input accepted for `current_frame + 128` is applied by the very next tick, together with the current frame's inputs |
| GameServer.RequestDeltaSinceFrame | src/gamenet/gameserver.go:57-73 | same refusals as `HandleInput`; inside the window the delta exists exactly when the sum of the inputs in slots `current_frame .. frame` is in range, and it decodes to that sum |
| GameServer.PendingSinceCurrentFrame | src/gamenet/gameserver.go:63-67 | a request for the current frame alone walks exactly the current slot |
| GameServer.PendingSinceStartsWithCurrentSlot | src/gamenet/gameserver.go:63-67 | every walk starts with the current slot's inputs |
| GameServer.RequestAtWindowTopRepeatsCurrentSlot | src/gamenet/gameserver.go:60-67 | a request for `current_frame + 128` walks 129 slots, so the current slot's inputs open and close the list and count twice in the sum |
| GameServer.JoinAck | src/gamenet/gameserver.go:127-153 | the reply exists exactly when the state marshals and the frame's varint fits beside it, always for a state in range and a frame below 2^56; it goes to the given address; a failure is an overrun |
| GameServer.JoinAckDecodes | src/gamenet/gameserver.go:128-144 | below frame 2^56 the reply decodes to a `JoinAck` with the server's frame and state |
| GameServer.HandleMessage | src/gamenet/gameserver.go:167-199 | an undecodable packet fails; a join files the sender under its username at the current frame and replies with a join acknowledgement; an input fails only if its body does not decode, and otherwise is applied or silently dropped; any other packet changes nothing |
| ClientSide.NewGameClient | src/gamenet/gameclient.go:20-36 | a new client is not joined, is at frame 0, and holds the given name, server address and state |
| ClientSide.Join | src/gamenet/gameclient.go:42-62 | the join request goes to the server address and decodes to a `Join` packet whose body reads back as the username |
| ClientSide.Input | src/gamenet/gameclient.go:65-94 | refused as "not yet joined" before a join; otherwise it succeeds exactly when the difference and frame fit their buffers, always for a difference in range and a frame below 2^56; it goes to the server address |
| ClientSide.InputDecodes | src/gamenet/gameclient.go:69-85 | below frame 2^56 the server decodes from the datagram an `Input` for the client's frame carrying the client's difference |
| ClientSide.ReceiveMessage | src/gamenet/gameclient.go:101-137 | an undecodable packet fails; a join acknowledgement sets the frame and state and joins; a frame update is ignored before joining and otherwise adopts the frame and moves the counter by the delta; other types are ignored; name and server address never change; only a join acknowledgement joins |
| ClientSide.FrameCanMoveBackwards | src/gamenet/gameclient.go:122-130 | a joined client handed the update for frame 0 goes back to frame 0, whatever frame it had reached |
| ClientSide.ReplayedUpdateAppliesTwice | src/gamenet/gameclient.go:122-130 | the same frame update received twice moves the counter by twice its delta |
| ClientSide.UnjoinedIgnoresUpdates | src/gamenet/gameclient.go:117-120 | before joining, frame updates leave the client unchanged and inputs are refused |
| Lockstep.JoinHandshake | src/gamenet/gameserver.go:173-185 | a join from a client is filed at the sender's address and answered alone; the answer puts the client on the server's frame and state, for a state in range and a frame below 2^56 |
| Lockstep.StepKeepsClientInSync | src/gamenet/gameserver.go:100-123 | a joined client in step with the server receives a datagram that puts it on the server's new frame and new state |
| Lockstep.InputReachesServer | src/gamenet/gameserver.go:186-193 | a client's input is accepted without a reply; inside the window it adds exactly the client's difference to its frame's slot and leaves everything else; outside, the server is unchanged |
| Lockstep.InputRound | src/gamenet/gameclient.go:117-131 | one input, one tick and one update leave client and server on the next frame with equal counters, moved by the client's difference plus the frame's other inputs |
| Lockstep.LaggingInputDropped | src/gamenet/gameserver.go:186-193 | an input stamped with a frame behind the server is dropped without an error or a reply |

## Left out

- The UDP listener and writer goroutines (`udp_listener.go`, `udp_writer.go`), socket binding and address resolution in `NewGameServer`/`NewGameClient`, and the programs in `src/server/main.go` and `src/client/main.go`. These are I/O and concurrency. A datagram to send is returned instead of being written to a channel, and a peer address is an opaque type parameter.
- The `select` on the step timer and the `range` over the listener channel. Only one loop iteration is modelled: `GameServerStep` for a timer tick, and `HandleMessage` / `ReceiveMessage` for a datagram.
- `fmt.Printf` logging.
- `FrameAck`: it returns `nil` and does nothing, so `ReceiveMessage` has nothing to call in its place.
- The `State` interface is not modelled generically. It is instantiated with the demo game's counter, which is what both programs use.
- The demo counter is an unbounded integer. Go's `int64` wrap-around in `counter += Diff` and `toret.Diff += d.Diff` is not modelled. Frame arithmetic does wrap at 2^64.
- The roster is a `map`, and Go iterates it in no fixed order. The tick's datagrams are therefore a map from username to datagram, not a sequence.
- Go panics (`PutUvarint`/`PutVarint` writing past the end of a fixed buffer) are modelled as a `Failure(BufferOverrun)` result. Unlike a panic, this does not end the process.
- `binary.Uvarint` is modelled as the current Go library defines it: ten bytes at most, a tenth byte above 1 overflows, and non-minimal encodings are accepted.
- Client `LastFrame` is stored on join and never read, so no property mentions it.
- GameServer.FrameUpdateDataDecodes: proved only for a next frame below 2^56. From there on the frame's varint eats into the delta (see `Packets.FramedLargeFrameTruncates`), and the decoded delta depends on the truncated bytes.
- GameServer.JoinAckDecodes: proved only for a current frame below 2^56, for the same reason.
- ClientSide.InputDecodes: proved only for a client frame below 2^56, for the same reason.
